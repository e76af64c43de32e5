/** The two pieces of Python's sequence and string semantics the pipeline
    relies on: slicing with out-of-range bounds, and `str.split(sep)`. */
module PyStr {

  function Min(a: int, b: int): int { if a <= b then a else b }

  /** Python's `s[lo:hi]` for non-negative bounds. Both bounds are clamped to
      the length and a slice whose start passes its stop is empty, so the
      operation never fails: on a short sequence it just yields a short slice. */
  function PySlice<T>(s: seq<T>, lo: nat, hi: nat): (r: seq<T>)
    ensures |r| == if hi <= lo || |s| <= lo then 0 else Min(hi, |s|) - lo
    ensures forall i :: 0 <= i < |r| ==> lo + i < |s| && r[i] == s[lo + i]
  {
    var start := Min(lo, |s|);
    var stop := Min(hi, |s|);
    if stop <= start then [] else s[start..stop]
  }

  /** Python's `s.split(sep)` for a one-character separator: the maximal
      separator-free pieces of `s`, in order. There is always at least one
      piece (`"".split(".") == [""]`), and gluing the pieces back together
      with the separator gives `s` again. */
  function Split(s: string, sep: char): (parts: seq<string>)
    ensures |parts| >= 1
    ensures forall i :: 0 <= i < |parts| ==> sep !in parts[i]
    ensures Join(parts, sep) == s
    decreases |s|
  {
    if s == [] then [[]]
    else
      var rest := Split(s[1..], sep);
      if s[0] == sep then [[]] + rest
      else
        assert s == [s[0]] + s[1..];
        [[s[0]] + rest[0]] + rest[1..]
  }

  /** Python's `sep.join(parts)`, the inverse of `Split`. */
  function Join(parts: seq<string>, sep: char): string
    requires |parts| >= 1
    decreases |parts|
  {
    if |parts| == 1 then parts[0] else parts[0] + [sep] + Join(parts[1..], sep)
  }

  function Last<T>(s: seq<T>): T
    requires |s| >= 1
  {
    s[|s| - 1]
  }

  /** The glued string starts with the first piece, followed by a separator
      when there are more pieces. */
  lemma JoinStarts(parts: seq<string>, sep: char)
    requires |parts| >= 1
    ensures |parts[0]| <= |Join(parts, sep)|
    ensures Join(parts, sep)[..|parts[0]|] == parts[0]
    ensures |parts| == 1 ==> Join(parts, sep) == parts[0]
    ensures |parts| > 1 ==> |parts[0]| < |Join(parts, sep)| && Join(parts, sep)[|parts[0]|] == sep
  {
    if |parts| > 1 {
      var j := Join(parts, sep);
      assert j == parts[0] + [sep] + Join(parts[1..], sep);
      assert j[..|parts[0]|] == parts[0];
    }
  }

  /** The glued string ends with the last piece, preceded by a separator
      when there are more pieces. */
  lemma {:induction false} JoinEnds(parts: seq<string>, sep: char)
    requires |parts| >= 1
    ensures |Last(parts)| <= |Join(parts, sep)|
    ensures Join(parts, sep)[|Join(parts, sep)| - |Last(parts)|..] == Last(parts)
    ensures |parts| == 1 ==> Join(parts, sep) == Last(parts)
    ensures |parts| > 1 ==>
      |Last(parts)| < |Join(parts, sep)| &&
      Join(parts, sep)[|Join(parts, sep)| - |Last(parts)| - 1] == sep
    decreases |parts|
  {
    if |parts| > 1 {
      var tail := parts[1..];
      var j, jt := Join(parts, sep), Join(tail, sep);
      var l := Last(parts);
      JoinEnds(tail, sep);
      assert Last(tail) == l;
      assert j == parts[0] + [sep] + jt;
      assert j[|j| - |jt|..] == jt;
      assert j[|j| - |l|..] == jt[|jt| - |l|..];
      if |tail| == 1 {
        assert j[|j| - |l| - 1] == sep;
      } else {
        assert j[|j| - |l| - 1] == jt[|jt| - |l| - 1];
      }
    }
  }

  /** Gluing one more piece onto the end. */
  lemma {:induction false} JoinAppend(parts: seq<string>, t: string, sep: char)
    requires |parts| >= 1
    ensures Join(parts + [t], sep) == Join(parts, sep) + [sep] + t
    decreases |parts|
  {
    if |parts| > 1 {
      assert (parts + [t])[1..] == parts[1..] + [t];
      JoinAppend(parts[1..], t, sep);
    }
  }

  /** `Split` is the only way to cut a string into separator-free pieces:
      splitting what a list of such pieces glues to gives the list back. */
  lemma {:induction false} SplitJoin(parts: seq<string>, sep: char)
    requires |parts| >= 1
    requires forall i :: 0 <= i < |parts| ==> sep !in parts[i]
    ensures Split(Join(parts, sep), sep) == parts
    decreases |Join(parts, sep)|
  {
    var s := Join(parts, sep);
    if parts[0] == [] {
      if |parts| > 1 {
        assert s == [sep] + Join(parts[1..], sep);
        assert s[1..] == Join(parts[1..], sep);
        SplitJoin(parts[1..], sep);
        assert parts == [[]] + parts[1..];
      }
    } else {
      var c, t := parts[0][0], parts[0][1..];
      assert c != sep by { assert c == parts[0][0]; }
      var shorter := [t] + parts[1..];
      forall i | 0 <= i < |shorter| ensures sep !in shorter[i] {
        if i == 0 {
          assert forall k :: 0 <= k < |t| ==> t[k] == parts[0][k + 1];
        } else {
          assert shorter[i] == parts[i];
        }
      }
      assert parts[0] == [c] + t;
      if |parts| == 1 {
        assert s == [c] + Join(shorter, sep);
      } else {
        assert shorter[1..] == parts[1..];
        assert s == [c] + Join(shorter, sep);
      }
      assert s[1..] == Join(shorter, sep);
      SplitJoin(shorter, sep);
      assert parts == [[c] + shorter[0]] + shorter[1..];
    }
  }

  /** A string without the separator is one piece. */
  lemma SplitNoSeparator(s: string, sep: char)
    requires sep !in s
    ensures Split(s, sep) == [s]
  {
    SplitJoin([s], sep);
  }

  /** The pieces of `p + sep + t`, for separator-free `t`, are those of `p`
      followed by `t`. */
  lemma SplitAfterLast(p: string, t: string, sep: char)
    requires sep !in t
    ensures Split(p + [sep] + t, sep) == Split(p, sep) + [t]
  {
    var parts := Split(p, sep) + [t];
    JoinAppend(Split(p, sep), t, sep);
    forall i | 0 <= i < |parts| ensures sep !in parts[i] {
      if i < |parts| - 1 { assert parts[i] == Split(p, sep)[i]; }
    }
    SplitJoin(parts, sep);
  }

  /** The first piece of `c + sep + rest`, for separator-free `c`, is `c`. */
  lemma SplitBeforeFirst(c: string, rest: string, sep: char)
    requires sep !in c
    ensures Split(c + [sep] + rest, sep)[0] == c
  {
    var parts := [c] + Split(rest, sep);
    assert parts[1..] == Split(rest, sep);
    assert Join(parts, sep) == c + [sep] + rest;
    forall i | 0 <= i < |parts| ensures sep !in parts[i] {
      if i > 0 { assert parts[i] == Split(rest, sep)[i - 1]; }
    }
    SplitJoin(parts, sep);
  }
}
