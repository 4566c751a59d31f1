/**
 * `version.split('.')` and the padding of the first three segments to
 * major, minor and patch.
 */
module Components {

  /** No segment of a split contains the delimiter. */
  predicate DotFree(parts: seq<string>) {
    forall k :: 0 <= k < |parts| ==> '.' !in parts[k]
  }

  /**
   * `s.split('.')`: the maximal dot-free runs of `s`, in order. As in
   * JavaScript there is always at least one segment ("" splits to [""],
   * "1." to ["1", ""]).
   */
  function SplitOnDot(s: string): (parts: seq<string>)
    ensures |parts| >= 1
    ensures DotFree(parts)
  {
    if s == [] then [""]
    else
      var rest := SplitOnDot(s[1..]);
      if s[0] == '.' then [""] + rest
      else [[s[0]] + rest[0]] + rest[1..]
  }

  /** `parts.join('.')`, the inverse of the split. */
  function Join(parts: seq<string>): string {
    if parts == [] then ""
    else if |parts| == 1 then parts[0]
    else parts[0] + "." + Join(parts[1..])
  }

  /** `components[i]`, or "" when the split produced no segment `i`. */
  function Segment(parts: seq<string>, i: nat): string {
    if i < |parts| then parts[i] else ""
  }

  /** Splitting loses nothing: the segments joined back with '.' are the version. */
  lemma {:induction false} JoinSplit(s: string)
    ensures Join(SplitOnDot(s)) == s
  {
    if s != [] {
      var rest := SplitOnDot(s[1..]);
      JoinSplit(s[1..]);
      if s[0] == '.' {
        assert SplitOnDot(s) == [""] + rest;
        assert s == [s[0]] + s[1..];
      } else {
        var parts := SplitOnDot(s);
        assert parts[0] == [s[0]] + rest[0];
        assert parts[1..] == rest[1..];
        if |rest| == 1 {
          assert s == [s[0]] + rest[0];
        } else {
          assert Join(rest) == rest[0] + "." + Join(rest[1..]);
          assert s == [s[0]] + s[1..];
        }
      }
    }
  }

  /** A dot-free string is a single segment. */
  lemma {:induction false} SplitDotFree(a: string)
    requires '.' !in a
    ensures SplitOnDot(a) == [a]
  {
    if a != [] {
      SplitDotFree(a[1..]);
      assert a == [a[0]] + a[1..];
    }
  }

  /** A dot-free head followed by '.' splits off as the first segment. */
  lemma {:induction false} SplitHead(a: string, b: string)
    requires '.' !in a
    ensures SplitOnDot(a + "." + b) == [a] + SplitOnDot(b)
  {
    if a == [] {
      assert a + "." + b == ['.'] + b;
      assert (['.'] + b)[1..] == b;
    } else {
      SplitHead(a[1..], b);
      assert (a + "." + b)[1..] == a[1..] + "." + b;
      assert a == [a[0]] + a[1..];
    }
  }

  /** The split is the inverse of the join on dot-free segments. */
  lemma {:induction false} SplitJoin(parts: seq<string>)
    requires |parts| >= 1 && DotFree(parts)
    ensures SplitOnDot(Join(parts)) == parts
  {
    if |parts| == 1 {
      SplitDotFree(parts[0]);
    } else {
      assert '.' !in parts[0];
      SplitJoin(parts[1..]);
      SplitHead(parts[0], Join(parts[1..]));
      assert parts == [parts[0]] + parts[1..];
    }
  }

  /**
   * The three components of `a.b.c.rest…`: the first three segments, with
   * "" for the ones the version does not have; a fourth or later segment is
   * not exposed.
   */
  lemma ComponentsOfJoin(parts: seq<string>)
    requires |parts| >= 1 && DotFree(parts)
    ensures Segment(SplitOnDot(Join(parts)), 0) == parts[0]
    ensures Segment(SplitOnDot(Join(parts)), 1) == if |parts| > 1 then parts[1] else ""
    ensures Segment(SplitOnDot(Join(parts)), 2) == if |parts| > 2 then parts[2] else ""
  {
    SplitJoin(parts);
  }

  /** The versions of the component tests: "1", "1.0", "1.0.0" and "1.0.0.0". */
  lemma TestVersionComponents()
    ensures var p := SplitOnDot("1"); Segment(p, 0) == "1" && Segment(p, 1) == "" && Segment(p, 2) == ""
    ensures var p := SplitOnDot("1.0"); Segment(p, 0) == "1" && Segment(p, 1) == "0" && Segment(p, 2) == ""
    ensures var p := SplitOnDot("1.0.0"); Segment(p, 0) == "1" && Segment(p, 1) == "0" && Segment(p, 2) == "0"
    ensures var p := SplitOnDot("1.0.0.0"); Segment(p, 0) == "1" && Segment(p, 1) == "0" && Segment(p, 2) == "0"
  {
    // Dafny evaluates the four splits directly; each is also an instance of ComponentsOfJoin.
  }
}
