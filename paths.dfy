/**
  Dotted paths of the node tree (pmtk/model/tree.py): `str.split('.')`, and the
  dot-join used by `Node.__str__`.
 */
module Paths {

  /** Position of the first '.' in `s` (what `str.split('.', 1)` cuts at). */
  function FirstDot(s: string): (k: nat)
    requires '.' in s
    ensures k < |s| && s[k] == '.'
    ensures '.' !in s[..k]
  {
    if s[0] == '.' then 0
    else
      var k := FirstDot(s[1..]);
      assert s[1..][..k] == s[1..k + 1];
      assert s[..k + 1] == [s[0]] + s[1..k + 1];
      k + 1
  }

  /** `s.split('.')`: never empty, and no segment contains a dot. */
  function Split(s: string): (segs: seq<string>)
    ensures |segs| >= 1
    ensures forall i :: 0 <= i < |segs| ==> '.' !in segs[i]
    decreases |s|
  {
    if '.' !in s then [s]
    else
      var k := FirstDot(s);
      [s[..k]] + Split(s[k + 1..])
  }

  /** `'.'.join(segs)`. */
  function Join(segs: seq<string>): string
    requires |segs| >= 1
  {
    if |segs| == 1 then segs[0] else segs[0] + "." + Join(segs[1..])
  }

  /** Joining the segments of a split gives the string back. */
  lemma {:induction false} JoinSplit(s: string)
    ensures Join(Split(s)) == s
    decreases |s|
  {
    if '.' in s {
      var k := FirstDot(s);
      JoinSplit(s[k + 1..]);
      assert s == s[..k] + "." + s[k + 1..];
    }
  }

  /** Splitting a join of dot-free segments gives the segments back. */
  lemma {:induction false} SplitJoin(segs: seq<string>)
    requires |segs| >= 1
    requires forall i :: 0 <= i < |segs| ==> '.' !in segs[i]
    ensures Split(Join(segs)) == segs
  {
    if |segs| > 1 {
      SplitJoin(segs[1..]);
      SplitAfterDot(segs[0], Join(segs[1..]));
      assert segs == [segs[0]] + segs[1..];
    }
  }

  /** A dot after a dot-free `head` is where the split cuts. */
  lemma SplitAfterDot(head: string, rest: string)
    requires '.' !in head
    ensures Split(head + "." + rest) == [head] + Split(rest)
  {
    var s := head + "." + rest;
    assert s[|head|] == '.';
    assert s[..|head|] == head && s[|head| + 1..] == rest;
  }
}
