/**
 * The fallback split, used when no catalog search succeeds: the rightmost
 * position where the union of the shapes matches (an overlapping scan over
 * every start position), else a fixed split by length.
 */
module Fallback {
  import opened Wrappers
  import opened Shapes
  import opened Packing

  /** A union match: where it starts and the text of the alternative that matched. */
  datatype Hit = Hit(start: nat, text: string)

  /** The union match starting at position `i`, if any: the first listed alternative that matches there. */
  function HitAt(s: string, i: nat): (h: Option<Hit>)
    requires i <= |s|
    ensures h.Some? ==> h.value.start == i && i + |h.value.text| <= |s| && h.value.text == s[i..i + |h.value.text|]
  {
    match UnionAt(s[i..])
    case None => None
    case Some(k) => Some(Hit(i, s[i..][..|Catalog[k].shape|]))
  }

  /** A hit at `i` exists exactly when the union matches there, and its text is that alternative's match. */
  lemma HitAtSpec(s: string, i: nat)
    requires i <= |s|
    ensures HitAt(s, i).Some? <==> UnionAt(s[i..]).Some?
    ensures HitAt(s, i).Some? ==> HitAt(s, i).value.text == s[i..i + |Catalog[UnionAt(s[i..]).value].shape|]
  {
  }

  /** The hit at `i` is the text of the first catalog entry that matches there. */
  lemma HitIsFirstFit(s: string, i: nat, k: nat)
    requires i <= |s| && k < |Catalog| && MatchesPrefix(Catalog[k].shape, s[i..])
    requires forall j :: 0 <= j < k ==> !MatchesPrefix(Catalog[j].shape, s[i..])
    ensures i + |Catalog[k].shape| <= |s|
    ensures HitAt(s, i) == Some(Hit(i, s[i..i + |Catalog[k].shape|]))
  {
    UnionIsFirstFit(s[i..], k);
  }

  /** The union match at every start position, left to right. */
  function Hits(s: string): (hs: seq<Option<Hit>>)
    ensures |hs| == |s|
    ensures forall i :: 0 <= i < |s| ==> hs[i] == HitAt(s, i)
  {
    seq(|s|, i requires 0 <= i < |s| => HitAt(s, i))
  }

  /** The last match among the first `k` positions of `hs`. */
  function Rightmost(hs: seq<Option<Hit>>, k: nat): Option<Hit>
    requires k <= |hs|
  {
    if k == 0 then None
    else if hs[k - 1].Some? then hs[k - 1]
    else Rightmost(hs, k - 1)
  }

  /**
   * The scan's result, characterised: nothing when no position below `k`
   * holds a match; otherwise the match at a position `p` below `k` after
   * which, below `k`, there is none.
   */
  lemma {:induction false} RightmostSpec(hs: seq<Option<Hit>>, k: nat)
    requires k <= |hs|
    ensures Rightmost(hs, k).None? <==> forall i :: 0 <= i < k ==> hs[i].None?
    ensures Rightmost(hs, k).Some? ==>
      exists p :: 0 <= p < k && hs[p] == Rightmost(hs, k) && forall i :: p < i < k ==> hs[i].None?
  {
    if k > 0 {
      RightmostSpec(hs, k - 1);
      if hs[k - 1].Some? {
        assert hs[k - 1] == Rightmost(hs, k);
      }
    }
  }

  /** The rightmost hit lies within `s` and its text is what `s` holds there. */
  lemma RightmostInPlace(s: string)
    ensures Rightmost(Hits(s), |s|).Some? ==>
      var h := Rightmost(Hits(s), |s|).value;
      h.start + |h.text| <= |s| && h.text == s[h.start..h.start + |h.text|]
  {
    RightmostSpec(Hits(s), |s|);
  }

  /**
   * The `finditer` loop of the fallback: every start position is visited
   * left to right and `last` is overwritten by each match. The end position
   * `|s|` is not visited: no shape matches the empty string.
   */
  method LastUnionMatch(s: string) returns (last: Option<Hit>)
    ensures last == Rightmost(Hits(s), |s|)
  {
    last := None;
    var i := 0;
    while i < |s|
      invariant 0 <= i <= |s|
      invariant last == Rightmost(Hits(s), i)
    {
      var m := HitAt(s, i);
      if m.Some? {
        last := m;
      }
      i := i + 1;
    }
  }

  /**
   * The rough split for values that fit no rule: up to 6 characters stay
   * in front; up to 12, the last 6 become the suffix; beyond, the 6 before
   * those become the middle and the rest stays in front.
   */
  function FixedSlice(s: string): (x: Fields)
    ensures x.front + x.middle + x.suffix == s
    ensures |s| <= 6 ==> x == Fields(s, "", "")
    ensures 6 < |s| <= 12 ==> x.middle == "" && |x.suffix| == 6
    ensures 12 < |s| ==> |x.middle| == 6 && |x.suffix| == 6 && |x.front| == |s| - 12
  {
    if |s| <= 6 then Fields(s, "", "")
    else if |s| <= 12 then
      assert s[..|s| - 6] + s[|s| - 6..] == s;
      Fields(s[..|s| - 6], "", s[|s| - 6..])
    else
      assert s[..|s| - 12] + s[|s| - 12..|s| - 6] + s[|s| - 6..] == s;
      Fields(s[..|s| - 12], s[|s| - 12..|s| - 6], s[|s| - 6..])
  }

  /** The split around a match `h` that lies within `s`: what precedes it, its text, what follows. */
  function SplitAround(s: string, h: Hit): (x: Fields)
    requires h.start + |h.text| <= |s| && h.text == s[h.start..h.start + |h.text|]
    ensures x.front + x.middle + x.suffix == s
    ensures |x.front| == h.start && x.middle == h.text
  {
    var p := h.start;
    assert s[..p] + h.text + s[p + |h.text|..] == s;
    Fields(s[..p], h.text, s[p + |h.text|..])
  }

  /** The fallback split: around the rightmost union match, else by length. */
  function FallbackSplit(s: string): (x: Fields)
    ensures x.front + x.middle + x.suffix == s
  {
    match Rightmost(Hits(s), |s|)
    case Some(h) =>
      RightmostInPlace(s);
      SplitAround(s, h)
    case None => FixedSlice(s)
  }

  /** Without a hit anywhere, the split is by length. */
  lemma NoHitFixedSlice(s: string)
    requires forall i :: 0 <= i < |s| ==> HitAt(s, i).None?
    ensures FallbackSplit(s) == FixedSlice(s)
  {
    var hs := Hits(s);
    assert forall i :: 0 <= i < |s| ==> hs[i].None?;
    RightmostSpec(hs, |s|);
  }

  /** A hit at `j` means there is a last hit, at `j` or after it. */
  lemma LastHitExists(s: string, j: nat)
    requires j < |s| && HitAt(s, j).Some?
    ensures exists p :: j <= p < |s| && HitAt(s, p).Some? && forall i :: p < i < |s| ==> HitAt(s, i).None?
  {
    var hs := Hits(s);
    assert hs[j].Some?;
    RightmostSpec(hs, |s|);
    var p :| 0 <= p < |s| && hs[p] == Rightmost(hs, |s|) && forall i :: p < i < |s| ==> hs[i].None?;
    assert j <= p;
    assert HitAt(s, p).Some?;
    assert forall i :: p < i < |s| ==> HitAt(s, i).None? by {
      forall i | p < i < |s| ensures HitAt(s, i).None? {
        assert hs[i].None?;
      }
    }
  }

  /** A hit at `p` with none after it within `s` is the one the fallback splits around. */
  lemma LastHitSplits(s: string, p: nat)
    requires p < |s| && HitAt(s, p).Some?
    requires forall i :: p < i < |s| ==> HitAt(s, i).None?
    ensures var t := HitAt(s, p).value.text;
      FallbackSplit(s) == Fields(s[..p], t, s[p + |t|..])
  {
    var hs := Hits(s);
    RightmostSpec(hs, |s|);
    var q :| 0 <= q < |s| && hs[q] == Rightmost(hs, |s|) && forall i :: q < i < |s| ==> hs[i].None?;
    assert hs[p].Some? && hs[q].Some?;
    assert q == p;
  }

  /**
   * The fallback of `vd52_format`: the `finditer` scan for the rightmost
   * union match, then the split around it, or the split by length when
   * there is none.
   */
  method FallbackFields(s: string) returns (on: string, mid: string, son: string)
    ensures Fields(on, mid, son) == FallbackSplit(s)
  {
    var last := LastUnionMatch(s);
    if last.Some? {
      RightmostInPlace(s);
      mid := last.value.text;
      on := s[..last.value.start];
      son := s[last.value.start + |mid|..];
      assert Fields(on, mid, son) == SplitAround(s, last.value);
    } else if |s| <= 6 {
      on, mid, son := s, "", "";
    } else if |s| <= 12 {
      on, mid, son := s[..|s| - 6], "", s[|s| - 6..];
    } else {
      on, mid, son := s[..|s| - 12], s[|s| - 12..|s| - 6], s[|s| - 6..];
    }
  }
}
