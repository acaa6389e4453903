/**
 * `vd52_format`: normalise, try the catalog search with a front of length
 * 4 and of length 5, keep the better candidate (the length-4 one only when
 * its score is strictly above), fall back when neither try succeeds, and
 * pack the three fields into one line.
 */
module Segmenter {
  import opened Wrappers
  import opened Chars
  import opened Shapes
  import opened Packing
  import opened Normalization
  import opened Search
  import opened Fallback

  /** The choice between the two tries: the length-4 candidate only when its score is strictly above. */
  function Choose(c4: Option<Candidate>, c5: Option<Candidate>): (r: Option<Candidate>)
    ensures r.None? <==> c4.None? && c5.None?
    ensures r == c4 || r == c5
    ensures c4.Some? && c5.Some? ==> !Above(c4.value.score, r.value.score) && !Above(c5.value.score, r.value.score)
  {
    if c4.Some? && c5.Some? then
      AboveStrictTotal(c4.value.score, c5.value.score, c4.value.score);
      if Above(c4.value.score, c5.value.score) then c4 else c5
    else if c4.Some? then c4
    else c5
  }

  function FieldsOf(c: Candidate): Fields
  {
    Fields(c.front, c.middle, c.suffix)
  }

  /** The segmentation of a normalised identifier. */
  function Segment(s: string): (x: Fields)
    ensures x.front + x.middle + x.suffix == s
  {
    match Choose(TryWithPrefix(s, 4), TryWithPrefix(s, 5))
    case Some(c) => FieldsOf(c)
    case None => FallbackSplit(s)
  }

  /** `vd52_format(raw)`; `None` stands for a NaN cell. */
  function FormatLine(raw: Option<string>): (line: string)
    ensures line == "" <==> raw.None?
    ensures raw.Some? ==> |line| >= FrontWidth + MiddleWidth
  {
    if raw.None? then "" else Pack(Segment(Normalize(raw.value)))
  }

  /**
   * Every branch of the segmentation splits the string without losing or
   * adding a character, and the fallback runs exactly when neither try
   * yields a candidate.
   */
  lemma SegmentReconstructs(s: string)
    ensures var x := Segment(s); x.front + x.middle + x.suffix == s
    ensures Segment(s) == FallbackSplit(s) || Choose(TryWithPrefix(s, 4), TryWithPrefix(s, 5)).Some?
    ensures TryWithPrefix(s, 4).None? && TryWithPrefix(s, 5).None? ==> Segment(s) == FallbackSplit(s)
  {
    TryWithPrefixSpec(s, 4);
    TryWithPrefixSpec(s, 5);
  }

  /**
   * The chosen candidate is the better of the two tries: the other one's
   * score is never strictly above it, and on an exact tie the length-5
   * candidate is used.
   */
  lemma ChooseKeepsBetter(c4: Option<Candidate>, c5: Option<Candidate>)
    ensures Choose(c4, c5).None? <==> c4.None? && c5.None?
    ensures Choose(c4, c5).Some? ==> Choose(c4, c5) == c4 || Choose(c4, c5) == c5
    ensures c4.Some? && c5.Some? ==>
      && !Above(c4.value.score, Choose(c4, c5).value.score)
      && !Above(c5.value.score, Choose(c4, c5).value.score)
    ensures c4.Some? && c5.Some? && c4.value.score == c5.value.score ==> Choose(c4, c5) == c5
  {
    if c4.Some? && c5.Some? {
      AboveStrictTotal(c4.value.score, c5.value.score, c4.value.score);
    }
  }

  /**
   * The two tries can tie only through the PS741 exception: a generic
   * length-4 candidate always carries 1 in the last score component and a
   * length-5 candidate 0.
   */
  lemma TieOnlyThroughPs741(s: string)
    requires TryWithPrefix(s, 4).Some? && TryWithPrefix(s, 5).Some?
    requires TryWithPrefix(s, 4).value.score == TryWithPrefix(s, 5).value.score
    ensures Ps741Fires(s, 4)
  {
    TryWithPrefixSpec(s, 4);
    TryWithPrefixSpec(s, 5);
  }

  /**
   * When the PS741 exception fires for the length-4 try, the length-5 try
   * finds the same candidate through the catalog (only the rank-6 shape
   * fits after `PS741`), the scores tie and the length-5 candidate is
   * chosen: the exception never changes the segmentation.
   */
  lemma Ps741SameAsCatalog(s: string)
    requires Ps741Fires(s, 4)
    ensures TryWithPrefix(s, 5) == TryWithPrefix(s, 4)
    ensures Choose(TryWithPrefix(s, 4), TryWithPrefix(s, 5)) == TryWithPrefix(s, 5)
  {
    var t := s[5..];
    assert t[0] == s[5] && t[1] == s[6];
    forall j | 0 <= j < |Catalog| && j != 3 ensures !MatchesPrefix(Catalog[j].shape, t) {
      assert !Fits(t[0], Letter) && !Fits(t[1], Digit);
    }
    assert MatchesPrefix(Catalog[3].shape, t) by {
      assert t[2] == s[7] && t[3] == s[8] && t[4] == s[9];
    }
    assert !Ps741Fires(s, 5);
    LoneMatchIsTaken(s, 5, 3);
    assert t[..5] == s[5..10] && t[5..] == s[10..];
  }

  /**
   * What the line promises for a present cell: it is at least 16 wide,
   * starts with the front code and ends with the suffix exactly, and the
   * three fields spell the normalised identifier. A NaN cell gives "".
   */
  lemma FormatLineSpec(raw: Option<string>)
    ensures raw.None? ==> FormatLine(raw) == ""
    ensures raw.Some? ==>
      var x := Segment(Normalize(raw.value));
      var line := FormatLine(raw);
      && |line| >= FrontWidth + MiddleWidth + |x.suffix|
      && line[..|x.front|] == x.front
      && line[|line| - |x.suffix|..] == x.suffix
      && x.front + x.middle + x.suffix == Normalize(raw.value)
  {
    if raw.Some? {
      SegmentReconstructs(Normalize(raw.value));
    }
  }

  /** An empty cell, or one holding only `M`, gives sixteen blanks rather than "". */
  lemma EmptyGivesBlankLine()
    ensures FormatLine(Some("")) == Blanks(16)
    ensures FormatLine(Some("M")) == Blanks(16)
  {
    assert Normalize("") == "";
    assert Normalize("M") == "";
    assert Segment("") == Fields("", "", "");
  }

  /**
   * An identifier without digits fits no shape anywhere, so it is always
   * split by length.
   */
  lemma DigitFreeUsesFixedSlice(s: string)
    requires forall i :: 0 <= i < |s| ==> !IsDigit(s[i])
    ensures Segment(s) == FixedSlice(s)
  {
    forall L: nat | L <= |s| ensures TryWithPrefix(s, L).None? {
      DigitFreeMatchesNothing(s[L..]);
      TryWithPrefixSpec(s, L);
      assert !Ps741Fires(s, L) by {
        if L < |s| {
          assert s[L..][0] == s[L] && ShiftProbe[0] == Digit;
        }
      }
    }
    forall i | 0 <= i < |s| ensures HitAt(s, i).None? {
      DigitFreeMatchesNothing(s[i..]);
      UnionPicksHighestRank(s[i..]);
      HitAtSpec(s, i);
    }
    NoHitFixedSlice(s);
    if |s| >= 5 {
      assert TryWithPrefix(s, 4).None? && TryWithPrefix(s, 5).None?;
    }
  }

  /** `vd52_format(raw)`: the two tries, the choice, the fallback scan and the packing. */
  method Vd52Format(raw: Option<string>) returns (line: string)
    ensures line == FormatLine(raw)
  {
    if raw.None? {
      return "";
    }
    var s := Normalize(raw.value);

    var cand4 := TryWithPrefixAndPick(s, 4);
    var cand5 := TryWithPrefixAndPick(s, 5);

    var chosen: Option<Candidate>;
    if cand4.Some? && cand5.Some? {
      chosen := if Above(cand4.value.score, cand5.value.score) then cand4 else cand5;
    } else {
      chosen := if cand4.Some? then cand4 else cand5;
    }
    assert chosen == Choose(TryWithPrefix(s, 4), TryWithPrefix(s, 5));

    var on, mid, son;
    if chosen.Some? {
      on, mid, son := chosen.value.front, chosen.value.middle, chosen.value.suffix;
    } else {
      on, mid, son := FallbackFields(s);
    }
    assert Fields(on, mid, son) == Segment(s);
    line := FordPack(on, mid, son, false).value;
  }
}
