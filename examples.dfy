/**
 * Worked segmentations of concrete identifiers, each following from the
 * general lemmas about the tries, the choice and the fallback.
 */
module Examples {
  import opened Wrappers
  import opened Shapes
  import opened Packing
  import opened Search
  import opened Fallback
  import opened Segmenter

  /** With a four-character front, `14C022083` leaves `22083`, which only the five-digit shape fits. */
  lemma FourCharacterFrontOf14C022083(s: string)
    requires s == "14C022083"
    ensures TryWithPrefix(s, 4).Some?
    ensures FieldsOf(TryWithPrefix(s, 4).value) == Fields("14C0", "22083", "")
  {
    var t := s[4..];
    assert t[0] == '2' && t[1] == '2' && t[2] == '0' && t[3] == '8' && t[4] == '3';
    assert !Ps741Fires(s, 4) by { assert s[0] == '1'; }
    LoneMatchIsTaken(s, 4, 5);
  }

  /** With a five-character front, `14C022083` leaves `2083`, which no shape fits. */
  lemma FiveCharacterFrontOf14C022083(s: string)
    requires s == "14C022083"
    ensures TryWithPrefix(s, 5).None?
  {
    var t := s[5..];
    assert t[0] == '2' && t[1] == '0' && t[2] == '8' && t[3] == '3';
    NoMatchNoCandidate(s, 5);
  }

  /**
   * `14C022083` is split `14C0` | `22083` | "": only the length-4 try
   * succeeds. The rank-9 `14C022` at position 0 is never considered, since
   * the middle is only looked for after the front.
   */
  lemma DigitsAfterFourCharacterFront(s: string)
    requires s == "14C022083"
    ensures Segment(s) == Fields("14C0", "22083", "")
  {
    FourCharacterFrontOf14C022083(s);
    FiveCharacterFrontOf14C022083(s);
  }

  /** With a four-character front, PS7418C436XYZ triggers the exception: front `PS741`, middle `8C436`. */
  lemma FourCharacterFrontOfPs741(s: string)
    requires s == "PS7418C436XYZ"
    ensures TryWithPrefix(s, 4) == Some(Candidate("PS741", "8C436", "XYZ", Score(0, 6, 5, 0)))
  {
    var t, u := s[4..], s[5..];
    assert s[..5] == "PS741";
    assert t[0] == '1' && t[1] == '8' && t[2] == 'C' && t[3] == '4' && t[4] == '3' && t[5] == '6';
    assert u[0] == '8' && u[1] == 'C' && u[2] == '4' && u[3] == '3' && u[4] == '6';
    assert Ps741Fires(s, 4);
    assert s[10..] == "XYZ" && s[5..10] == "8C436";
  }

  /** With a five-character front, PS7418C436XYZ leaves `8C436XYZ`, where only the rank-6 shape fits. */
  lemma FiveCharacterFrontOfPs741(s: string)
    requires s == "PS7418C436XYZ"
    ensures TryWithPrefix(s, 5) == Some(Candidate("PS741", "8C436", "XYZ", Score(0, 6, 5, 0)))
  {
    var u := s[5..];
    assert u[0] == '8' && u[1] == 'C' && u[2] == '4' && u[3] == '3' && u[4] == '6' && u[5] == 'X';
    LoneMatchIsTaken(s, 5, 3);
    assert s[..5] == "PS741" && u[..5] == "8C436" && u[5..] == "XYZ";
  }

  /**
   * PS7418C436XYZ is split `PS741` | `8C436` | `XYZ`. Both tries give the
   * same score, the exception's because it is scored as a length-5 front,
   * and the tie goes to the length-5 try.
   */
  lemma Ps741Split(s: string)
    requires s == "PS7418C436XYZ"
    ensures && TryWithPrefix(s, 4).Some? && TryWithPrefix(s, 5).Some?
            && TryWithPrefix(s, 4).value.score == TryWithPrefix(s, 5).value.score
            && Segment(s) == FieldsOf(TryWithPrefix(s, 5).value)
    ensures Segment(s) == Fields("PS741", "8C436", "XYZ")
  {
    FourCharacterFrontOfPs741(s);
    FiveCharacterFrontOfPs741(s);
  }

  /** After the front `ABCD`, only the rank-8 and the rank-2 shapes fit `A405A021`. */
  lemma PenaltyCaseFits(s: string)
    requires s == "ABCDA405A021"
    ensures !Ps741Fires(s, 4)
    ensures MatchesPrefix(Catalog[1].shape, s[4..]) && MatchesPrefix(Catalog[7].shape, s[4..])
    ensures forall k :: 0 <= k < |Catalog| && k != 1 && k != 7 ==> !MatchesPrefix(Catalog[k].shape, s[4..])
  {
    var t := s[4..];
    assert t[0] == 'A' && t[1] == '4' && t[2] == '0' && t[3] == '5' && t[4] == 'A' && t[5] == '0' && t[6] == '2' && t[7] == '1';
    assert s[0] == 'A';
  }

  /**
   * With a four-character front, ABCDA405A021 leaves `A405A021`: the rank-8
   * `A405A02` would leave the suffix `1`, which starts with a digit, so the
   * rank-2 `A405` with the suffix `A021` scores higher.
   */
  lemma FourCharacterFrontOfPenaltyCase(s: string)
    requires s == "ABCDA405A021"
    ensures TryWithPrefix(s, 4) == Some(Candidate("ABCD", "A405", "A021", Score(0, 2, 4, 1)))
  {
    PenaltyCaseFits(s);
    TwoMatchesBestTaken(s, 4, 1, 7);
    var t := s[4..];
    assert t[7..] == "1" && t[4..] == "A021" && t[..4] == "A405" && s[..4] == "ABCD";
    assert CandidateFor(s, 4, Catalog[1]).value.score == Score(-3, 8, 7, 1);
  }

  /** With a five-character front, ABCDA405A021 leaves `405A021`, where only the rank-3 shape fits. */
  lemma FiveCharacterFrontOfPenaltyCase(s: string)
    requires s == "ABCDA405A021"
    ensures TryWithPrefix(s, 5).Some? && TryWithPrefix(s, 5).value.score == Score(-3, 3, 6, 0)
  {
    var t := s[5..];
    assert t[0] == '4' && t[1] == '0' && t[2] == '5' && t[3] == 'A' && t[4] == '0' && t[5] == '2' && t[6] == '1';
    LoneMatchIsTaken(s, 5, 6);
  }

  /**
   * ABCDA405A021 is split `ABCD` | `A405` | `A021`: the suffix penalty
   * outweighs the rank, both inside the length-4 try and between the tries.
   */
  lemma PenaltyOutweighsRank(s: string)
    requires s == "ABCDA405A021"
    ensures Segment(s) == Fields("ABCD", "A405", "A021")
  {
    FourCharacterFrontOfPenaltyCase(s);
    FiveCharacterFrontOfPenaltyCase(s);
  }

  /** After the front `ABCD`, only the rank-9 and the rank-7 shapes fit `14C022XYZ`. */
  lemma RankCaseFits(s: string)
    requires s == "ABCD14C022XYZ"
    ensures !Ps741Fires(s, 4)
    ensures MatchesPrefix(Catalog[0].shape, s[4..]) && MatchesPrefix(Catalog[2].shape, s[4..])
    ensures forall k :: 0 <= k < |Catalog| && k != 0 && k != 2 ==> !MatchesPrefix(Catalog[k].shape, s[4..])
  {
    var t := s[4..];
    assert t[0] == '1' && t[1] == '4' && t[2] == 'C' && t[3] == '0' && t[4] == '2' && t[5] == '2' && t[6] == 'X';
    assert s[0] == 'A';
  }

  /** With a four-character front, ABCD14C022XYZ yields the rank-9 `14C022`, not the rank-7 reading of the same text. */
  lemma FourCharacterFrontOfRankCase(s: string)
    requires s == "ABCD14C022XYZ"
    ensures TryWithPrefix(s, 4) == Some(Candidate("ABCD", "14C022", "XYZ", Score(0, 9, 6, 1)))
  {
    RankCaseFits(s);
    TwoMatchesBestTaken(s, 4, 0, 2);
    var t := s[4..];
    assert t[..6] == "14C022" && t[6..] == "XYZ" && s[..4] == "ABCD";
    assert CandidateFor(s, 4, Catalog[2]).value.score == Score(0, 7, 6, 1);
  }

  /** With a five-character front, ABCD14C022XYZ leaves `4C022XYZ`, which only the rank-6 shape fits. */
  lemma FiveCharacterFrontOfRankCase(s: string)
    requires s == "ABCD14C022XYZ"
    ensures TryWithPrefix(s, 5).Some? && TryWithPrefix(s, 5).value.score == Score(0, 6, 5, 0)
  {
    var t := s[5..];
    assert t[0] == '4' && t[1] == 'C' && t[2] == '0' && t[3] == '2' && t[4] == '2' && t[5] == 'X';
    LoneMatchIsTaken(s, 5, 3);
  }

  /** ABCD14C022XYZ is split `ABCD` | `14C022` | `XYZ`: at equal penalty the higher rank wins. */
  lemma HigherRankWins(s: string)
    requires s == "ABCD14C022XYZ"
    ensures Segment(s) == Fields("ABCD", "14C022", "XYZ")
  {
    FourCharacterFrontOfRankCase(s);
    FiveCharacterFrontOfRankCase(s);
  }

  /** Fewer than four characters from `i` on: no shape fits there, so there is no hit. */
  lemma ShortTailHasNoHit(s: string, i: nat)
    requires i <= |s| && |s| - i < 4
    ensures HitAt(s, i).None?
  {
    CatalogOrdered();
    UnionPicksHighestRank(s[i..]);
  }

  /** Neither try finds a middle in 12C345XXB567: `45XXB567` fits no shape. */
  lemma FourCharacterFrontOfFallbackCase(s: string)
    requires s == "12C345XXB567"
    ensures TryWithPrefix(s, 4).None?
  {
    var t := s[4..];
    assert t[0] == '4' && t[1] == '5' && t[2] == 'X' && t[3] == 'X';
    assert s[0] == '1';
    NoMatchNoCandidate(s, 4);
  }

  /** Nor does `5XXB567`, left by a five-character front. */
  lemma FiveCharacterFrontOfFallbackCase(s: string)
    requires s == "12C345XXB567"
    ensures TryWithPrefix(s, 5).None?
  {
    var t := s[5..];
    assert t[0] == '5' && t[1] == 'X' && t[2] == 'X';
    NoMatchNoCandidate(s, 5);
  }

  /** The union matches the rank-9 `12C345` at the start of 12C345XXB567. */
  lemma FallbackCaseFirstHit(s: string)
    requires s == "12C345XXB567"
    ensures HitAt(s, 0) == Some(Hit(0, "12C345"))
  {
    var t := s[0..];
    assert t[0] == '1' && t[1] == '2' && t[2] == 'C' && t[3] == '3' && t[4] == '4' && t[5] == '5';
    HitIsFirstFit(s, 0, 0);
    assert |Catalog[0].shape| == 6;
    assert s[0..6] == "12C345";
  }

  /** The union matches the rank-2 `B567` at position 8 of 12C345XXB567, and nowhere after. */
  lemma FallbackCaseLastHit(s: string)
    requires s == "12C345XXB567"
    ensures HitAt(s, 8) == Some(Hit(8, "B567"))
    ensures forall i :: 8 < i < |s| ==> HitAt(s, i).None?
  {
    var u := s[8..];
    assert u[0] == 'B' && u[1] == '5' && u[2] == '6' && u[3] == '7' && |u| == 4;
    assert forall j :: 0 <= j < 7 ==> |u| < |Catalog[j].shape|;
    HitIsFirstFit(s, 8, 7);
    assert |Catalog[7].shape| == 4;
    assert s[8..12] == "B567";
    forall i | 8 < i < |s| ensures HitAt(s, i).None? {
      ShortTailHasNoHit(s, i);
    }
  }

  /** The fallback split of 12C345XXB567 is around the last hit, `B567`. */
  lemma FallbackCaseSplit(s: string)
    requires s == "12C345XXB567"
    ensures FallbackSplit(s) == Fields("12C345XX", "B567", "")
  {
    FallbackCaseLastHit(s);
    LastHitSplits(s, 8);
    assert s[..8] == "12C345XX" && s[12..] == "";
  }

  /**
   * 12C345XXB567 fits no catalog search, so the fallback splits it
   * `12C345XX` | `B567` | "": the rightmost union match is used, not the
   * first one, even though that one has the highest rank.
   */
  lemma RightmostUnionMatchWins(s: string)
    requires s == "12C345XXB567"
    ensures HitAt(s, 0).Some?
    ensures Segment(s) == Fields("12C345XX", "B567", "")
  {
    FourCharacterFrontOfFallbackCase(s);
    FiveCharacterFrontOfFallbackCase(s);
    FallbackCaseFirstHit(s);
    SegmentReconstructs(s);
    FallbackCaseSplit(s);
  }
}
