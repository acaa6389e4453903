/**
 * The catalog search for one assumed front length: `_score_candidate`,
 * the generic best-of-catalog pick, the PS741 exception and
 * `_try_with_prefix_and_pick`.
 */
module Search {
  import opened Wrappers
  import opened Chars
  import opened Shapes

  /** The score tuple `(-penalty, rank, |middle|, front-was-4)`, compared lexicographically. */
  datatype Score = Score(negPenalty: int, rank: int, midLen: int, shortFront: int)

  /** The score as the tuple the source builds. */
  function Tuple(a: Score): seq<int>
  {
    [a.negPenalty, a.rank, a.midLen, a.shortFront]
  }

  /**
   * Python's `>` on tuples of integers: the first position where they
   * differ decides, and a tuple is above every proper prefix of itself.
   */
  predicate TupleAbove(x: seq<int>, y: seq<int>)
  {
    if x == [] then false
    else if y == [] then true
    else x[0] > y[0] || (x[0] == y[0] && TupleAbove(x[1..], y[1..]))
  }

  /** Python's `a > b` on the score tuples. */
  predicate Above(a: Score, b: Score)
  {
    || a.negPenalty > b.negPenalty
    || (a.negPenalty == b.negPenalty && a.rank > b.rank)
    || (a.negPenalty == b.negPenalty && a.rank == b.rank && a.midLen > b.midLen)
    || (a.negPenalty == b.negPenalty && a.rank == b.rank && a.midLen == b.midLen && a.shortFront > b.shortFront)
  }

  /** `Above` is Python's comparison of the two score tuples. */
  lemma AboveIsTupleOrder(a: Score, b: Score)
    ensures Above(a, b) <==> TupleAbove(Tuple(a), Tuple(b))
  {
    var x3, y3 := [a.shortFront], [b.shortFront];
    var x2, y2 := [a.midLen] + x3, [b.midLen] + y3;
    var x1, y1 := [a.rank] + x2, [b.rank] + y2;
    assert x3[1..] == [] && y3[1..] == [] && x2[1..] == x3 && y2[1..] == y3 && x1[1..] == x2 && y1[1..] == y2;
    assert TupleAbove(x3, y3) == (a.shortFront > b.shortFront);
    assert TupleAbove(x2, y2) == (a.midLen > b.midLen || (a.midLen == b.midLen && TupleAbove(x3, y3)));
    assert TupleAbove(x1, y1) == (a.rank > b.rank || (a.rank == b.rank && TupleAbove(x2, y2)));
    assert Tuple(a) == [a.negPenalty] + x1 && Tuple(b) == [b.negPenalty] + y1;
  }

  /** `Above` is a strict total order on scores. */
  lemma AboveStrictTotal(a: Score, b: Score, c: Score)
    ensures !Above(a, a)
    ensures Above(a, b) ==> !Above(b, a)
    ensures Above(a, b) && Above(b, c) ==> Above(a, c)
    ensures a != b ==> Above(a, b) || Above(b, a)
  {
  }

  /**
   * `_score_candidate`: the suffix costs 3 when it starts with a digit and
   * 2 more when that digit is followed by a capital; the last component
   * favours a front of length 4.
   */
  function ScoreCandidate(rank: nat, son: string, mid: string, prefixLen: nat): (sc: Score)
    ensures sc.negPenalty == 0 <==> (son == [] || !IsDigit(son[0]))
    ensures sc.negPenalty == -5 <==> (|son| >= 2 && IsDigit(son[0]) && IsUpper(son[1]))
    ensures sc.negPenalty in {0, -3, -5}
    ensures sc.rank == rank && sc.midLen == |mid|
    ensures sc.shortFront == 1 <==> prefixLen == 4
    ensures sc.shortFront in {0, 1}
  {
    var p1 := if |son| >= 1 && IsDigit(son[0]) then 3 else 0;
    var p2 := if |son| >= 2 && IsDigit(son[0]) && IsUpper(son[1]) then 2 else 0;
    Score(-(p1 + p2), rank, |mid|, if prefixLen == 4 then 1 else 0)
  }

  /** A way of reading `s` as front code, middle code and suffix, with its score. */
  datatype Candidate = Candidate(front: string, middle: string, suffix: string, score: Score)

  /** The candidate catalog entry `p` yields when the front is `s[..L]`. */
  function CandidateFor(s: string, L: nat, p: Pattern): (r: Option<Candidate>)
    requires L <= |s|
    ensures r.Some? <==> MatchesPrefix(p.shape, s[L..])
    ensures r.Some? ==> && r.value.front == s[..L]
                        && |r.value.middle| == |p.shape|
                        && r.value.front + r.value.middle + r.value.suffix == s
                        && r.value.score == ScoreCandidate(p.rank, r.value.suffix, r.value.middle, L)
  {
    var rest := s[L..];
    if MatchesPrefix(p.shape, rest) then
      var w := |p.shape|;
      assert s[..L] + rest[..w] + rest[w..] == s;
      Some(Candidate(s[..L], rest[..w], rest[w..], ScoreCandidate(p.rank, rest[w..], rest[..w], L)))
    else None
  }

  /** The candidates the catalog entries yield, in catalog order. */
  function Options(s: string, L: nat): (cs: seq<Option<Candidate>>)
    requires L <= |s|
    ensures |cs| == |Catalog|
    ensures forall j :: 0 <= j < |Catalog| ==> cs[j] == CandidateFor(s, L, Catalog[j])
  {
    seq(|Catalog|, j requires 0 <= j < |Catalog| => CandidateFor(s, L, Catalog[j]))
  }

  /** One step of the loop: a candidate replaces `best` only when its score is strictly above. */
  function Keep(best: Option<Candidate>, next: Option<Candidate>): Option<Candidate>
  {
    match next
    case None => best
    case Some(c) => if best.None? || Above(c.score, best.value.score) then next else best
  }

  /** The `best` the loop over the catalog holds after visiting `cs`. */
  function Pick(cs: seq<Option<Candidate>>): Option<Candidate>
  {
    if cs == [] then None else Keep(Pick(cs[..|cs| - 1]), cs[|cs| - 1])
  }

  /** Visiting one more entry is one more step. */
  lemma PickPrefixStep(cs: seq<Option<Candidate>>, i: nat)
    requires i < |cs|
    ensures Pick(cs[..i + 1]) == Keep(Pick(cs[..i]), cs[i])
  {
    assert cs[..i + 1][..i] == cs[..i];
  }

  /** No entry of `cs` yields a candidate. */
  predicate NoneMatch(cs: seq<Option<Candidate>>)
  {
    forall j :: 0 <= j < |cs| ==> cs[j].None?
  }

  /** `cs[j]` is a candidate that none in `cs` beats and that beats all before it. */
  predicate FirstMaximum(cs: seq<Option<Candidate>>, j: nat)
  {
    && j < |cs| && cs[j].Some?
    && (forall i :: 0 <= i < |cs| && cs[i].Some? ==> !Above(cs[i].value.score, cs[j].value.score))
    && (forall i :: 0 <= i < j && cs[i].Some? ==> Above(cs[j].value.score, cs[i].value.score))
  }

  /** A last entry scoring strictly above the earlier first maximum becomes the first maximum. */
  lemma NewMaximum(cs: seq<Option<Candidate>>, j: nat)
    requires |cs| > 0 && FirstMaximum(cs[..|cs| - 1], j)
    requires cs[|cs| - 1].Some? && Above(cs[|cs| - 1].value.score, cs[j].value.score)
    ensures FirstMaximum(cs, |cs| - 1)
  {
    var n, c, m := |cs| - 1, cs[|cs| - 1].value, cs[j].value;
    assert forall i :: 0 <= i < n ==> cs[i] == cs[..n][i];
    forall i | 0 <= i < n && cs[i].Some?
      ensures Above(c.score, cs[i].value.score)
    {
      AboveStrictTotal(c.score, m.score, cs[i].value.score);
      if cs[i].value.score != m.score {
        AboveStrictTotal(m.score, cs[i].value.score, m.score);
      }
    }
    forall i | 0 <= i < |cs| && cs[i].Some?
      ensures !Above(cs[i].value.score, c.score)
    {
      AboveStrictTotal(c.score, cs[i].value.score, c.score);
    }
  }

  /** A last entry not scoring strictly above the earlier first maximum leaves it in place. */
  lemma OldMaximumStays(cs: seq<Option<Candidate>>, j: nat)
    requires |cs| > 0 && FirstMaximum(cs[..|cs| - 1], j)
    requires cs[|cs| - 1].Some? ==> !Above(cs[|cs| - 1].value.score, cs[j].value.score)
    ensures FirstMaximum(cs, j)
  {
    assert forall i :: 0 <= i < |cs| - 1 ==> cs[i] == cs[..|cs| - 1][i];
  }

  /** The first entry that yields a candidate is the first maximum so far. */
  lemma FirstCandidate(cs: seq<Option<Candidate>>)
    requires |cs| > 0 && NoneMatch(cs[..|cs| - 1]) && cs[|cs| - 1].Some?
    ensures FirstMaximum(cs, |cs| - 1)
  {
    var n := |cs| - 1;
    assert forall i :: 0 <= i < n ==> cs[i] == cs[..n][i];
    AboveStrictTotal(cs[n].value.score, cs[n].value.score, cs[n].value.score);
  }

  /**
   * The loop's result, characterised without the loop: nothing when no entry
   * yields a candidate, otherwise the first candidate of maximal score.
   */
  lemma {:induction false} PickIsFirstMaximum(cs: seq<Option<Candidate>>)
    ensures Pick(cs).None? <==> NoneMatch(cs)
    ensures Pick(cs).Some? ==> exists j: nat :: FirstMaximum(cs, j) && cs[j] == Pick(cs)
  {
    if cs != [] {
      var n := |cs| - 1;
      var front := cs[..n];
      PickIsFirstMaximum(front);
      var prev := Pick(front);
      assert forall i :: 0 <= i < n ==> cs[i] == front[i];
      if prev.None? {
        if cs[n].Some? {
          FirstCandidate(cs);
        }
      } else {
        var j: nat :| FirstMaximum(front, j) && front[j] == prev;
        if cs[n].Some? && Above(cs[n].value.score, prev.value.score) {
          NewMaximum(cs, j);
        } else {
          OldMaximumStays(cs, j);
        }
      }
    }
  }

  /** `^(\d{2})([A-Z]\d{3})`: the shape that must follow the first four characters for PS741. */
  const ShiftProbe: Shape := [Digit, Digit, Letter, Digit, Digit, Digit]

  /** `^\d[A-Z]\d{3}`: the rank-6 middle taken after the five-character front. */
  const ShiftedMiddle: Shape := [Digit, Letter, Digit, Digit, Digit]

  /**
   * The PS741 exception fires: front length 4 is being tried, the string
   * starts with PS741, the four characters are followed by two digits and a
   * `C` with three digits, and a rank-6 middle starts at position 5.
   */
  predicate Ps741Fires(s: string, L: nat)
  {
    && L == 4 && |s| >= 5 && s[..5] == "PS741"
    && MatchesPrefix(ShiftProbe, s[L..]) && s[L..][2] == 'C'
    && MatchesPrefix(ShiftedMiddle, s[5..])
  }

  /**
   * The exception's regular expressions, read off character by character:
   * it fires for front length 4 exactly when the string is at least ten
   * long and reads `PS741`, a digit, `C` and three digits.
   */
  lemma Ps741FiresIff(s: string, L: nat)
    ensures Ps741Fires(s, L) <==>
      && L == 4 && |s| >= 10 && s[..5] == "PS741"
      && IsDigit(s[5]) && s[6] == 'C' && IsDigit(s[7]) && IsDigit(s[8]) && IsDigit(s[9])
  {
  }

  /** The candidate the exception returns: front `s[..5]`, a rank-6 middle, scored with prefix length 5. */
  function Ps741Candidate(s: string): (c: Candidate)
    requires Ps741Fires(s, 4)
    ensures c.front == s[..5] && |c.middle| == 5 && c.front + c.middle + c.suffix == s
    ensures c.score == ScoreCandidate(6, c.suffix, c.middle, 5)
    ensures c.score.rank == 6 && c.score.shortFront == 0
  {
    assert s[..5] + s[5..10] + s[10..] == s;
    Candidate(s[..5], s[5..10], s[10..], ScoreCandidate(6, s[10..], s[5..10], 5))
  }

  /**
   * The probe that follows PS741 already guarantees the rank-6 match at
   * position 5, so the last test of the exception never fails.
   */
  lemma Ps741InnerMatchImplied(s: string)
    requires |s| >= 5 && s[..5] == "PS741"
    requires MatchesPrefix(ShiftProbe, s[4..]) && s[4..][2] == 'C'
    ensures Ps741Fires(s, 4)
  {
    assert forall i :: 0 <= i < 5 ==> s[5..][i] == s[4..][i + 1];
  }

  /** `_try_with_prefix_and_pick(s, L)`, as a function of its inputs. */
  function TryWithPrefix(s: string, L: nat): (r: Option<Candidate>)
    ensures r.Some? ==> r.value.front + r.value.middle + r.value.suffix == s && 4 <= |r.value.middle| <= 7
  {
    if |s| < L then None
    else if Ps741Fires(s, L) then Some(Ps741Candidate(s))
    else
      var cs := Options(s, L);
      CatalogOrdered();
      PickIsFirstMaximum(cs);
      Pick(cs)
  }

  /**
   * What `_try_with_prefix_and_pick` promises: no candidate exactly when
   * the string is too short or neither the exception nor any catalog entry
   * applies; otherwise a split of `s` whose middle is 4 to 7 long and, when
   * the exception does not fire, whose front is `s[..L]` and whose score is
   * the first maximum among all catalog matches.
   */
  lemma TryWithPrefixSpec(s: string, L: nat)
    ensures TryWithPrefix(s, L).None? <==>
      |s| < L || (!Ps741Fires(s, L) && forall j :: 0 <= j < |Catalog| ==> !MatchesPrefix(Catalog[j].shape, s[L..]))
    ensures TryWithPrefix(s, L).Some? ==>
      var c := TryWithPrefix(s, L).value;
      && c.front + c.middle + c.suffix == s
      && 4 <= |c.middle| <= 7
    ensures TryWithPrefix(s, L).Some? && Ps741Fires(s, L) ==>
      TryWithPrefix(s, L).value == Ps741Candidate(s)
    ensures TryWithPrefix(s, L).Some? && !Ps741Fires(s, L) ==>
      var c := TryWithPrefix(s, L).value;
      && c.front == s[..L]
      && c.score.shortFront == (if L == 4 then 1 else 0)
      && exists j: nat :: FirstMaximum(Options(s, L), j) && Options(s, L)[j] == Some(c)
  {
    CatalogOrdered();
    if |s| >= L && !Ps741Fires(s, L) {
      var cs := Options(s, L);
      PickIsFirstMaximum(cs);
      if Pick(cs).Some? {
        var j: nat :| FirstMaximum(cs, j) && cs[j] == Pick(cs);
        assert CandidateFor(s, L, Catalog[j]) == Pick(cs);
      }
    }
  }

  /**
   * When exactly two catalog entries match after the front, the try returns
   * the later one only if it scores strictly higher; on a tie the earlier stays.
   */
  lemma TwoMatchesBestTaken(s: string, L: nat, i: nat, j: nat)
    requires L <= |s| && !Ps741Fires(s, L) && i < j < |Catalog|
    requires MatchesPrefix(Catalog[i].shape, s[L..]) && MatchesPrefix(Catalog[j].shape, s[L..])
    requires forall k :: 0 <= k < |Catalog| && k != i && k != j ==> !MatchesPrefix(Catalog[k].shape, s[L..])
    ensures var ci, cj := CandidateFor(s, L, Catalog[i]), CandidateFor(s, L, Catalog[j]);
      TryWithPrefix(s, L) == if Above(cj.value.score, ci.value.score) then cj else ci
  {
    var cs := Options(s, L);
    PickIsFirstMaximum(cs);
    var m: nat :| FirstMaximum(cs, m) && cs[m] == Pick(cs);
    assert m == i || m == j;
    AboveStrictTotal(cs[i].value.score, cs[j].value.score, cs[i].value.score);
  }

  /** When exactly one catalog entry matches after the front, the try returns its candidate. */
  lemma LoneMatchIsTaken(s: string, L: nat, j: nat)
    requires L <= |s| && !Ps741Fires(s, L) && j < |Catalog|
    requires MatchesPrefix(Catalog[j].shape, s[L..])
    requires forall i :: 0 <= i < |Catalog| && i != j ==> !MatchesPrefix(Catalog[i].shape, s[L..])
    ensures TryWithPrefix(s, L) == CandidateFor(s, L, Catalog[j])
  {
    TryWithPrefixSpec(s, L);
  }

  /** When no catalog entry matches after the front and the exception does not fire, the try fails. */
  lemma NoMatchNoCandidate(s: string, L: nat)
    requires L <= |s| && !Ps741Fires(s, L)
    requires forall i :: 0 <= i < |Catalog| ==> !MatchesPrefix(Catalog[i].shape, s[L..])
    ensures TryWithPrefix(s, L).None?
  {
    TryWithPrefixSpec(s, L);
  }

  /** `_try_with_prefix_and_pick(s, L)`: the exception first, then the loop over the catalog. */
  method TryWithPrefixAndPick(s: string, L: nat) returns (r: Option<Candidate>)
    ensures r == TryWithPrefix(s, L)
  {
    if |s| < L {
      return None;
    }
    var on := s[..L];
    var rest := s[L..];

    if L == 4 && |s| >= 5 && s[..5] == "PS741" {
      if MatchesPrefix(ShiftProbe, rest) && rest[2] == 'C' && |s| >= 5 {
        var rest5 := s[5..];
        if MatchesPrefix(ShiftedMiddle, rest5) {
          var mid := rest5[..|ShiftedMiddle|];
          var son := rest5[|ShiftedMiddle|..];
          var sc := ScoreCandidate(6, son, mid, 5);
          assert Ps741Fires(s, L) && mid == s[5..10] && son == s[10..];
          return Some(Candidate(s[..5], mid, son, sc));
        }
      }
    }

    ghost var cs := Options(s, L);
    var best: Option<Candidate> := None;
    var i := 0;
    while i < |Catalog|
      invariant 0 <= i <= |Catalog|
      invariant best == Pick(cs[..i])
    {
      PickPrefixStep(cs, i);
      var pat := Catalog[i];
      if MatchesPrefix(pat.shape, rest) {
        var mid := rest[..|pat.shape|];
        var son := rest[|pat.shape|..];
        var sc := ScoreCandidate(pat.rank, son, mid, L);
        assert cs[i] == Some(Candidate(on, mid, son, sc));
        if best.None? || Above(sc, best.value.score) {
          best := Some(Candidate(on, mid, son, sc));
        }
      } else {
        assert cs[i].None?;
      }
      i := i + 1;
    }
    assert cs[..|Catalog|] == cs;
    return best;
  }
}
