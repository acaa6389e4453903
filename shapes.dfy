/**
 * The catalog of middle-code shapes. Every shape is a fixed-length run of
 * character classes, matched against the start of a string; the catalog is
 * ordered by rank, 9 down to 2. The same eight shapes, as one alternation
 * tried in catalog order, form the union used by the rightmost fallback.
 */
module Shapes {
  import opened Wrappers
  import opened Chars

  /** One position of a shape: `\d`, `[A-Z]` or a literal character. */
  datatype CharClass = Digit | Letter | Exactly(c: char)

  predicate Fits(c: char, k: CharClass)
  {
    match k
    case Digit => IsDigit(c)
    case Letter => IsUpper(c)
    case Exactly(x) => c == x
  }

  type Shape = seq<CharClass>

  /** A catalog entry: a shape and its priority (higher is better). */
  datatype Pattern = Pattern(shape: Shape, rank: nat)

  const Catalog: seq<Pattern> := [
    Pattern([Digit, Digit, Exactly('C'), Digit, Digit, Digit], 9),       // 14C022
    Pattern([Letter, Digit, Digit, Digit, Letter, Digit, Digit], 8),     // A405A02
    Pattern([Digit, Digit, Letter, Digit, Digit, Digit], 7),             // 14F680
    Pattern([Digit, Letter, Digit, Digit, Digit], 6),                    // 8C436
    Pattern([Letter, Digit, Digit, Digit, Digit, Digit], 5),             // R17757
    Pattern([Digit, Digit, Digit, Digit, Digit], 4),                     // 17757
    Pattern([Digit, Digit, Digit, Letter, Digit, Digit], 3),             // 405C54
    Pattern([Letter, Digit, Digit, Digit], 2)                            // A405
  ]

  /** The anchored match `re.match(shape, t)` succeeds. */
  predicate MatchesPrefix(shape: Shape, t: string)
  {
    |shape| <= |t| && forall i :: 0 <= i < |shape| ==> Fits(t[i], shape[i])
  }

  /** The catalog is listed by strictly decreasing rank, 9 to 2, and every shape is 4 to 7 long. */
  lemma CatalogOrdered()
    ensures |Catalog| == 8
    ensures forall j :: 0 <= j < |Catalog| ==> Catalog[j].rank == 9 - j
    ensures forall j :: 0 <= j < |Catalog| ==> 4 <= |Catalog[j].shape| <= 7
  {
  }

  /**
   * Index of the first catalog entry at or after `from` whose shape matches
   * the start of `t`: the alternative a regular-expression alternation of
   * the shapes, in catalog order, picks.
   */
  function FirstMatch(t: string, from: nat): (r: Option<nat>)
    requires from <= |Catalog|
    decreases |Catalog| - from
    ensures r.Some? ==> from <= r.value < |Catalog| && MatchesPrefix(Catalog[r.value].shape, t)
    ensures forall j :: from <= j < (if r.Some? then r.value else |Catalog|) ==>
      !MatchesPrefix(Catalog[j].shape, t)
  {
    if from == |Catalog| then None
    else if MatchesPrefix(Catalog[from].shape, t) then Some(from)
    else FirstMatch(t, from + 1)
  }

  /** The shape the fallback union picks at the start of `t`, if any. */
  function UnionAt(t: string): (r: Option<nat>)
    ensures r.Some? ==> r.value < |Catalog| && MatchesPrefix(Catalog[r.value].shape, t)
    ensures forall j :: 0 <= j < (if r.Some? then r.value else |Catalog|) ==> !MatchesPrefix(Catalog[j].shape, t)
  {
    FirstMatch(t, 0)
  }

  /** The union picks entry `k` exactly when `k` matches and no entry listed before it does. */
  lemma UnionIsFirstFit(t: string, k: nat)
    ensures UnionAt(t) == Some(k) <==>
      k < |Catalog| && MatchesPrefix(Catalog[k].shape, t) &&
      forall j :: 0 <= j < k ==> !MatchesPrefix(Catalog[j].shape, t)
  {
  }

  /**
   * The union picks, among the shapes matching at this position, the one
   * of highest rank; as the catalog is laid out, that is also the longest.
   */
  lemma UnionPicksHighestRank(t: string)
    ensures UnionAt(t).None? <==> forall j :: 0 <= j < |Catalog| ==> !MatchesPrefix(Catalog[j].shape, t)
    ensures UnionAt(t).Some? ==> forall j :: 0 <= j < |Catalog| && MatchesPrefix(Catalog[j].shape, t) ==>
      Catalog[j].rank <= Catalog[UnionAt(t).value].rank &&
      |Catalog[j].shape| <= |Catalog[UnionAt(t).value].shape|
  {
    CatalogOrdered();
    if UnionAt(t).Some? {
      var k := UnionAt(t).value;
      forall j | 0 <= j < |Catalog| && MatchesPrefix(Catalog[j].shape, t)
        ensures |Catalog[j].shape| <= |Catalog[k].shape|
      {
        if j > k {
          LongestFirst(t, k, j);
        }
      }
    }
  }

  /** Two catalog shapes that both match at one position: the earlier one is no shorter. */
  lemma LongestFirst(t: string, k: nat, j: nat)
    requires k < j < |Catalog|
    requires MatchesPrefix(Catalog[k].shape, t) && MatchesPrefix(Catalog[j].shape, t)
    ensures |Catalog[j].shape| <= |Catalog[k].shape|
  {
    var a, b := Catalog[k].shape, Catalog[j].shape;
    assert Fits(t[0], a[0]) && Fits(t[0], b[0]);
    assert Fits(t[1], a[1]) && Fits(t[1], b[1]);
    assert Fits(t[2], a[2]) && Fits(t[2], b[2]);
    assert Fits(t[3], a[3]) && Fits(t[3], b[3]);
    if |a| > 4 && |b| > 4 {
      assert Fits(t[4], a[4]) && Fits(t[4], b[4]);
    }
  }

  /** Every shape has a digit in its first two positions, so a string without digits matches none. */
  lemma DigitFreeMatchesNothing(t: string)
    requires forall i :: 0 <= i < |t| ==> !IsDigit(t[i])
    ensures forall j :: 0 <= j < |Catalog| ==> !MatchesPrefix(Catalog[j].shape, t)
  {
    forall j | 0 <= j < |Catalog| ensures !MatchesPrefix(Catalog[j].shape, t) {
      var a := Catalog[j].shape;
      assert |a| >= 2 && (a[0] == Digit || a[1] == Digit);
    }
  }
}
