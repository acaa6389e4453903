/**
 * Normalisation of a raw material number before segmentation: upper-case
 * it, delete whitespace and the separators `- _ / . ,`, then drop one
 * leading `M`.
 */
module Normalization {
  import opened Chars

  /** The characters the class `[\s\-_/\.,]` deletes. */
  predicate IsSeparator(c: char)
  {
    IsSpace(c) || c == '-' || c == '_' || c == '/' || c == '.' || c == ','
  }

  /**
   * `re.sub(r"[\s\-_/\.,]", "", raw.upper())`. Upper-casing works character
   * by character, so the two passes are taken in one: each character is
   * upper-cased and kept unless it is a separator.
   */
  function Clean(raw: string): (r: string)
    ensures |r| <= |raw|
    ensures forall i :: 0 <= i < |r| ==> !IsSeparator(r[i]) && !IsLower(r[i])
  {
    if raw == [] then []
    else
      var u := ToUpper(raw[0]);
      (if IsSeparator(u) then [] else [u]) + Clean(raw[1..])
  }

  /**
   * The cleaned string is no longer than the input, holds no separator and
   * no lower-case letter, and a string that had neither comes back unchanged.
   */
  lemma {:induction false} CleanSpec(raw: string)
    ensures |Clean(raw)| <= |raw|
    ensures forall i :: 0 <= i < |Clean(raw)| ==> !IsSeparator(Clean(raw)[i]) && !IsLower(Clean(raw)[i])
    ensures (forall i :: 0 <= i < |raw| ==> !IsSeparator(raw[i]) && !IsLower(raw[i])) ==> Clean(raw) == raw
  {
    if raw != [] {
      CleanSpec(raw[1..]);
    }
  }

  /**
   * One character on its own: a separator (after upper-casing) is deleted,
   * and anything else is kept as its upper-case form, so a lower-case
   * letter becomes its own capital.
   */
  lemma CleanChar(c: char)
    ensures Clean([c]) == if IsSeparator(ToUpper(c)) then [] else [ToUpper(c)]
    ensures IsLower(c) ==> Clean([c]) == [(c as int - 'a' as int + 'A' as int) as char]
  {
    assert [c][1..] == [];
  }

  /**
   * Cleaning works piece by piece: the cleaned concatenation is the
   * concatenation of the cleaned pieces, so nothing is reordered and every
   * character is kept or deleted on its own.
   */
  lemma {:induction false} CleanConcat(a: string, b: string)
    ensures Clean(a + b) == Clean(a) + Clean(b)
  {
    if a != [] {
      assert (a + b)[0] == a[0] && (a + b)[1..] == a[1..] + b;
      CleanConcat(a[1..], b);
      var u := ToUpper(a[0]);
      var head: string := if IsSeparator(u) then [] else [u];
      assert Clean(a + b) == head + (Clean(a[1..]) + Clean(b));
      assert Clean(a) == head + Clean(a[1..]);
    } else {
      assert a + b == b;
    }
  }

  /** The normalised identifier: the cleaned string less one leading `M`. */
  function Normalize(raw: string): (r: string)
    ensures Clean(raw) == r || Clean(raw) == "M" + r
    ensures Clean(raw) == "M" + r <==> Clean(raw) != [] && Clean(raw)[0] == 'M'
  {
    var c := Clean(raw);
    if c != [] && c[0] == 'M' then c[1..] else c
  }

  /**
   * The normalised identifier holds no separator and no lower-case letter,
   * and is the cleaned string with at most one leading `M` removed.
   */
  lemma NormalizeSpec(raw: string)
    ensures forall i :: 0 <= i < |Normalize(raw)| ==> !IsSeparator(Normalize(raw)[i]) && !IsLower(Normalize(raw)[i])
    ensures Clean(raw) == Normalize(raw) || Clean(raw) == "M" + Normalize(raw)
    ensures Clean(raw) != [] && Clean(raw)[0] == 'M' ==> Clean(raw) == "M" + Normalize(raw)
  {
    CleanSpec(raw);
  }

  /** Cleaning is idempotent: a cleaned string has nothing left to upper-case or delete. */
  lemma CleanIdempotent(raw: string)
    ensures Clean(Clean(raw)) == Clean(raw)
  {
    CleanSpec(raw);
    CleanSpec(Clean(raw));
  }

  /**
   * Exactly one leading `M` is removed: normalising again changes the
   * result exactly when the first pass left a leading `M` (an input that
   * cleans to `MM...`).
   */
  lemma NormalizeAgainIff(raw: string)
    ensures Normalize(Normalize(raw)) == Normalize(raw) <==> !(Normalize(raw) != [] && Normalize(raw)[0] == 'M')
  {
    var s := Normalize(raw);
    NormalizeSpec(raw);
    CleanSpec(s);
    if s != [] && s[0] == 'M' {
      assert |Normalize(s)| == |s| - 1;
    }
  }

  /** `"MM1"` normalises to `"M1"`, which normalises to `"1"`. */
  lemma DoubleMExample()
    ensures Normalize("MM1") == "M1" && Normalize("M1") == "1"
  {
    assert Clean("MM1") == "MM1";
    assert Clean("M1") == "M1";
  }
}
