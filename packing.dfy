/**
 * The fixed-width packer `ford_pack`: the front code is left-justified to
 * seven columns, the middle code to nine, and the suffix is appended as it
 * is. Justification pads but never cuts, so no field is ever truncated.
 */
module Packing {
  import opened Wrappers
  import opened Chars

  const FrontWidth: nat := 7
  const MiddleWidth: nat := 9

  /** The three fields of a segmented identifier. */
  datatype Fields = Fields(front: string, middle: string, suffix: string)

  /** The strict-mode error: a front or middle code wider than its column. */
  datatype PackError = FieldTooWide

  /** `str.ljust(w)`: pads on the right with blanks up to width `w`, never cuts. */
  function LeftJustify(s: string, w: nat): (r: string)
    ensures |r| == Max(|s|, w)
    ensures r[..|s|] == s
    ensures forall i :: |s| <= i < |r| ==> r[i] == ' '
  {
    if |s| < w then s + Blanks(w - |s|) else s
  }

  /**
   * `ford_pack(front, middle, last, strict=strict)`. In strict mode it fails
   * exactly when a field is wider than its column; otherwise the line starts
   * with the front code, carries the middle code at column `Max(|front|, 7)`
   * and ends with the suffix, untouched, and every other column is a blank.
   */
  function FordPack(front: string, middle: string, last: string, strict: bool): (r: Result<string, PackError>)
    ensures r.Failure? <==> strict && (|front| > FrontWidth || |middle| > MiddleWidth)
    ensures r.Success? ==>
      var m := Max(|front|, FrontWidth);
      && |r.value| == m + Max(|middle|, MiddleWidth) + |last|
      && r.value[..|front|] == front
      && r.value[m..m + |middle|] == middle
      && r.value[|r.value| - |last|..] == last
      && (forall i :: |front| <= i < m ==> r.value[i] == ' ')
      && (forall i :: m + |middle| <= i < |r.value| - |last| ==> r.value[i] == ' ')
  {
    if strict && (|front| > FrontWidth || |middle| > MiddleWidth) then
      Failure(FieldTooWide)
    else
      var f := LeftJustify(front, FrontWidth);
      var m := LeftJustify(middle, MiddleWidth);
      assert (f + m + last)[|f|..|f| + |middle|] == m[..|middle|];
      assert (f + m + last)[|f + m|..] == last;
      Success(f + m + last)
  }

  /** The packing used by the pipeline: non-strict, so it never fails. */
  function Pack(x: Fields): (line: string)
    ensures |line| >= FrontWidth + MiddleWidth + |x.suffix|
    ensures line[|line| - |x.suffix|..] == x.suffix
    ensures |x.front| <= FrontWidth && |x.middle| <= MiddleWidth ==>
      |line| == FrontWidth + MiddleWidth + |x.suffix|
  {
    FordPack(x.front, x.middle, x.suffix, false).value
  }

  /**
   * Reads the three fields back from a packed line, by column: the front
   * code from columns 1-7, the middle code from 8-16, the suffix after.
   */
  function Unpack(line: string): (x: Fields)
    requires |line| >= FrontWidth + MiddleWidth
    ensures x.suffix == line[FrontWidth + MiddleWidth..]
  {
    Fields(TrimRight(line[..FrontWidth]), TrimRight(line[FrontWidth..FrontWidth + MiddleWidth]),
           line[FrontWidth + MiddleWidth..])
  }

  /** A field that ends in no whitespace survives left-justification and trimming. */
  predicate NoTrailingSpace(s: string) { s == [] || !IsSpace(s[|s| - 1]) }

  /** The columns of a strict line: each field padded with blanks to its width, then the suffix. */
  lemma StrictColumns(front: string, middle: string, last: string)
    requires FordPack(front, middle, last, true).Success?
    ensures var line := FordPack(front, middle, last, true).value;
      && |line| == FrontWidth + MiddleWidth + |last|
      && line[..FrontWidth] == front + Blanks(FrontWidth - |front|)
      && line[FrontWidth..FrontWidth + MiddleWidth] == middle + Blanks(MiddleWidth - |middle|)
      && line[FrontWidth + MiddleWidth..] == last
  {
    var f := LeftJustify(front, FrontWidth);
    var m := LeftJustify(middle, MiddleWidth);
    assert f == front + Blanks(FrontWidth - |front|);
    assert m == middle + Blanks(MiddleWidth - |middle|);
    var line := FordPack(front, middle, last, true).value;
    assert line == f + m + last;
    assert line[..FrontWidth] == f;
    assert line[FrontWidth..FrontWidth + MiddleWidth] == m;
    assert line[FrontWidth + MiddleWidth..] == last;
  }

  /**
   * Strict packing and column reading are inverse: whenever strict mode
   * accepts the fields, the line reads back to the same three fields.
   */
  lemma UnpackPack(front: string, middle: string, last: string)
    requires NoTrailingSpace(front) && NoTrailingSpace(middle)
    requires FordPack(front, middle, last, true).Success?
    ensures Unpack(FordPack(front, middle, last, true).value) == Fields(front, middle, last)
  {
    StrictColumns(front, middle, last);
    TrimRightBlanks(front, FrontWidth - |front|);
    TrimRightBlanks(middle, MiddleWidth - |middle|);
  }
}
