# VD52 formatting and comparison, modelled in Dafny

The system is a small web tool for Ford material numbers. It reads a
spreadsheet column of raw part identifiers and writes each one in the
fixed-column VD52 layout: a front code padded to 7 columns, a middle code
padded to 9, then the suffix as it is. A second page compares the VD52
columns of two spreadsheets row by row.

This project models the part of the tool that computes.

- **Packing.** `ford_pack` puts the three fields into one line, with or
  without the strict width check.
- **Normalisation.** The raw value is upper-cased, separators are deleted
  and one leading `M` is dropped.
- **Segmentation.** The identifier is split into front, middle and suffix
  in several steps:
  - a front of 4 and then of 5 characters is tried;
  - after each front, the catalog of eight middle-code shapes is searched
    and every match is scored;
  - the PS741 exception is applied;
  - of the two tries, the length-4 candidate is kept only if it scores
    strictly higher;
  - when neither try succeeds, a fallback splits around the rightmost
    match of the union of all shapes, and without any match it splits by
    length.
- **Row diff.** The comparison trims each cell, lists every common row
  whose values differ, and lists every row that only the longer column has
  against the marker `<YOK>`.

Loops in the source are methods proved equal to specification functions:
- the scoring loop: `Search.TryWithPrefixAndPick`;
- the `finditer` scan: `Fallback.LastUnionMatch`;
- `vd52_format`: `Segmenter.Vd52Format`;
- the three diff loops: `RowDiff.DiffColumns`.

Those functions are then characterised independently:
- the first strict maximum of the scores;
- the rightmost hit;
- the reference list of listed rows.

Some consequences of the code that the proofs make explicit:
- Normalisation is not idempotent. `MM1` normalises to `M1`, and `M1` to
  `1`, because only one leading `M` is removed
  (`Normalization.NormalizeAgainIff`, `Normalization.DoubleMExample`).
- `ljust` pads but never truncates. An overlong front or middle in
  non-strict mode widens the line and shifts the later fields
  (`Packing.FordPack`).
- `14C022083` is split `14C0` / `22083` / "". The length-4 front is tried
  first and `22083` fits the rank-4 shape, so the rank-9 `14C022` at
  position 0 is never looked at (`Examples.DigitsAfterFourCharacterFront`).
- The PS741 exception never changes a result. Whenever it fires, the
  length-5 try finds the same candidate through the catalog, the two
  scores tie, and the length-5 candidate is the one chosen
  (`Segmenter.Ps741SameAsCatalog`).

Modules, in dependency order:
- `Wrappers`: Option and Result.
- `Chars`: character classes, `upper`, `rstrip`.
- `Packing`: the layout and `ford_pack`.
- `Shapes`: the catalog and the union.
- `Normalization`
- `Search`: the scoring and one try.
- `Fallback`
- `Segmenter`: the choice and `vd52_format`.
- `Examples`: worked identifiers.
- `RowDiff`

## Model

| member | source | states |
|---|---|---|
| Chars.ToUpper | app.py:115 | `upper()` on one character: the result is never lower-case, a lower-case letter becomes its own capital (the same distance from `A` as the letter from `a`), and every other character is unchanged |
| Chars.TrimRight | app.py:239 | `rstrip()`: the result is a prefix of the input, it does not end in whitespace, and everything it drops is whitespace |
| Chars.TrimRightBlanks | app.py:239 | trimming a string that does not end in whitespace, padded with any number of blanks, gives the string back |
| Packing.LeftJustify | app.py:24 | `ljust(w)`: the length is max(len, w), the text is kept as a prefix, and the rest is blanks |
| Packing.FordPack | app.py:18-24 | strict mode fails exactly when the front is wider than 7 or the middle wider than 9; otherwise the line is max(len front, 7) + max(len middle, 9) + len last long, starts with the front, holds the middle at column max(len front, 7), and ends with the suffix, which is never truncated; every column after the front up to the middle, and after the middle up to the suffix, is a blank |
| Packing.Pack | app.py:148 | the non-strict call `vd52_format` makes: at least 16 + len suffix long, ending with the suffix, and exactly that long when the front and the middle fit |
| Packing.Unpack | app.py:13-14 | reads the three columns back from a line: the suffix is everything from column 16 on |
| Packing.StrictColumns | app.py:18-24 | a strict line is the front padded with blanks to 7, the middle padded with blanks to 9, then the suffix |
| Packing.UnpackPack | app.py:17-24 | round trip: reading back a strict line whose front and middle do not end in whitespace returns the three fields |
| Shapes.CatalogOrdered | app.py:30-39 | the catalog has 8 entries, ranked 9 down to 2 in order, each shape 4 to 7 characters long |
| Shapes.FirstMatch | app.py:42-53 | the first alternative at or after `from` that matches: it matches, and none before it does |
| Shapes.UnionAt | app.py:42-53 | the alternative the union picks matches, and no alternative listed before it does |
| Shapes.UnionIsFirstFit | app.py:42-53 | the union picks entry k exactly when k matches and no earlier entry does |
| Shapes.UnionPicksHighestRank | app.py:42-53 | the union matches nothing exactly when no shape matches; otherwise the alternative it picks has the highest rank and the greatest length among all the shapes that match there |
| Shapes.LongestFirst | app.py:30-39 | of two shapes matching at one position, the one listed earlier is never shorter |
| Shapes.DigitFreeMatchesNothing | app.py:30-39 | every shape needs a digit in its first two positions, so a string without digits matches none |
| Normalization.Clean | app.py:115 | the cleaned string is no longer than the input and holds no separator and no lower-case letter |
| Normalization.CleanChar | app.py:115 | one character on its own: it is deleted when its upper-case form is a separator, and otherwise kept as its upper-case form, so a lower-case letter becomes its own capital |
| Normalization.CleanSpec | app.py:115 | the cleaned string is no longer than the input, holds no separator and no lower-case letter, and an input with neither is returned unchanged |
| Normalization.CleanConcat | app.py:115 | cleaning distributes over concatenation, so with `CleanChar` the cleaned string is, in order, each input character's own result |
| Normalization.CleanIdempotent | app.py:115 | cleaning twice is cleaning once |
| Normalization.Normalize | app.py:114-117 | the result is the cleaned string, or the cleaned string less a leading `M`; the `M` is removed exactly when the cleaned string starts with one |
| Normalization.NormalizeSpec | app.py:114-117 | the normalised value is the cleaned string with a leading `M` removed exactly when there is one, and it holds no separator or lower-case letter |
| Normalization.NormalizeAgainIff | app.py:114-117 | normalising again changes the result exactly when the result still starts with `M`, so normalisation is not idempotent |
| Normalization.DoubleMExample | app.py:116-117 | `MM1` normalises to `M1`, and `M1` normalises to `1` |
| Search.AboveIsTupleOrder | app.py:102 | `sc > best[0]` is Python's tuple comparison: the first position where the two score tuples differ decides |
| Search.AboveStrictTotal | app.py:102 | the lexicographic order on score tuples is irreflexive, asymmetric and transitive, and any two different scores are ordered |
| Search.ScoreCandidate | app.py:55-68 | the penalty is 0 exactly when the suffix is empty or does not start with a digit, and 5 exactly when it starts with a digit followed by a letter (3 otherwise); the rank and the middle length are carried over; the last component is 1 exactly for a length-4 front |
| Search.CandidateFor | app.py:95-101 | a catalog entry yields a candidate exactly when its shape matches after the front; the candidate's front is `s[:L]`, its middle is as long as the shape, front + middle + suffix == s, and its score is `_score_candidate(rank, suffix, middle, L)` |
| Search.PickIsFirstMaximum | app.py:94-107 | the loop keeps nothing exactly when no entry matches; otherwise it keeps the candidate that no other scores above and that scores strictly above every earlier one (the first maximum) |
| Search.Ps741Candidate | app.py:82-92 | the exception's candidate has front `s[:5]` and a middle of 5 characters, and its score is `_score_candidate(6, suffix, middle, 5)`: rank 6, the suffix's penalty, middle length 5 and a length-5 front |
| Search.Ps741FiresIff | app.py:82-88 | the exception fires exactly for front length 4 and a string of at least ten characters reading `PS741`, a digit, `C` and three digits |
| Search.Ps741InnerMatchImplied | app.py:83-88 | when the string starts with PS741 and the six-character C-shift probe matches, the inner `\d[A-Z]\d{3}` match after position 5 always succeeds |
| Search.TryWithPrefix | app.py:70-108 | a candidate always splits the string exactly, with a middle of 4 to 7 characters |
| Search.TryWithPrefixSpec | app.py:70-108 | no candidate exactly when the string is shorter than L, or when neither the exception nor any catalog entry applies; otherwise the candidate splits the string with a middle of 4 to 7 characters; it is the exception's candidate when that fires, and otherwise its front is `s[:L]` and it is the first maximum among the catalog matches |
| Search.TwoMatchesBestTaken | app.py:94-107 | with exactly two matching entries, the later one is kept only when its score is strictly higher |
| Search.LoneMatchIsTaken | app.py:94-107 | with exactly one matching entry, its candidate is returned |
| Search.NoMatchNoCandidate | app.py:105-108 | with no matching entry and no exception, there is no candidate |
| Search.TryWithPrefixAndPick | app.py:70-108 | the method (the exception's nested checks, then the loop over the catalog) returns what `TryWithPrefix` specifies |
| Fallback.HitAt | app.py:133-136 | a union hit at position i lies inside the string and its text is what the string holds there |
| Fallback.HitAtSpec | app.py:133-136 | there is a hit at i exactly when the union matches at i, and its text has the length of the picked alternative |
| Fallback.HitIsFirstFit | app.py:133-136 | when entry k is the first to match at i, the hit at i is the k-shape's text |
| Fallback.RightmostSpec | app.py:132-134 | the last-match scan yields nothing exactly when no position holds a hit; otherwise it yields the hit at a position after which there is none |
| Fallback.RightmostInPlace | app.py:135-138 | the rightmost hit lies within the string |
| Fallback.LastUnionMatch | app.py:132-134 | the `finditer` loop that overwrites `last` at each match ends with the rightmost hit |
| Fallback.SplitAround | app.py:135-138 | the split around a hit spells the string, its front is as long as the hit's start, and its middle is the hit's text |
| Fallback.FixedSlice | app.py:139-146 | the length-based split: it reconstructs the string; up to 6 characters all go to the front; up to 12, the last 6 become the suffix; beyond that, 6 middle and 6 suffix characters |
| Fallback.FallbackSplit | app.py:128-146 | the fallback split always reconstructs the string |
| Fallback.NoHitFixedSlice | app.py:139-146 | with no union hit anywhere, the fallback splits by length |
| Fallback.LastHitExists | app.py:132-135 | a hit at j means there is a last hit, at j or after it |
| Fallback.FallbackFields | app.py:128-146 | the method (the `finditer` scan, then the split around the last hit or by length) returns `FallbackSplit` |
| Fallback.LastHitSplits | app.py:131-138 | a hit with none after it is the one the fallback splits around: the front is everything before it, the middle is its text, and the suffix is everything after it |
| Segmenter.Choose | app.py:122-126 | nothing is chosen exactly when both tries fail; the choice is one of the two, and when both exist neither scores above it |
| Segmenter.Segment | app.py:119-146 | front + middle + suffix == the normalised string |
| Segmenter.FormatLine | app.py:110-148 | the line is "" exactly for a NaN cell, and otherwise at least 16 characters long |
| Segmenter.SegmentReconstructs | app.py:119-146 | front + middle + suffix == the normalised string, whichever branch runs; the fallback runs when neither try yields a candidate |
| Segmenter.ChooseKeepsBetter | app.py:122-126 | nothing is chosen exactly when both tries fail; the chosen candidate is one of the two, neither scores above it, and on an exact tie the length-5 candidate wins |
| Segmenter.TieOnlyThroughPs741 | app.py:119-126 | the two tries can tie only when the PS741 exception fired for the length-4 try |
| Segmenter.Ps741SameAsCatalog | app.py:82-126 | when the exception fires for the length-4 try, the length-5 try returns the same candidate and is the one chosen, so the exception leaves the result unchanged |
| Segmenter.FormatLineSpec | app.py:110-148 | a NaN cell gives ""; otherwise the line is at least 16 + len suffix long, starts with the front, ends with the suffix, and the fields spell the normalised identifier |
| Segmenter.EmptyGivesBlankLine | app.py:110-148 | an empty cell, or one holding only `M`, gives 16 blanks and not "" |
| Segmenter.DigitFreeUsesFixedSlice | app.py:128-146 | an identifier without digits is always split by length |
| Segmenter.Vd52Format | app.py:110-148 | the method (both tries, the choice, the fallback scan and the packing) returns `FormatLine(raw)` |
| Examples.FourCharacterFrontOf14C022083 | app.py:70-108 | `14C022083` with a 4-character front gives `14C0` / `22083` / "" |
| Examples.FiveCharacterFrontOf14C022083 | app.py:70-108 | `14C022083` with a 5-character front gives no candidate |
| Examples.DigitsAfterFourCharacterFront | app.py:119-148 | `14C022083` is split `14C0` / `22083` / "", because the rank-9 `14C022` at position 0 is never looked at |
| Examples.FourCharacterFrontOfPs741 | app.py:80-92 | `PS7418C436XYZ` with a 4-character front triggers the exception: `PS741` / `8C436` / `XYZ` |
| Examples.FiveCharacterFrontOfPs741 | app.py:94-107 | with a 5-character front the same string yields a rank-6 candidate |
| Examples.Ps741Split | app.py:119-126 | both tries give the same score, so the length-5 candidate is chosen, and it is the same split |
| Examples.PenaltyCaseFits | app.py:30-39 | after `ABCD`, only the rank-8 and the rank-2 shapes fit `A405A021` |
| Examples.FourCharacterFrontOfPenaltyCase | app.py:94-107 | the rank-2 `A405` with suffix `A021` beats the rank-8 `A405A02`, whose suffix `1` starts with a digit |
| Examples.FiveCharacterFrontOfPenaltyCase | app.py:55-68 | the length-5 try of `ABCDA405A021` scores (-3, 3, 6, 0) |
| Examples.PenaltyOutweighsRank | app.py:119-126 | `ABCDA405A021` is split `ABCD` / `A405` / `A021` |
| Examples.RankCaseFits | app.py:30-39 | after `ABCD`, only the rank-9 and the rank-7 shapes fit `14C022XYZ` |
| Examples.FourCharacterFrontOfRankCase | app.py:94-107 | at equal penalty the rank-9 reading wins over the rank-7 reading of the same text |
| Examples.FiveCharacterFrontOfRankCase | app.py:94-107 | the length-5 try of `ABCD14C022XYZ` finds only the rank-6 shape |
| Examples.HigherRankWins | app.py:119-126 | `ABCD14C022XYZ` is split `ABCD` / `14C022` / `XYZ` |
| Examples.ShortTailHasNoHit | app.py:133-134 | no union hit starts fewer than 4 characters before the end |
| Examples.FourCharacterFrontOfFallbackCase | app.py:70-108 | `12C345XXB567` with a 4-character front gives no candidate |
| Examples.FiveCharacterFrontOfFallbackCase | app.py:70-108 | nor with a 5-character front |
| Examples.FallbackCaseFirstHit | app.py:133-134 | the union matches the rank-9 `12C345` at position 0 |
| Examples.FallbackCaseLastHit | app.py:133-134 | the union matches `B567` at position 8, and nowhere after it |
| Examples.FallbackCaseSplit | app.py:128-138 | the fallback splits `12C345XXB567` around the hit `B567` at position 8 |
| Examples.RightmostUnionMatchWins | app.py:128-138 | `12C345XXB567` is split `12C345XX` / `B567` / "": the rightmost hit wins over the first, higher-ranked one |
| RowDiff.TrimColumn | app.py:236-239 | every cell has its trailing whitespace removed |
| RowDiff.MismatchesReport | app.py:249-253 | over the common rows, the comparison loop builds the reference list of listed rows |
| RowDiff.LeftSurplusReport | app.py:255-257 | past the end of the second column, the surplus rows of the first extend the reference list against `<YOK>` |
| RowDiff.RightSurplusReport | app.py:258-260 | past the end of the first column, the surplus rows of the second extend the reference list |
| RowDiff.Differences | app.py:249-260 | at most one entry per row of the longer column, and at least one per row that only the longer column has |
| RowDiff.DifferencesAreReport | app.py:249-260 | the three loops together produce the reference list over all rows of the longer column |
| RowDiff.ReportSound | app.py:249-260 | each reference entry is a listed row between 1 and k, with that row's two cells (`<YOK>` past a column's end) |
| RowDiff.ReportAscending | app.py:249-260 | the reported rows are strictly ascending |
| RowDiff.ReportComplete | app.py:249-260 | every listed row is reported, with its two cells |
| RowDiff.ReportOfEqual | app.py:262-264 | two equal columns report nothing |
| RowDiff.DifferencesSpec | app.py:249-260 | row i+1 is reported, with its two cells, exactly when it lies past the end of the shorter column or its values differ; the rows are 1-based and strictly ascending |
| RowDiff.NoDifferencesIffEqual | app.py:262-264 | nothing is reported exactly when the two trimmed columns are equal |
| RowDiff.DiffColumns | app.py:249-260 | the three loops return the differences the specification function gives |
| RowDiff.Compare | app.py:236-260 | the comparison trims both columns and returns their differences against `<YOK>` |
| RowDiff.TwoAgainstThree | app.py:249-260 | two rows against three, with the first pair equal: row 2 differs, and row 3 is reported against the marker |
| RowDiff.CompareExample | app.py:236-260 | trailing blanks do not count as a difference |

## Left out

- The Flask routes, uploads, flash messages and redirects (app.py outside the functions above), and the spreadsheet reading and writing. This is I/O. The model's functions take one cell, or a column of cells, as values.
- Column detection, styling, widths and the `ALLOWED_EXT` check are presentation, not computation.
- `pd.isna(raw)` and `str(raw)`: a NaN cell is `None`, and every other cell is a string. The conversion of numbers and dates to text is left out.
- In `compare`, `astype(str)` turns a NaN cell into the text `nan`. The model's columns already hold text.
- Chars.ToUpper: ASCII letters only. Python's `upper()` also maps non-ASCII letters and can lengthen a string (`ß` becomes `SS`).
- Chars.IsDigit and Chars.IsUpper: `\d` and `[A-Z]` are taken as ASCII. Python's `\d` on `str` also matches other Unicode decimal digits.
- The regular-expression engine is not modelled. Each pattern is written out as its fixed sequence of character classes, which is what every pattern in the catalog denotes.
- `finditer` also tries the position at the end of the string. No shape matches the empty string, so that position never yields a hit, and the scan stops one position earlier.
- The unused constants `LAST_W` and `TOTAL_W` are not modelled.
- The `x or ""` guards in `ford_pack` are not modelled. Every caller passes strings, so they change nothing.
- The text of the strict-mode error is not modelled. The model returns `Failure(FieldTooWide)`.
