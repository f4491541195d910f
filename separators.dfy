/** The structural-boundary patterns of src/chunker.py and Python's `re.split` over them.
    Every pattern is a newline followed by a lookahead for a marker, so `re.split` drops
    the newline and leaves the marker at the start of the next part; the blank-line
    pattern drops both newlines. Each lookahead is modelled by hand. */
module Separators {
  import opened Text

  /** The markers that the lookaheads look for. */
  datatype Marker =
    | StatementOf   // STATEMENT OF [A-Z]
    | TheChairman   // The CHAIRMAN\.
    | Senator       // Senator [A-Z]+\.
    | Secretary     // Secretary [A-Z]+\.
    | Mister        // Mr\. [A-Z]+\.
    | Conclusion    // CONCLUSION
    | AgendaItem    // (?:AGENDA ITEM|Item|ITEM)\s*(?:#|\d)
    | Business      // (?:OLD BUSINESS|NEW BUSINESS|ROLL CALL|ADJOURNMENT)
    | ChapterNum    // (?:CHAPTER|Chapter)\s+\d
    | PartNum       // (?:PART|Part)\s+(?:\d|[IVX])
    | SectionNum    // (?:SECTION|Section)\s+\d

  /** A split pattern: `\n(?=marker)`, the heading pattern `\n(?=[A-Z][A-Z ]{10,})\n`,
      or `\n\n`. */
  datatype Separator = Before(marker: Marker) | CapsHeading | BlankLine

  const HearingSeparators: seq<Separator> := [
    Before(StatementOf), Before(TheChairman), Before(Senator), Before(Secretary),
    Before(Mister), Before(Conclusion), CapsHeading
  ]

  const MinutesSeparators: seq<Separator> := [Before(AgendaItem), Before(Business), CapsHeading]

  const SectionSeparators: seq<Separator> := [
    Before(ChapterNum), Before(PartNum), Before(SectionNum), CapsHeading
  ]

  /** The literal `lit` starts at index `j` of `s`. */
  predicate LitAt(s: string, j: nat, lit: string) {
    OccursAt(lit, s, j)
  }

  /** `[A-Z]+\.` matches at index `j`. */
  predicate UpperRunThenDot(s: string, j: nat)
    decreases |s| - j
  {
    j + 1 < |s| && IsUpper(s[j]) && (s[j + 1] == '.' || UpperRunThenDot(s, j + 1))
  }

  /** The first index at or after `j` that is not whitespace (greedy `\s*`). */
  function SkipSpaces(s: string, j: nat): (k: nat)
    ensures j <= k && (k < |s| ==> !IsSpace(s[k]))
    ensures k <= |s| || k == j
    decreases |s| - j
  {
    if j < |s| && IsSpace(s[j]) then SkipSpaces(s, j + 1) else j
  }

  /** `\s*` followed by a character satisfying `p`. */
  predicate SpacesThen(s: string, j: nat, p: char -> bool) {
    var k := SkipSpaces(s, j);
    k < |s| && p(s[k])
  }

  /** `\s+` followed by a character satisfying `p`. */
  predicate SomeSpacesThen(s: string, j: nat, p: char -> bool) {
    j < |s| && IsSpace(s[j]) && SpacesThen(s, j, p)
  }

  predicate IsRomanLetter(c: char) { c == 'I' || c == 'V' || c == 'X' }

  /** The lookahead of marker `m` succeeds at index `j`. */
  predicate MarkerAt(m: Marker, s: string, j: nat) {
    match m
    case StatementOf => LitAt(s, j, "STATEMENT OF ") && j + 13 < |s| && IsUpper(s[j + 13])
    case TheChairman => LitAt(s, j, "The CHAIRMAN.")
    case Senator => LitAt(s, j, "Senator ") && UpperRunThenDot(s, j + 8)
    case Secretary => LitAt(s, j, "Secretary ") && UpperRunThenDot(s, j + 10)
    case Mister => LitAt(s, j, "Mr. ") && UpperRunThenDot(s, j + 4)
    case Conclusion => LitAt(s, j, "CONCLUSION")
    case AgendaItem =>
      || (LitAt(s, j, "AGENDA ITEM") && SpacesThen(s, j + 11, c => c == '#' || IsDigit(c)))
      || (LitAt(s, j, "Item") && SpacesThen(s, j + 4, c => c == '#' || IsDigit(c)))
      || (LitAt(s, j, "ITEM") && SpacesThen(s, j + 4, c => c == '#' || IsDigit(c)))
    case Business =>
      LitAt(s, j, "OLD BUSINESS") || LitAt(s, j, "NEW BUSINESS")
      || LitAt(s, j, "ROLL CALL") || LitAt(s, j, "ADJOURNMENT")
    case ChapterNum =>
      (LitAt(s, j, "CHAPTER") || LitAt(s, j, "Chapter")) && SomeSpacesThen(s, j + 7, IsDigit)
    case PartNum =>
      (LitAt(s, j, "PART") || LitAt(s, j, "Part"))
      && SomeSpacesThen(s, j + 4, c => IsDigit(c) || IsRomanLetter(c))
    case SectionNum =>
      (LitAt(s, j, "SECTION") || LitAt(s, j, "Section")) && SomeSpacesThen(s, j + 7, IsDigit)
  }

  /** How many characters of `[A-Z ]` follow index `j`. */
  function UpperSpaceRun(s: string, j: nat): nat
    decreases |s| - j
  {
    if j < |s| && (IsUpper(s[j]) || s[j] == ' ') then 1 + UpperSpaceRun(s, j + 1) else 0
  }

  /** The lookahead `(?=[A-Z][A-Z ]{10,})` at index `j`. */
  predicate CapsLookahead(s: string, j: nat) {
    j < |s| && IsUpper(s[j]) && UpperSpaceRun(s, j + 1) >= 10
  }

  /** How many characters a match consumes. */
  function MatchLen(sep: Separator): nat {
    if sep.Before? then 1 else 2
  }

  /** The text a match consumes. */
  function Delimiter(sep: Separator): string {
    if sep.Before? then "\n" else "\n\n"
  }

  /** The pattern matches at index `i` of `s`. For the heading pattern the lookahead at
      `i + 1` and the second newline at `i + 1` are both required, as in the regex. */
  predicate MatchAt(sep: Separator, s: string, i: nat) {
    match sep
    case Before(m) => i < |s| && s[i] == '\n' && MarkerAt(m, s, i + 1)
    case CapsHeading => i + 1 < |s| && s[i] == '\n' && CapsLookahead(s, i + 1) && s[i + 1] == '\n'
    case BlankLine => i + 1 < |s| && s[i] == '\n' && s[i + 1] == '\n'
  }

  lemma MatchConsumesDelimiter(sep: Separator, s: string, i: nat)
    requires MatchAt(sep, s, i)
    ensures i + MatchLen(sep) <= |s| && s[i..i + MatchLen(sep)] == Delimiter(sep)
  {
  }

  /** `re.split` from search position `i`, the current part having begun at `start`:
      matches are found left to right and do not overlap. */
  function SplitFrom(sep: Separator, s: string, start: nat, i: nat): seq<string>
    requires start <= i <= |s|
    decreases |s| - i
  {
    if i == |s| then [s[start..]]
    else if MatchAt(sep, s, i) then
      MatchConsumesDelimiter(sep, s, i);
      [s[start..i]] + SplitFrom(sep, s, i + MatchLen(sep), i + MatchLen(sep))
    else SplitFrom(sep, s, start, i + 1)
  }

  /** `re.split(sep, s)`. */
  function SplitAt(sep: Separator, s: string): seq<string> {
    SplitFrom(sep, s, 0, 0)
  }

  /** One step of the scan: a match ends the current part, anything else extends it. */
  lemma SplitFromStep(sep: Separator, s: string, start: nat, i: nat)
    requires start <= i < |s|
    ensures MatchAt(sep, s, i) ==>
      i + MatchLen(sep) <= |s|
      && SplitFrom(sep, s, start, i) == [s[start..i]] + SplitFrom(sep, s, i + MatchLen(sep), i + MatchLen(sep))
    ensures !MatchAt(sep, s, i) ==> SplitFrom(sep, s, start, i) == SplitFrom(sep, s, start, i + 1)
  {
    if MatchAt(sep, s, i) {
      MatchConsumesDelimiter(sep, s, i);
    }
  }

  lemma {:induction false} SplitFromJoin(sep: Separator, s: string, start: nat, i: nat)
    requires start <= i <= |s|
    ensures |SplitFrom(sep, s, start, i)| >= 1
    ensures Join(SplitFrom(sep, s, start, i), Delimiter(sep)) == s[start..]
    decreases |s| - i
  {
    if i < |s| {
      SplitFromStep(sep, s, start, i);
      var d := Delimiter(sep);
      if MatchAt(sep, s, i) {
        MatchConsumesDelimiter(sep, s, i);
        var n := i + MatchLen(sep);
        SplitFromJoin(sep, s, n, n);
        var rest := SplitFrom(sep, s, n, n);
        JoinCons(s[start..i], rest, d);
        assert s[start..] == s[start..i] + d + s[n..];
      } else {
        SplitFromJoin(sep, s, start, i + 1);
      }
    }
  }

  /** Splitting loses nothing: joining the parts with the consumed delimiter gives the
      text back. */
  lemma SplitJoin(sep: Separator, s: string)
    ensures |SplitAt(sep, s)| >= 1
    ensures Join(SplitAt(sep, s), Delimiter(sep)) == s
  {
    SplitFromJoin(sep, s, 0, 0);
  }

  /** The heading lookahead demands an upper-case letter exactly where the pattern then
      demands a newline, so the pattern can never match. */
  lemma CapsHeadingNeverMatches(s: string, i: nat)
    ensures !MatchAt(CapsHeading, s, i)
  {
  }

  lemma {:induction false} CapsHeadingSplitFrom(s: string, start: nat, i: nat)
    requires start <= i <= |s|
    ensures SplitFrom(CapsHeading, s, start, i) == [s[start..]]
    decreases |s| - i
  {
    if i < |s| {
      CapsHeadingNeverMatches(s, i);
      CapsHeadingSplitFrom(s, start, i + 1);
    }
  }

  /** So splitting at the heading pattern always leaves the text whole. */
  lemma CapsHeadingNeverSplits(s: string)
    ensures SplitAt(CapsHeading, s) == [s]
  {
    CapsHeadingSplitFrom(s, 0, 0);
  }

  /** The parts of a split that are not blank (`p for p in parts if p.strip()`). */
  function NonBlank(parts: seq<string>): (r: seq<string>)
    ensures |r| <= |parts|
    ensures forall k :: 0 <= k < |r| ==> !IsBlank(r[k]) && r[k] in parts
  {
    if parts == [] then []
    else (if IsBlank(parts[0]) then [] else [parts[0]]) + NonBlank(parts[1..])
  }

  /** The segments `_split_at_boundaries` works on: the non-blank parts of the first
      separator whose split yields more than one of them, or the whole text. */
  function Segments(text: string, seps: seq<Separator>): seq<string> {
    if seps == [] then [text]
    else
      var parts := NonBlank(SplitAt(seps[0], text));
      if |parts| > 1 then parts else Segments(text, seps[1..])
  }

  /** The first separator that splits wins; the separators after it are never tried. */
  lemma {:induction false} SegmentsFirstWins(text: string, seps: seq<Separator>, k: nat)
    requires k < |seps|
    requires forall j :: 0 <= j < k ==> |NonBlank(SplitAt(seps[j], text))| <= 1
    requires |NonBlank(SplitAt(seps[k], text))| > 1
    ensures Segments(text, seps) == NonBlank(SplitAt(seps[k], text))
    ensures Segments(text, seps) == Segments(text, seps[..k + 1])
  {
    if k > 0 {
      assert seps[1..][..k] == seps[1..k + 1];
      SegmentsFirstWins(text, seps[1..], k - 1);
      assert seps[..k + 1][1..] == seps[1..k + 1];
    }
  }

  /** When no separator splits, the text is one segment. */
  lemma {:induction false} SegmentsNoneSplit(text: string, seps: seq<Separator>)
    requires forall j :: 0 <= j < |seps| ==> |NonBlank(SplitAt(seps[j], text))| <= 1
    ensures Segments(text, seps) == [text]
  {
    if seps != [] {
      SegmentsNoneSplit(text, seps[1..]);
    }
  }

  /** Segments are never empty, and each is blank-free unless the text was used whole. */
  lemma {:induction false} SegmentsShape(text: string, seps: seq<Separator>)
    ensures |Segments(text, seps)| >= 1
    ensures Segments(text, seps) == [text]
      || forall k :: 0 <= k < |Segments(text, seps)| ==> !IsBlank(Segments(text, seps)[k])
  {
    if seps != [] {
      var parts := NonBlank(SplitAt(seps[0], text));
      if |parts| <= 1 {
        SegmentsShape(text, seps[1..]);
      }
    }
  }
}
