/** The pure part of src/extractors.py: the normalisation every extracted text goes
    through, the choice of the attachment to index, and the metadata taken from an
    item. Attachment bytes, `pdftotext`, ebooklib and BeautifulSoup are not part of this
    model. */
module Extractors {
  import opened Wrappers
  import opened Text
  import opened Records
  import Batches

  // ---------------------------------------------------------------------------------
  // preprocess_text

  /** `re.sub(r'(\w)-\n(\w)', r'\1\2', s)`: scanning left to right, a word character, a
      hyphen, a newline and a word character become the two word characters, and the
      scan resumes after the second. */
  function Dehyphen(s: string): string
    decreases |s|
  {
    if |s| >= 4 && IsWordChar(s[0]) && s[1] == '-' && s[2] == '\n' && IsWordChar(s[3]) then
      [s[0], s[3]] + Dehyphen(s[4..])
    else if s == [] then []
    else [s[0]] + Dehyphen(s[1..])
  }

  /** The length of the run of newlines `s` starts with. */
  function NewlineRun(s: string): (n: nat)
    ensures n <= |s|
  {
    if s != [] && s[0] == '\n' then 1 + NewlineRun(s[1..]) else 0
  }

  /** `re.sub(r'\n{3,}', '\n\n', s)`. */
  function SquashNewlines(s: string): string
    decreases |s|
  {
    if s == [] then []
    else if NewlineRun(s) >= 3 then "\n\n" + SquashNewlines(s[NewlineRun(s)..])
    else [s[0]] + SquashNewlines(s[1..])
  }

  /** The class `[^\S\n\f]`: whitespace other than newline and form feed. */
  predicate IsInline(c: char) {
    IsSpace(c) && c != '\n' && c != '\U{0C}'
  }

  /** The length of the run of such whitespace `s` starts with. */
  function InlineRun(s: string): (n: nat)
    ensures n <= |s|
  {
    if s != [] && IsInline(s[0]) then 1 + InlineRun(s[1..]) else 0
  }

  /** `re.sub(r'[^\S\n\f]+', ' ', s)`. */
  function SquashInline(s: string): string
    decreases |s|
  {
    if s == [] then []
    else if IsInline(s[0]) then " " + SquashInline(s[InlineRun(s)..])
    else [s[0]] + SquashInline(s[1..])
  }

  /** The three rewrites of `preprocess_text`, before the final `strip`. */
  function Rewritten(text: string): string {
    SquashInline(SquashNewlines(Dehyphen(text)))
  }

  /** `preprocess_text(text)`. */
  function PreprocessText(text: string): string {
    Strip(Rewritten(text))
  }

  /** No three newlines in a row. */
  predicate NoTripleNewline(s: string) {
    forall i :: 0 <= i && i + 2 < |s| ==> !(s[i] == '\n' && s[i + 1] == '\n' && s[i + 2] == '\n')
  }

  /** Every run of whitespace other than newline and form feed is one space. */
  predicate SingleSpaces(s: string) {
    forall i :: 0 <= i < |s| && IsInline(s[i]) ==> s[i] == ' ' && (i + 1 < |s| ==> !IsInline(s[i + 1]))
  }

  /** The characters of `s` that `keep` accepts, in order. */
  function Only(s: string, keep: char -> bool): string {
    if s == [] then [] else (if keep(s[0]) then [s[0]] else []) + Only(s[1..], keep)
  }

  /** The characters that are not whitespace. */
  function Visible(s: string): string {
    Only(s, c => !IsSpace(c))
  }

  /** The form feeds, which mark page breaks. */
  function FormFeeds(s: string): string {
    Only(s, c => c == '\U{0C}')
  }

  lemma {:induction false} NewlineRunSpec(s: string)
    ensures var n := NewlineRun(s);
      && (forall k :: 0 <= k < n ==> s[k] == '\n')
      && (n < |s| ==> s[n] != '\n')
  {
    if s != [] && s[0] == '\n' {
      NewlineRunSpec(s[1..]);
    }
  }

  lemma {:induction false} InlineRunSpec(s: string)
    ensures var n := InlineRun(s);
      && (forall k :: 0 <= k < n ==> IsInline(s[k]))
      && (n < |s| ==> !IsInline(s[n]))
  {
    if s != [] && IsInline(s[0]) {
      InlineRunSpec(s[1..]);
    }
  }

  /** Collapsing newline runs turns a leading run of `n` newlines into one of
      `min(n, 2)`. */
  lemma {:induction false} SquashNewlinesRun(s: string)
    ensures NewlineRun(SquashNewlines(s)) == if NewlineRun(s) >= 3 then 2 else NewlineRun(s)
    decreases |s|
  {
    var r := SquashNewlines(s);
    if s != [] {
      var n := NewlineRun(s);
      if n >= 3 {
        var rest := s[n..];
        SquashNewlinesRun(rest);
        NewlineRunSpec(s);
        var b := SquashNewlines(rest);
        assert NewlineRun(rest) == 0;
        assert r == "\n\n" + b;
        assert r[1..] == "\n" + b;
        assert (r[1..])[1..] == b;
      } else {
        var b := SquashNewlines(s[1..]);
        assert r == [s[0]] + b;
        assert r[1..] == b;
        if s[0] == '\n' {
          SquashNewlinesRun(s[1..]);
        }
      }
    }
  }

  /** Collapsing newline runs leaves at most two in a row. */
  lemma {:induction false} SquashNewlinesSpec(s: string)
    ensures NoTripleNewline(SquashNewlines(s))
    decreases |s|
  {
    var r := SquashNewlines(s);
    if s != [] {
      var n := NewlineRun(s);
      if n >= 3 {
        var rest := s[n..];
        SquashNewlinesSpec(rest);
        assert NewlineRun(rest) == 0 by {
          NewlineRunSpec(s);
        }
        var b := SquashNewlines(rest);
        assert NewlineRun(b) == 0 by {
          SquashNewlinesRun(rest);
        }
        assert r == "\n\n" + b;
        forall i | 0 <= i && i + 2 < |r| ensures !(r[i] == '\n' && r[i + 1] == '\n' && r[i + 2] == '\n') {
          if i >= 2 {
            assert r[i] == b[i - 2] && r[i + 1] == b[i - 1] && r[i + 2] == b[i];
          } else {
            assert r[2] == b[0];
          }
        }
      } else {
        var b := SquashNewlines(s[1..]);
        SquashNewlinesSpec(s[1..]);
        assert r == [s[0]] + b;
        if s[0] == '\n' {
          assert NewlineRun(b) <= 1 by {
            SquashNewlinesRun(s[1..]);
          }
          NewlineRunAtLeastTwo(b);
        }
        forall i | 0 <= i && i + 2 < |r| ensures !(r[i] == '\n' && r[i + 1] == '\n' && r[i + 2] == '\n') {
          if i >= 1 {
            assert r[i] == b[i - 1] && r[i + 1] == b[i] && r[i + 2] == b[i + 1];
          }
        }
      }
    }
  }

  /** Two leading newlines make a run of at least two. */
  lemma NewlineRunAtLeastTwo(b: string)
    ensures |b| >= 2 && b[0] == '\n' && b[1] == '\n' ==> NewlineRun(b) >= 2
  {
    if |b| >= 2 && b[0] == '\n' && b[1] == '\n' {
      assert b[1..][0] == '\n';
    }
  }

  /** A string that does not start with a newline has an empty leading run. */
  lemma NewlineRunPrefix(b: string)
    ensures b == [] || b[0] != '\n' ==> NewlineRun(b) == 0
  {
  }

  /** The first character of the collapsed text is a space for a leading run, and
      the text's own first character otherwise. */
  lemma SquashInlineHead(s: string)
    ensures SquashInline(s) == [] <==> s == []
    ensures s != [] && IsInline(s[0]) ==> SquashInline(s)[0] == ' '
    ensures s != [] && !IsInline(s[0]) ==> SquashInline(s)[0] == s[0]
  {
  }

  /** Collapsing inline whitespace leaves single spaces. */
  lemma {:induction false} SquashInlineSingle(s: string)
    ensures SingleSpaces(SquashInline(s))
    decreases |s|
  {
    var r := SquashInline(s);
    if s != [] {
      var next := if IsInline(s[0]) then InlineRun(s) else 1;
      var rest := s[next..];
      var b := SquashInline(rest);
      SquashInlineSingle(rest);
      SquashInlineHead(rest);
      if IsInline(s[0]) {
        InlineRunSpec(s);
        assert r == " " + b;
      } else {
        assert r == [s[0]] + b;
      }
      assert r[1..] == b;
      forall i | 0 <= i < |r| && IsInline(r[i]) ensures r[i] == ' ' && (i + 1 < |r| ==> !IsInline(r[i + 1])) {
        if i >= 1 {
          assert r[i] == b[i - 1];
          if i + 1 < |r| { assert r[i + 1] == b[i]; }
        } else if i + 1 < |r| {
          assert r[1] == b[0];
        }
      }
    }
  }

  /** Collapsing inline whitespace keeps the leading run of newlines. */
  lemma {:induction false} SquashInlineRun(s: string)
    ensures NewlineRun(SquashInline(s)) == NewlineRun(s)
    decreases |s|
  {
    if s != [] && !IsInline(s[0]) {
      SquashInlineRun(s[1..]);
      assert SquashInline(s)[1..] == SquashInline(s[1..]);
    }
  }

  /** A suffix of a text without three newlines in a row has none either. */
  lemma NoTripleSuffix(s: string, n: nat)
    requires n <= |s| && NoTripleNewline(s)
    ensures NoTripleNewline(s[n..])
  {
    forall i | 0 <= i && i + 2 < |s[n..]| ensures !(s[n..][i] == '\n' && s[n..][i + 1] == '\n' && s[n..][i + 2] == '\n') {
      assert s[n..][i] == s[n + i] && s[n..][i + 1] == s[n + i + 1] && s[n..][i + 2] == s[n + i + 2];
    }
  }

  /** Collapsing inline whitespace never puts three newlines in a row: it keeps every
      newline and replaces other characters only by a space. */
  lemma {:induction false} SquashInlineTriple(s: string)
    requires NoTripleNewline(s)
    ensures NoTripleNewline(SquashInline(s))
    decreases |s|
  {
    var r := SquashInline(s);
    if s != [] {
      var next := if IsInline(s[0]) then InlineRun(s) else 1;
      var rest := s[next..];
      var b := SquashInline(rest);
      NoTripleSuffix(s, next);
      SquashInlineTriple(rest);
      if IsInline(s[0]) {
        assert r == " " + b;
      } else {
        assert r == [s[0]] + b;
      }
      assert r[1..] == b;
      forall i | 0 <= i && i + 2 < |r| ensures !(r[i] == '\n' && r[i + 1] == '\n' && r[i + 2] == '\n') {
        if i >= 1 {
          assert r[i] == b[i - 1] && r[i + 1] == b[i] && r[i + 2] == b[i + 1];
        } else if !IsInline(s[0]) && s[0] == '\n' {
          SquashInlineRun(rest);
          NewlineRunAtLeastTwo(b);
          NewlineRunAtLeastTwo(rest);
          assert rest[0] == s[1];
          if |rest| >= 2 { assert rest[1] == s[2]; }
        }
      }
    }
  }

  lemma {:induction false} OnlyAppend(a: string, b: string, keep: char -> bool)
    ensures Only(a + b, keep) == Only(a, keep) + Only(b, keep)
  {
    if a != [] {
      assert (a + b)[1..] == a[1..] + b;
      OnlyAppend(a[1..], b, keep);
    } else {
      assert a + b == b;
    }
  }

  lemma {:induction false} OnlyNone(s: string, keep: char -> bool)
    requires forall i :: 0 <= i < |s| ==> !keep(s[i])
    ensures Only(s, keep) == []
  {
    if s != [] {
      assert forall i :: 0 <= i < |s[1..]| ==> s[1..][i] == s[i + 1];
      OnlyNone(s[1..], keep);
    }
  }

  /** Collapsing newline runs keeps every character other than newline. */
  lemma {:induction false} SquashNewlinesOnly(s: string, keep: char -> bool)
    requires !keep('\n')
    ensures Only(SquashNewlines(s), keep) == Only(s, keep)
    decreases |s|
  {
    if s != [] {
      var n := NewlineRun(s);
      if n >= 3 {
        NewlineRunSpec(s);
        SquashNewlinesOnly(s[n..], keep);
        OnlyAppend("\n\n", SquashNewlines(s[n..]), keep);
        assert s == s[..n] + s[n..];
        OnlyAppend(s[..n], s[n..], keep);
        OnlyNone(s[..n], keep);
        OnlyNone("\n\n", keep);
      } else {
        SquashNewlinesOnly(s[1..], keep);
      }
    }
  }

  /** Collapsing inline whitespace keeps every character that is not inline whitespace. */
  lemma {:induction false} SquashInlineOnly(s: string, keep: char -> bool)
    requires !keep(' ')
    requires forall c :: IsInline(c) ==> !keep(c)
    ensures Only(SquashInline(s), keep) == Only(s, keep)
    decreases |s|
  {
    if s != [] {
      if IsInline(s[0]) {
        var n := InlineRun(s);
        InlineRunSpec(s);
        SquashInlineOnly(s[n..], keep);
        OnlyAppend(" ", SquashInline(s[n..]), keep);
        assert s == s[..n] + s[n..];
        OnlyAppend(s[..n], s[n..], keep);
        OnlyNone(s[..n], keep);
      } else {
        SquashInlineOnly(s[1..], keep);
      }
    }
  }

  /** `strip` keeps every character that is not whitespace. */
  lemma StripOnly(s: string, keep: char -> bool)
    requires forall c :: IsSpace(c) ==> !keep(c)
    ensures Only(Strip(s), keep) == Only(s, keep)
  {
    StripShape(s);
    var k := |s| - |LStrip(s)|;
    var e := k + |Strip(s)|;
    assert s[k..e] == Strip(s);
    OnlyNone(s[..k], keep);
    OnlyNone(s[e..], keep);
    OnlyBetween(s, k, e, keep);
  }

  /** Only the kept characters of `s[k..e]` remain when the rest of `s` has none. */
  lemma OnlyBetween(s: string, k: nat, e: nat, keep: char -> bool)
    requires k <= e <= |s| && Only(s[..k], keep) == [] && Only(s[e..], keep) == []
    ensures Only(s, keep) == Only(s[k..e], keep)
  {
    assert s == (s[..k] + s[k..e]) + s[e..];
    OnlyAppend(s[..k] + s[k..e], s[e..], keep);
    OnlyAppend(s[..k], s[k..e], keep);
  }

  /** Joining hyphenated lines removes hyphens and newlines only. */
  lemma {:induction false} DehyphenOnly(s: string, keep: char -> bool)
    requires !keep('-') && !keep('\n')
    ensures Only(Dehyphen(s), keep) == Only(s, keep)
    decreases |s|
  {
    if |s| >= 4 && IsWordChar(s[0]) && s[1] == '-' && s[2] == '\n' && IsWordChar(s[3]) {
      DehyphenOnly(s[4..], keep);
      assert s == [s[0], s[1], s[2], s[3]] + s[4..];
      OnlyAppend([s[0], s[1], s[2], s[3]], s[4..], keep);
      OnlyAppend([s[0], s[3]], Dehyphen(s[4..]), keep);
      OnlyDropped(s[0], s[1], s[2], s[3], keep);
    } else if s != [] {
      DehyphenOnly(s[1..], keep);
      assert s == [s[0]] + s[1..];
      OnlyAppend([s[0]], s[1..], keep);
      OnlyAppend([s[0]], Dehyphen(s[1..]), keep);
    }
  }

  lemma OnlyDropped(a: char, x: char, y: char, b: char, keep: char -> bool)
    requires !keep(x) && !keep(y)
    ensures Only([a, x, y, b], keep) == Only([a, b], keep)
  {
    assert [a, x, y, b][1..] == [x, y, b];
    assert [x, y, b][1..] == [y, b];
    assert [y, b][1..] == [b];
    assert [a, b][1..] == [b];
    assert Only([y, b], keep) == Only([b], keep);
    assert Only([x, y, b], keep) == Only([y, b], keep);
  }

  /** A word broken by a hyphen at a line end is joined: `a-\nb` becomes `ab`. */
  lemma DehyphenJoins(a: char, b: char, rest: string)
    requires IsWordChar(a) && IsWordChar(b)
    ensures Dehyphen([a, '-', '\n', b] + rest) == [a, b] + Dehyphen(rest)
  {
    assert ([a, '-', '\n', b] + rest)[4..] == rest;
  }

  /** A text with no hyphen before a newline is left unchanged. */
  lemma {:induction false} DehyphenNoBreak(s: string)
    requires forall i :: 0 <= i && i + 1 < |s| ==> !(s[i] == '-' && s[i + 1] == '\n')
    ensures Dehyphen(s) == s
  {
    if s != [] {
      forall i | 0 <= i && i + 1 < |s| - 1 ensures !(s[1..][i] == '-' && s[1..][i + 1] == '\n') {
        assert s[1..][i] == s[i + 1] && s[1..][i + 1] == s[i + 2];
      }
      DehyphenNoBreak(s[1..]);
    }
  }

  /** A slice of a text without three newlines in a row has none either. */
  lemma NoTripleSlice(s: string, a: nat, b: nat)
    requires a <= b <= |s| && NoTripleNewline(s)
    ensures NoTripleNewline(s[a..b])
  {
    forall i | 0 <= i && i + 2 < |s[a..b]| ensures !(s[a..b][i] == '\n' && s[a..b][i + 1] == '\n' && s[a..b][i + 2] == '\n') {
      assert s[a..b][i] == s[a + i] && s[a..b][i + 1] == s[a + i + 1] && s[a..b][i + 2] == s[a + i + 2];
    }
  }

  lemma SingleSpacesSlice(s: string, a: nat, b: nat)
    requires a <= b <= |s| && SingleSpaces(s)
    ensures SingleSpaces(s[a..b])
  {
    var t := s[a..b];
    forall i | 0 <= i < |t| && IsInline(t[i]) ensures t[i] == ' ' && (i + 1 < |t| ==> !IsInline(t[i + 1])) {
      assert t[i] == s[a + i];
      if i + 1 < |t| { assert t[i + 1] == s[a + i + 1]; }
    }
  }

  /** What `preprocess_text` promises of its shape: no three newlines in a row, every
      run of other whitespace but form feeds a single space, no whitespace at either
      end. */
  lemma PreprocessTextShape(text: string)
    ensures var r := PreprocessText(text);
      && NoTripleNewline(r)
      && SingleSpaces(r)
      && (r != [] ==> !IsSpace(r[0]) && !IsSpace(r[|r| - 1]))
  {
    var n := SquashNewlines(Dehyphen(text));
    SquashNewlinesSpec(Dehyphen(text));
    SquashInlineTriple(n);
    SquashInlineSingle(n);
    StripKeepsShape(SquashInline(n));
  }

  /** `strip` keeps both shape properties and leaves no whitespace at either end. */
  lemma StripKeepsShape(w: string)
    requires NoTripleNewline(w) && SingleSpaces(w)
    ensures var r := Strip(w);
      && NoTripleNewline(r)
      && SingleSpaces(r)
      && (r != [] ==> !IsSpace(r[0]) && !IsSpace(r[|r| - 1]))
  {
    StripShape(w);
    var k := |w| - |LStrip(w)|;
    NoTripleSlice(w, k, k + |Strip(w)|);
    SingleSpacesSlice(w, k, k + |Strip(w)|);
  }

  /** `preprocess_text` keeps every visible character of the de-hyphenated text, in
      order. */
  lemma PreprocessTextVisible(text: string)
    ensures Visible(PreprocessText(text)) == Visible(Dehyphen(text))
  {
    var d := Dehyphen(text);
    var n := SquashNewlines(d);
    var visible := c => !IsSpace(c);
    SquashNewlinesOnly(d, visible);
    SquashInlineOnly(n, visible);
    StripOnly(SquashInline(n), visible);
  }

  /** The three rewrites keep every form feed; only the final `strip` can drop one, at
      an end of the text. */
  lemma RewrittenFormFeeds(text: string)
    ensures FormFeeds(Rewritten(text)) == FormFeeds(text)
  {
    var ff := c => c == '\U{0C}';
    var d := Dehyphen(text);
    DehyphenOnly(text, ff);
    SquashNewlinesOnly(d, ff);
    SquashInlineOnly(SquashNewlines(d), ff);
  }

  // ---------------------------------------------------------------------------------
  // select_best_attachment

  /** The bucket an attachment falls into; the tests run in this order, so an `.epub`
      file name wins over a PDF content type. */
  datatype Kind = EpubKind | PdfKind | SnapshotKind | Skipped

  function KindOf(a: Attachment): Kind {
    if a.contentType == "application/epub+zip" || EndsWith(a.filename, ".epub") then EpubKind
    else if a.contentType == "application/pdf" || EndsWith(a.filename, ".pdf") then PdfKind
    else if a.linkMode == "imported_url" || StartsWith(a.contentType, "text/html") then SnapshotKind
    else Skipped
  }

  /** The test for one kind. */
  function IsKind(k: Kind): Attachment -> bool {
    a => KindOf(a) == k
  }

  /** The attachments of one kind, in their original order. */
  function OfKind(atts: seq<Attachment>, k: Kind): seq<Attachment> {
    Batches.Filter(atts, IsKind(k))
  }

  /** One more attachment of the list joins its kind's list at the end. */
  lemma OfKindStep(atts: seq<Attachment>, i: nat, k: Kind)
    requires i < |atts|
    ensures OfKind(atts[..i + 1], k) == OfKind(atts[..i], k) + (if KindOf(atts[i]) == k then [atts[i]] else [])
  {
    assert atts[..i + 1] == atts[..i] + [atts[i]];
    Batches.FilterSnoc(atts[..i], atts[i], IsKind(k));
  }

  lemma OfKindMembers(atts: seq<Attachment>, k: Kind)
    ensures forall a :: a in OfKind(atts, k) <==> a in atts && KindOf(a) == k
  {
    Batches.FilterMembers(atts, IsKind(k));
  }

  /** The number of ASCII digits `s` has from `i` on. */
  function DigitRun(s: string, i: nat): (n: nat)
    requires i <= |s|
    ensures i + n <= |s|
    decreases |s| - i
  {
    if i < |s| && IsDigit(s[i]) then 1 + DigitRun(s, i + 1) else 0
  }

  /** `_from_\d+_to_\d+` matches at `i`. The digit runs are maximal, as the character
      after each must be `_` or nothing. */
  predicate FromToAt(f: string, i: nat)
    requires i <= |f|
  {
    && StartsWith(f[i..], "_from_")
    && var n := DigitRun(f, i + 6);
    && n >= 1
    && StartsWith(f[i + 6 + n..], "_to_")
    && DigitRun(f, i + 6 + n + 4) >= 1
  }

  /** `_part_\d+` matches at `i`. */
  predicate PartAt(f: string, i: nat)
    requires i <= |f|
  {
    StartsWith(f[i..], "_part_") && DigitRun(f, i + 6) >= 1
  }

  /** `re.search(r'_from_\d+_to_\d+|_part_\d+', filename)` succeeds: the file is one
      part of a split scan. */
  predicate IsPartName(f: string) {
    exists i :: 0 <= i < |f| && (FromToAt(f, i) || PartAt(f, i))
  }

  /** `i` is the PDF the selection loop settles on: among the PDFs that are not parts,
      the first with strictly the most pages; the first PDF when none has a positive
      page count. */
  predicate IsBestPdf(pdfs: seq<Attachment>, i: nat) {
    && i < |pdfs|
    && if exists j :: 0 <= j < |pdfs| && !IsPartName(pdfs[j].filename) && pdfs[j].numPages > 0 then
         && !IsPartName(pdfs[i].filename) && pdfs[i].numPages > 0
         && (forall j :: 0 <= j < |pdfs| && !IsPartName(pdfs[j].filename) ==> pdfs[j].numPages <= pdfs[i].numPages)
         && (forall j :: 0 <= j < i && !IsPartName(pdfs[j].filename) ==> pdfs[j].numPages < pdfs[i].numPages)
       else i == 0
  }

  /** The description picks one PDF at most. */
  lemma BestPdfUnique(pdfs: seq<Attachment>, i: nat, k: nat)
    requires IsBestPdf(pdfs, i) && IsBestPdf(pdfs, k)
    ensures i == k
  {
    if exists j :: 0 <= j < |pdfs| && !IsPartName(pdfs[j].filename) && pdfs[j].numPages > 0 {
      assert !IsPartName(pdfs[i].filename) && !IsPartName(pdfs[k].filename);
    }
  }

  /** The state `(best, best_pages)` of the PDF loop after the first `n` PDFs, with
      `best` as an index. */
  function FoldPdf(pdfs: seq<Attachment>, n: nat): (r: (nat, int))
    requires 0 < |pdfs| && n <= |pdfs|
    ensures r.0 < |pdfs|
  {
    if n == 0 then (0, 0)
    else
      var prev := FoldPdf(pdfs, n - 1);
      var pdf := pdfs[n - 1];
      if !IsPartName(pdf.filename) && pdf.numPages > prev.1 then (n - 1, pdf.numPages) else prev
  }

  /** The PDF the loop settles on. */
  function BestPdf(pdfs: seq<Attachment>): nat
    requires pdfs != []
  {
    FoldPdf(pdfs, |pdfs|).0
  }

  /** After `n` PDFs the loop holds the first of the non-part PDFs among them with the
      most pages, or the first PDF while none has a positive count. */
  lemma {:induction false} FoldPdfSpec(pdfs: seq<Attachment>, n: nat)
    requires 0 < |pdfs| && n <= |pdfs|
    ensures var (index, bestPages) := FoldPdf(pdfs, n);
      && bestPages >= 0
      && (bestPages == 0 ==> index == 0)
      && (bestPages > 0 ==> index < n && !IsPartName(pdfs[index].filename) && pdfs[index].numPages == bestPages)
      && (forall j :: 0 <= j < n && !IsPartName(pdfs[j].filename) ==> pdfs[j].numPages <= bestPages)
      && (forall j :: 0 <= j < index && !IsPartName(pdfs[j].filename) ==> pdfs[j].numPages < bestPages)
  {
    if n > 0 {
      FoldPdfSpec(pdfs, n - 1);
    }
  }

  /** The loop's choice is the best PDF as described. */
  lemma BestPdfIsBest(pdfs: seq<Attachment>)
    requires pdfs != []
    ensures IsBestPdf(pdfs, BestPdf(pdfs))
  {
    FoldPdfSpec(pdfs, |pdfs|);
  }

  /** One PDF is chosen whatever its name, which is also what the loop would do. */
  lemma SinglePdf(p: Attachment)
    ensures BestPdf([p]) == 0
  {
  }

  /** The loop over several PDFs, keeping `best` and `best_pages`. */
  method PickPdf(pdfs: seq<Attachment>) returns (best: Attachment, index: nat)
    requires pdfs != []
    ensures index == BestPdf(pdfs) && best == pdfs[index]
  {
    best := pdfs[0];
    index := 0;
    var bestPages := 0;
    for i := 0 to |pdfs|
      invariant (index, bestPages) == FoldPdf(pdfs, i) && best == pdfs[index]
    {
      var pdf := pdfs[i];
      var pages := pdf.numPages;
      if IsPartName(pdf.filename) {
        continue;
      }
      if pages > bestPages {
        best := pdf;
        index := i;
        bestPages := pages;
      }
    }
  }

  /** The attachment chosen and its type, `'epub'`, `'pdf'` or `'snapshot'`. */
  datatype Selected = Selected(att: Attachment, kind: string)

  /** What `select_best_attachment` returns; `None` is `(None, None)`. */
  function BestAttachment(atts: seq<Attachment>): Option<Selected> {
    var epubs := OfKind(atts, EpubKind);
    var pdfs := OfKind(atts, PdfKind);
    var snapshots := OfKind(atts, SnapshotKind);
    if epubs != [] then Some(Selected(epubs[0], "epub"))
    else if pdfs != [] then Some(Selected(pdfs[BestPdf(pdfs)], "pdf"))
    else if snapshots != [] then Some(Selected(snapshots[0], "snapshot"))
    else None
  }

  /** One pass of the classification loop: the attachment joins the list of its kind. */
  method Classify(att: Attachment, epubs: seq<Attachment>, pdfs: seq<Attachment>, snapshots: seq<Attachment>)
    returns (epubs': seq<Attachment>, pdfs': seq<Attachment>, snapshots': seq<Attachment>)
    ensures epubs' == epubs + (if KindOf(att) == EpubKind then [att] else [])
    ensures pdfs' == pdfs + (if KindOf(att) == PdfKind then [att] else [])
    ensures snapshots' == snapshots + (if KindOf(att) == SnapshotKind then [att] else [])
  {
    epubs', pdfs', snapshots' := epubs, pdfs, snapshots;
    var kind := KindOf(att);
    if kind == EpubKind {
      epubs' := epubs + [att];
    } else if kind == PdfKind {
      pdfs' := pdfs + [att];
    } else if kind == SnapshotKind {
      snapshots' := snapshots + [att];
    }
  }

  /** `select_best_attachment(attachments)`. */
  method SelectBestAttachment(atts: seq<Attachment>) returns (r: Option<Selected>)
    ensures r == BestAttachment(atts)
  {
    var epubs, pdfs, snapshots := ClassifyAll(atts);
    if epubs != [] {
      return Some(Selected(epubs[0], "epub"));
    }
    if pdfs != [] {
      if |pdfs| == 1 {
        SinglePdf(pdfs[0]);
        return Some(Selected(pdfs[0], "pdf"));
      }
      var best, index := PickPdf(pdfs);
      return Some(Selected(best, "pdf"));
    }
    if snapshots != [] {
      return Some(Selected(snapshots[0], "snapshot"));
    }
    return None;
  }

  /** The classification loop of `select_best_attachment`: the EPUBs, PDFs and
      snapshots, each in their original order. */
  method ClassifyAll(atts: seq<Attachment>) returns (epubs: seq<Attachment>, pdfs: seq<Attachment>, snapshots: seq<Attachment>)
    ensures epubs == OfKind(atts, EpubKind)
    ensures pdfs == OfKind(atts, PdfKind)
    ensures snapshots == OfKind(atts, SnapshotKind)
  {
    epubs, pdfs, snapshots := [], [], [];
    for i := 0 to |atts|
      invariant epubs == OfKind(atts[..i], EpubKind)
      invariant pdfs == OfKind(atts[..i], PdfKind)
      invariant snapshots == OfKind(atts[..i], SnapshotKind)
    {
      OfKindStep(atts, i, EpubKind);
      OfKindStep(atts, i, PdfKind);
      OfKindStep(atts, i, SnapshotKind);
      epubs, pdfs, snapshots := Classify(atts[i], epubs, pdfs, snapshots);
    }
    assert atts[..|atts|] == atts;
  }

  /** EPUB before PDF before snapshot: the first EPUB if there is one, else the best
      PDF, else the first snapshot, and nothing exactly when every attachment is
      skipped. */
  lemma BestAttachmentSpec(atts: seq<Attachment>)
    ensures var r := BestAttachment(atts);
      && (OfKind(atts, EpubKind) != [] ==> r == Some(Selected(OfKind(atts, EpubKind)[0], "epub")))
      && (OfKind(atts, EpubKind) == [] && OfKind(atts, PdfKind) != [] ==>
            exists i: nat :: IsBestPdf(OfKind(atts, PdfKind), i) && r == Some(Selected(OfKind(atts, PdfKind)[i], "pdf")))
      && (OfKind(atts, EpubKind) == [] && OfKind(atts, PdfKind) == [] && OfKind(atts, SnapshotKind) != [] ==>
            r == Some(Selected(OfKind(atts, SnapshotKind)[0], "snapshot")))
      && (r.None? <==> forall a :: a in atts ==> KindOf(a) == Skipped)
  {
    NoneSelected(atts);
    var pdfs := OfKind(atts, PdfKind);
    if pdfs != [] {
      BestPdfIsBest(pdfs);
    }
  }

  /** Nothing qualifies exactly when every attachment is skipped. */
  lemma NoneSelected(atts: seq<Attachment>)
    ensures (OfKind(atts, EpubKind) == [] && OfKind(atts, PdfKind) == [] && OfKind(atts, SnapshotKind) == [])
      <==> forall a :: a in atts ==> KindOf(a) == Skipped
  {
    OfKindEmpty(atts, EpubKind);
    OfKindEmpty(atts, PdfKind);
    OfKindEmpty(atts, SnapshotKind);
  }

  /** No attachment of a kind exactly when none has that kind. */
  lemma OfKindEmpty(atts: seq<Attachment>, k: Kind)
    ensures OfKind(atts, k) == [] <==> forall a :: a in atts ==> KindOf(a) != k
  {
    OfKindMembers(atts, k);
    if OfKind(atts, k) != [] {
      assert OfKind(atts, k)[0] in OfKind(atts, k);
    }
  }

  /** An `.epub` file name beats a PDF content type. */
  lemma EpubNameWins(a: Attachment)
    requires EndsWith(a.filename, ".epub")
    ensures KindOf(a) == EpubKind
  {
  }

  /** The split-scan names the selection passes over. */
  lemma PartNames()
    ensures IsPartName("scan_part_2.pdf")
    ensures IsPartName("book_from_1_to_50.pdf")
  {
    assert PartAt("scan_part_2.pdf", 4) by {
      assert "scan_part_2.pdf"[4..][..6] == "_part_";
      assert DigitRun("scan_part_2.pdf", 10) >= 1;
    }
    var f := "book_from_1_to_50.pdf";
    assert FromToAt(f, 4) by {
      assert f[4..][..6] == "_from_";
      assert DigitRun(f, 10) == 1 by {
        assert DigitRun(f, 11) == 0;
      }
      assert f[11..][..4] == "_to_";
      assert DigitRun(f, 15) >= 1;
    }
  }

  // ---------------------------------------------------------------------------------
  // extract_item_metadata

  /** The name a creator contributes: its non-empty first and last names joined by a
      space, else its single-field `name`, else nothing. */
  function AuthorName(c: Creator): Option<string> {
    var parts := (if c.firstName != "" then [c.firstName] else []) + (if c.lastName != "" then [c.lastName] else []);
    if parts != [] then Some(Join(parts, " "))
    else if c.name != "" then Some(c.name)
    else None
  }

  /** The `authors` list: one entry per creator that has a name, in order. */
  function Authors(cs: seq<Creator>): seq<string> {
    if cs == [] then []
    else (match AuthorName(cs[0]) case Some(n) => [n] case None => []) + Authors(cs[1..])
  }

  lemma {:induction false} AuthorsSnoc(cs: seq<Creator>, c: Creator)
    ensures Authors(cs + [c]) == Authors(cs) + (match AuthorName(c) case Some(n) => [n] case None => [])
  {
    if cs == [] {
      assert [c][1..] == [];
    } else {
      assert (cs + [c])[1..] == cs[1..] + [c];
      AuthorsSnoc(cs[1..], c);
    }
  }

  /** Every author is a non-empty name, and a creator with a first and a last name
      gives "first last". */
  lemma AuthorNameSpec(c: Creator)
    ensures AuthorName(c).Some? <==> c.firstName != "" || c.lastName != "" || c.name != ""
    ensures AuthorName(c).Some? ==> AuthorName(c).value != ""
    ensures c.firstName != "" && c.lastName != "" ==> AuthorName(c) == Some(c.firstName + " " + c.lastName)
    ensures c.firstName == "" && c.lastName == "" && c.name != "" ==> AuthorName(c) == Some(c.name)
  {
    if c.firstName != "" && c.lastName != "" {
      var parts := [c.firstName, c.lastName];
      assert parts[1..] == [c.lastName];
      assert Join(parts, " ") == c.firstName + " " + c.lastName;
    }
  }

  /** The authors are the names of the creators that have one, and none is empty. */
  lemma AuthorsMembers(cs: seq<Creator>)
    ensures |Authors(cs)| <= |cs|
    ensures forall a :: a in Authors(cs) <==> exists i :: 0 <= i < |cs| && AuthorName(cs[i]) == Some(a)
    ensures forall a :: a in Authors(cs) ==> a != ""
  {
    AuthorsBounds(cs);
    forall a ensures a in Authors(cs) <==> exists i :: 0 <= i < |cs| && AuthorName(cs[i]) == Some(a) {
      AuthorsHas(cs, a);
    }
  }

  lemma {:induction false} AuthorsBounds(cs: seq<Creator>)
    ensures |Authors(cs)| <= |cs|
    ensures forall a :: a in Authors(cs) ==> a != ""
  {
    if cs != [] {
      AuthorsBounds(cs[1..]);
      AuthorNameSpec(cs[0]);
    }
  }

  lemma {:induction false} AuthorsHas(cs: seq<Creator>, a: string)
    ensures a in Authors(cs) <==> exists i :: 0 <= i < |cs| && AuthorName(cs[i]) == Some(a)
  {
    if cs != [] {
      var tail := cs[1..];
      AuthorsHas(tail, a);
      var head := match AuthorName(cs[0]) case Some(n) => [n] case None => [];
      assert Authors(cs) == head + Authors(tail);
      if exists i :: 0 <= i < |cs| && AuthorName(cs[i]) == Some(a) {
        var i :| 0 <= i < |cs| && AuthorName(cs[i]) == Some(a);
        if i > 0 { assert AuthorName(tail[i - 1]) == Some(a); }
      }
      if a in Authors(tail) {
        var i :| 0 <= i < |tail| && AuthorName(tail[i]) == Some(a);
        assert cs[i + 1] == tail[i];
      }
    }
  }

  /** When every creator has a name, the authors line up with the creators. */
  lemma {:induction false} AuthorsAligned(cs: seq<Creator>)
    requires forall i :: 0 <= i < |cs| ==> AuthorName(cs[i]).Some?
    ensures |Authors(cs)| == |cs|
    ensures forall i :: 0 <= i < |cs| ==> Some(Authors(cs)[i]) == AuthorName(cs[i])
  {
    if cs != [] {
      var tail := cs[1..];
      assert forall i :: 0 <= i < |tail| ==> AuthorName(tail[i]).Some? by {
        forall i | 0 <= i < |tail| ensures AuthorName(tail[i]).Some? {
          assert tail[i] == cs[i + 1];
        }
      }
      AuthorsAligned(tail);
      assert Authors(cs) == [AuthorName(cs[0]).value] + Authors(tail);
      forall i | 0 <= i < |cs| ensures Some(Authors(cs)[i]) == AuthorName(cs[i]) {
        if i > 0 { assert Authors(cs)[i] == Authors(tail)[i - 1] && cs[i] == tail[i - 1]; }
      }
    }
  }

  /** The loop building `authors`. */
  method CollectAuthors(cs: seq<Creator>) returns (authors: seq<string>)
    ensures authors == Authors(cs)
  {
    authors := [];
    for i := 0 to |cs|
      invariant authors == Authors(cs[..i])
    {
      var c := cs[i];
      assert cs[..i + 1] == cs[..i] + [c];
      AuthorsSnoc(cs[..i], c);
      var parts := [];
      if c.firstName != "" {
        parts := parts + [c.firstName];
      }
      if c.lastName != "" {
        parts := parts + [c.lastName];
      }
      if parts != [] {
        authors := authors + [Join(parts, " ")];
      } else if c.name != "" {
        authors := authors + [c.name];
      }
    }
    assert cs[..|cs|] == cs;
  }

  /** Every collection an item is filed in, by name, with the names of its ancestors. */
  function NameSet(colls: seq<CollRef>): set<string> {
    set c, x | c in colls && x in [c.name] + c.path :: x
  }

  lemma NameSetSnoc(colls: seq<CollRef>, c: CollRef)
    ensures NameSet(colls + [c]) == NameSet(colls) + {c.name} + set x | x in c.path
  {
    var l := NameSet(colls + [c]);
    var r := NameSet(colls) + {c.name} + set x | x in c.path;
    forall x | x in l ensures x in r {
      var d :| d in colls + [c] && x in [d.name] + d.path;
      if d != c { assert d in colls; }
    }
    forall x | x in r ensures x in l {
      if x in NameSet(colls) {
        var d :| d in colls && x in [d.name] + d.path;
        assert d in colls + [c];
      } else {
        assert c in colls + [c] && x in [c.name] + c.path;
      }
    }
  }

  /** The loop building `coll_names_set`. */
  method CollectNames(colls: seq<CollRef>) returns (names: set<string>)
    ensures names == NameSet(colls)
  {
    names := {};
    for i := 0 to |colls|
      invariant names == NameSet(colls[..i])
    {
      var c := colls[i];
      assert colls[..i + 1] == colls[..i] + [c];
      NameSetSnoc(colls[..i], c);
      names := names + {c.name};
      for j := 0 to |c.path|
        invariant names == NameSet(colls[..i]) + {c.name} + set x | x in c.path[..j]
      {
        assert c.path[..j + 1] == c.path[..j] + [c.path[j]];
        names := names + {c.path[j]};
      }
      assert c.path[..|c.path|] == c.path;
    }
    assert colls[..|colls|] == colls;
  }

  /** Strictly increasing in Python's string order, so also free of repeats. */
  predicate Increasing(r: seq<string>) {
    forall i, j :: 0 <= i < j < |r| ==> StrLess(r[i], r[j])
  }

  /** `sorted(s)` for a set of strings: its least element, then the rest sorted. */
  function SortedSet(s: set<string>): seq<string>
    decreases |s|
  {
    if s == {} then []
    else
      LeastExists(s);
      StrLessAsymmetric();
      var m :| m in s && forall y :: y in s ==> m == y || StrLess(m, y);
      [m] + SortedSet(s - {m})
  }

  lemma StrLessAsymmetric()
    ensures forall a, b :: StrLess(a, b) ==> !StrLess(b, a)
  {
    forall a, b | StrLess(a, b) ensures !StrLess(b, a) {
      if StrLess(b, a) {
        StrLessTransitive(a, b, a);
        StrLessIrreflexive(a);
      }
    }
  }

  lemma {:induction false} LeastExists(s: set<string>)
    requires s != {}
    ensures exists m :: m in s && forall y :: y in s ==> m == y || StrLess(m, y)
    decreases |s|
  {
    var x :| x in s;
    if s - {x} != {} {
      LeastExists(s - {x});
      var m :| m in s - {x} && forall y :: y in s - {x} ==> m == y || StrLess(m, y);
      StrLessTotal(m, x);
      if StrLess(x, m) {
        forall y | y in s ensures x == y || StrLess(x, y) {
          if y != x && y != m { StrLessTransitive(x, m, y); }
        }
      } else {
        assert forall y :: y in s ==> m == y || StrLess(m, y);
      }
    } else {
      assert s == {x};
    }
  }

  /** The head of `sorted(s)` is the least element, and the tail sorts the rest. */
  lemma SortedSetCons(s: set<string>)
    requires s != {}
    ensures exists m :: m in s && (forall y :: y in s ==> m == y || StrLess(m, y)) && SortedSet(s) == [m] + SortedSet(s - {m})
  {
    LeastExists(s);
    StrLessAsymmetric();
  }

  /** `sorted` lists exactly the set's elements, each once. */
  lemma {:induction false} SortedSetMembers(s: set<string>)
    ensures forall x :: x in SortedSet(s) <==> x in s
    ensures |SortedSet(s)| == |s|
    decreases |s|
  {
    if s != {} {
      SortedSetCons(s);
      var m :| m in s && SortedSet(s) == [m] + SortedSet(s - {m});
      SortedSetMembers(s - {m});
    }
  }

  /** `sorted` lists the set's elements in strictly increasing order. */
  lemma {:induction false} SortedSetSpec(s: set<string>)
    ensures Increasing(SortedSet(s))
    decreases |s|
  {
    if s != {} {
      SortedSetCons(s);
      var m :| m in s && (forall y :: y in s ==> m == y || StrLess(m, y)) && SortedSet(s) == [m] + SortedSet(s - {m});
      var rest := SortedSet(s - {m});
      SortedSetSpec(s - {m});
      SortedSetMembers(s - {m});
      assert forall x :: x in rest ==> x in s - {m};
      IncreasingCons(m, rest);
    }
  }

  /** A least element in front of an increasing list keeps it increasing. */
  lemma IncreasingCons(m: string, rest: seq<string>)
    requires Increasing(rest) && forall x :: x in rest ==> StrLess(m, x)
    ensures Increasing([m] + rest)
  {
    var r := [m] + rest;
    forall i, j | 0 <= i < j < |r| ensures StrLess(r[i], r[j]) {
      assert r[j] == rest[j - 1];
      if i > 0 {
        assert r[i] == rest[i - 1];
      }
    }
  }

  /** The `_rag` dictionary, `{}` when the item has none. */
  function RagOf(item: Item): Rag {
    match item.rag
    case Some(r) => r
    case None => Rag([], "", "")
  }

  /** What `extract_item_metadata` returns for an item. */
  function ItemMetadata(item: Item): ItemMeta {
    var rag := RagOf(item);
    ItemMeta(
      item.key, Strip(item.data.title), Authors(item.data.creators), item.data.itemType,
      item.data.date, item.data.archive, item.data.archiveLocation, item.data.tags,
      SortedSet(NameSet(rag.zoteroCollections)), rag.archiveCollection, rag.archiveVisitDate,
      item.data.abstractNote)
  }

  /** `extract_item_metadata(item)`. */
  method ExtractItemMetadata(item: Item) returns (m: ItemMeta)
    ensures m == ItemMetadata(item)
  {
    var rag := RagOf(item);
    var authors := CollectAuthors(item.data.creators);
    var title := Strip(item.data.title);
    var names := CollectNames(rag.zoteroCollections);
    var collNames := SortedSet(names);
    m := ItemMeta(
      item.key, title, authors, item.data.itemType, item.data.date, item.data.archive,
      item.data.archiveLocation, item.data.tags, collNames, rag.archiveCollection,
      rag.archiveVisitDate, item.data.abstractNote);
  }

  /** The metadata's collections are every collection name and ancestor name the item
      is filed under, each once, sorted; the title is trimmed; an item with no `_rag`
      has no collections and no archive. */
  lemma ItemMetadataSpec(item: Item)
    ensures var m := ItemMetadata(item);
      && Increasing(m.collections)
      && (forall x :: x in m.collections <==>
            exists c :: c in RagOf(item).zoteroCollections && (x == c.name || x in c.path))
      && m.title == Strip(item.data.title)
      && (item.rag.None? ==> m.collections == [] && m.archiveCollection == "" && m.archiveVisitDate == "")
  {
    var colls := RagOf(item).zoteroCollections;
    SortedSetSpec(NameSet(colls));
    SortedSetMembers(NameSet(colls));
    forall x ensures x in NameSet(colls) <==> exists c :: c in colls && (x == c.name || x in c.path) {
      if x in NameSet(colls) {
        var c :| c in colls && x in [c.name] + c.path;
      }
      if exists c :: c in colls && (x == c.name || x in c.path) {
        var c :| c in colls && (x == c.name || x in c.path);
        assert x in [c.name] + c.path;
      }
    }
    if item.rag.None? {
      assert NameSet([]) == {};
    }
  }
}
