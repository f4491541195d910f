/** The adaptive chunker of src/chunker.py: fixed token windows with overlap, splitting
    at structural boundaries followed by greedy packing, document classification, and
    the three entry points for documents, EPUB chapters and notes. */
module Chunker {
  import opened Wrappers
  import opened Text
  import opened Tokens
  import opened Separators
  import opened Records
  import Pages

  function Min(a: int, b: int): int { if a <= b then a else b }

  // ---------------------------------------------------------------------------------
  // Fixed token windows

  /** The windows `_split_by_tokens` cuts from `ts`, the current one starting at `start`;
      each step advances by `size - overlap`, and a window past the end is truncated. */
  function Windows(ts: seq<int>, size: nat, overlap: nat, start: nat): seq<seq<int>>
    requires overlap < size
    decreases |ts| - start
  {
    if start >= |ts| then []
    else [ts[start..Min(start + size, |ts|)]] + Windows(ts, size, overlap, start + size - overlap)
  }

  /** Each window decoded back to text. */
  function Decoded(tok: Tokenizer, ws: seq<seq<int>>): (r: seq<string>)
    ensures |r| == |ws|
    ensures forall i :: 0 <= i < |ws| ==> r[i] == tok.decode(ws[i])
  {
    if ws == [] then [] else [tok.decode(ws[0])] + Decoded(tok, ws[1..])
  }

  /** One window decoded, followed by the windows after it. */
  lemma DecodedStep(tok: Tokenizer, ts: seq<int>, size: nat, overlap: nat, start: nat, next: nat, window: seq<int>,
                    done: seq<string>, all: seq<string>)
    requires overlap < size && start < |ts| && next == start + size - overlap
    requires window == ts[start..Min(start + size, |ts|)]
    requires done + Decoded(tok, Windows(ts, size, overlap, start)) == all
    ensures (done + [tok.decode(window)]) + Decoded(tok, Windows(ts, size, overlap, next)) == all
  {
    var rest := Windows(ts, size, overlap, next);
    var w := Windows(ts, size, overlap, start);
    var x := tok.decode(window);
    assert w == [window] + rest;
    assert w[1..] == rest;
    assert Decoded(tok, w) == [x] + Decoded(tok, rest);
    assert done + ([x] + Decoded(tok, rest)) == (done + [x]) + Decoded(tok, rest);
  }

  /** The chunk texts `_split_by_tokens(text, size, overlap)` returns. */
  function TokenChunks(tok: Tokenizer, text: string, size: nat, overlap: nat): seq<string>
    requires overlap < size
  {
    Decoded(tok, Windows(tok.encode(text), size, overlap, 0))
  }

  /** `_split_by_tokens`: the loop advancing `start` by `size - overlap`. */
  method SplitByTokens(tok: Tokenizer, text: string, size: nat, overlap: nat) returns (chunks: seq<string>)
    requires overlap < size
    ensures chunks == TokenChunks(tok, text, size, overlap)
  {
    var tokens := tok.encode(text);
    ghost var all := Decoded(tok, Windows(tokens, size, overlap, 0));
    chunks := [];
    var start: nat := 0;
    assert chunks + all == all;
    while start < |tokens|
      invariant chunks + Decoded(tok, Windows(tokens, size, overlap, start)) == all
      decreases |tokens| - start
    {
      var end := start + size;
      var chunkTokens := tokens[start..Min(end, |tokens|)];
      var chunkText := tok.decode(chunkTokens);
      var next := end - overlap;
      DecodedStep(tok, tokens, size, overlap, start, next, chunkTokens, chunks, all);
      chunks := chunks + [chunkText];
      start := next;
    }
  }

  /** The number of windows over `n` tokens when each window starts `step` tokens after
      the one before. */
  function WindowCount(n: nat, step: nat): nat
    requires step > 0
    decreases n
  {
    if n == 0 then 0 else if n <= step then 1 else 1 + WindowCount(n - step, step)
  }

  /** That number is `ceil(n / step)`: the least `k` with `k * step >= n`. */
  lemma {:induction false} WindowCountIsCeiling(n: nat, step: nat)
    requires step > 0
    ensures var k := WindowCount(n, step);
      k * step >= n && (k == 0 || (k - 1) * step < n)
    decreases n
  {
    if n > step {
      WindowCountIsCeiling(n - step, step);
      var k' := WindowCount(n - step, step);
      assert (k' + 1) * step == k' * step + step;
      assert k' >= 1;
      assert (k' - 1) * step == k' * step - step;
    }
  }

  /** There is one window per step needed to pass the end. */
  lemma {:induction false} WindowsLength(ts: seq<int>, size: nat, overlap: nat, start: nat)
    requires overlap < size
    ensures |Windows(ts, size, overlap, start)| == (if start >= |ts| then 0 else WindowCount(|ts| - start, size - overlap))
    decreases |ts| - start
  {
    if start < |ts| {
      WindowsLength(ts, size, overlap, start + size - overlap);
    }
  }

  /** Window `i` starts `i` steps after `start` and holds the next `size` tokens, or what
      is left of them. */
  lemma {:induction false} WindowAt(ts: seq<int>, size: nat, overlap: nat, start: nat, i: nat)
    requires overlap < size && i < |Windows(ts, size, overlap, start)|
    ensures var step := size - overlap;
      start + i * step < |ts|
      && Windows(ts, size, overlap, start)[i] == ts[start + i * step..Min(start + i * step + size, |ts|)]
    ensures 0 < |Windows(ts, size, overlap, start)[i]| <= size
    decreases i
  {
    var step := size - overlap;
    var next := start + step;
    if i > 0 {
      WindowAt(ts, size, overlap, next, i - 1);
      assert Windows(ts, size, overlap, start)[i] == Windows(ts, size, overlap, next)[i - 1];
      assert (i - 1) * step == i * step - step;
    }
  }

  /** The windows of the whole token list: none for an empty list, as many as
      `WindowCount`, and each a non-empty run of at most `size` tokens (where they start
      is `WindowAt` with `start == 0`). */
  lemma WindowsOfTokens(ts: seq<int>, size: nat, overlap: nat)
    requires overlap < size
    ensures var w := Windows(ts, size, overlap, 0);
      && (|ts| == 0 <==> |w| == 0)
      && |w| == WindowCount(|ts|, size - overlap)
      && forall i :: 0 <= i < |w| ==> 0 < |w[i]| <= size
  {
    WindowsLength(ts, size, overlap, 0);
    var w := Windows(ts, size, overlap, 0);
    forall i | 0 <= i < |w| ensures 0 < |w[i]| <= size {
      WindowAt(ts, size, overlap, 0, i);
    }
    assert |ts| == 0 <==> w == [];
  }

  /** No token is lost: token `j` is in window `i`, at offset `j - i * step`. */
  lemma {:induction false} WindowsCover(ts: seq<int>, size: nat, overlap: nat, start: nat, j: nat) returns (i: nat)
    requires overlap < size && start <= j < |ts|
    ensures var w := Windows(ts, size, overlap, start);
      var step := size - overlap;
      && i < |w| && start + i * step <= j < start + i * step + |w[i]|
      && w[i][j - (start + i * step)] == ts[j]
    decreases |ts| - start
  {
    var step := size - overlap;
    var w := Windows(ts, size, overlap, start);
    var rest := Windows(ts, size, overlap, start + step);
    assert w == [ts[start..Min(start + size, |ts|)]] + rest;
    if j < start + step {
      i := 0;
    } else {
      var k := WindowsCover(ts, size, overlap, start + step, j);
      assert w[k + 1] == rest[k];
      assert (k + 1) * step == k * step + step;
      i := k + 1;
    }
  }

  /** Consecutive windows overlap: what follows the first `step` tokens of window `i` is
      the beginning of window `i + 1`, and it is `overlap` tokens long unless window `i`
      was cut short by the end. */
  lemma {:induction false} WindowsOverlap(ts: seq<int>, size: nat, overlap: nat, start: nat, i: nat)
    requires overlap < size
    requires i + 1 < |Windows(ts, size, overlap, start)|
    ensures var w := Windows(ts, size, overlap, start);
      var step := size - overlap;
      step <= |w[i]| && w[i][step..] <= w[i + 1]
      && (|w[i]| == size ==> |w[i][step..]| == overlap)
    decreases i
  {
    var step := size - overlap;
    var next := start + step;
    var w := Windows(ts, size, overlap, start);
    var rest := Windows(ts, size, overlap, next);
    assert w == [ts[start..Min(start + size, |ts|)]] + rest;
    if i == 0 {
      assert rest[0] == ts[next..Min(next + size, |ts|)];
      SliceOverlap(ts, start, step, size);
    } else {
      WindowsOverlap(ts, size, overlap, next, i - 1);
      assert w[i] == rest[i - 1] && w[i + 1] == rest[i];
    }
  }

  /** The slice of `size` tokens at `a`, minus its first `step`, begins the slice at
      `a + step`. */
  lemma SliceOverlap(ts: seq<int>, a: nat, step: nat, size: nat)
    requires 0 < step <= size && a + step < |ts|
    ensures var x := ts[a..Min(a + size, |ts|)];
      step <= |x| && x[step..] <= ts[a + step..Min(a + step + size, |ts|)]
      && (a + size <= |ts| ==> |x[step..]| == size - step)
  {
    var e := Min(a + size, |ts|);
    var x := ts[a..e];
    assert x[step..] == ts[a + step..e];
    assert ts[a + step..e] == ts[a + step..Min(a + step + size, |ts|)][..e - (a + step)];
  }

  // ---------------------------------------------------------------------------------
  // Structural boundaries and packing

  /** Whether `current` holds text (`if current:`). */
  function Flushed(current: string): seq<string> {
    if current != "" then [current] else []
  }

  /** The chunks the packing loop of `_split_at_boundaries` produces from the remaining
      segments `segs`, with `current` accumulated so far. */
  function PackFrom(tok: Tokenizer, size: nat, overlap: nat, segs: seq<string>, current: string): seq<string>
    requires overlap < size
  {
    if segs == [] then Flushed(current)
    else
      var seg := segs[0];
      var combined := if current != "" then Strip(current + "\n\n" + seg) else seg;
      if Count(tok, combined) <= size then PackFrom(tok, size, overlap, segs[1..], combined)
      else if Count(tok, seg) > size then
        Flushed(current) + TokenChunks(tok, seg, size, overlap) + PackFrom(tok, size, overlap, segs[1..], "")
      else
        Flushed(current) + PackFrom(tok, size, overlap, segs[1..], seg)
  }

  /** The chunk texts `_split_at_boundaries(text, seps, size, overlap)` returns. */
  function Boundaries(tok: Tokenizer, size: nat, overlap: nat, text: string, seps: seq<Separator>): seq<string>
    requires overlap < size
  {
    PackFrom(tok, size, overlap, Segments(text, seps), "")
  }

  /** `_split_at_boundaries`: choose the segments, then pack them. */
  method SplitAtBoundaries(tok: Tokenizer, text: string, seps: seq<Separator>, size: nat, overlap: nat)
    returns (chunks: seq<string>)
    requires overlap < size
    ensures chunks == Boundaries(tok, size, overlap, text, seps)
  {
    var segments := SelectSegments(text, seps);
    chunks := PackSegments(tok, segments, size, overlap);
  }

  /** The loop over separators of `_split_at_boundaries`, which stops at the first one
      that yields more non-blank parts than there are segments. Until then the segments
      are the whole text. */
  method SelectSegments(text: string, seps: seq<Separator>) returns (segments: seq<string>)
    ensures segments == Segments(text, seps)
  {
    segments := [text];
    var k := 0;
    while k < |seps|
      invariant 0 <= k <= |seps|
      invariant Segments(text, seps) == Segments(text, seps[k..])
      decreases |seps| - k
    {
      var newSegments: seq<string> := [];
      for j := 0 to |segments|
        invariant newSegments == if j == 0 then [] else NonBlank(SplitAt(seps[k], text))
      {
        newSegments := newSegments + NonBlank(SplitAt(seps[k], segments[j]));
      }
      assert seps[k..][1..] == seps[k + 1..];
      if |newSegments| > |segments| {
        segments := newSegments;
        return;
      }
      k := k + 1;
    }
  }

  /** The packing loop of `_split_at_boundaries`: grow the accumulator while the joined
      text fits, flush it when it does not, and cut an over-budget segment into token
      windows. */
  method PackSegments(tok: Tokenizer, segments: seq<string>, size: nat, overlap: nat) returns (chunks: seq<string>)
    requires overlap < size
    ensures chunks == PackFrom(tok, size, overlap, segments, "")
  {
    chunks := [];
    var current := "";
    for i := 0 to |segments|
      invariant chunks + PackFrom(tok, size, overlap, segments[i..], current) == PackFrom(tok, size, overlap, segments, "")
    {
      assert segments[i..] == [segments[i]] + segments[i + 1..];
      var emitted, next := PackOne(tok, segments[i], current, size, overlap, segments[i + 1..]);
      chunks := chunks + emitted;
      current := next;
    }
    chunks := chunks + Flushed(current);
  }

  /** One iteration of the packing loop, on segment `seg` with accumulator `current`:
      what it appends to the chunks, and the accumulator it leaves, continue the packing
      of `seg` followed by any remaining segments `rest`. */
  method PackOne(tok: Tokenizer, seg: string, current: string, size: nat, overlap: nat, ghost rest: seq<string>)
    returns (emitted: seq<string>, next: string)
    requires overlap < size
    ensures emitted + PackFrom(tok, size, overlap, rest, next) == PackFrom(tok, size, overlap, [seg] + rest, current)
  {
    assert ([seg] + rest)[0] == seg && ([seg] + rest)[1..] == rest;
    emitted := [];
    var combined := if current != "" then Strip(current + "\n\n" + seg) else seg;
    if Count(tok, combined) <= size {
      next := combined;
    } else {
      emitted := Flushed(current);
      if Count(tok, seg) > size {
        var windows := SplitByTokens(tok, seg, size, overlap);
        emitted := emitted + windows;
        next := "";
      } else {
        next := seg;
      }
    }
  }

  /** A chunk of the packing either fits the budget or is a token window of one of the
      segments that did not fit. */
  predicate WithinBudgetOrWindow(tok: Tokenizer, size: nat, overlap: nat, segs: seq<string>, c: string)
    requires overlap < size
  {
    Count(tok, c) <= size
    || exists k :: 0 <= k < |segs| && Count(tok, segs[k]) > size && c in TokenChunks(tok, segs[k], size, overlap)
  }

  /** Every chunk flushed from the accumulator respects the token budget; only an
      over-budget segment is replaced by its token windows. */
  lemma {:induction false} PackWithinBudget(tok: Tokenizer, size: nat, overlap: nat, segs: seq<string>, current: string)
    requires overlap < size
    requires current == "" || Count(tok, current) <= size
    ensures forall c :: c in PackFrom(tok, size, overlap, segs, current) ==>
      WithinBudgetOrWindow(tok, size, overlap, segs, c)
  {
    if segs != [] {
      var seg := segs[0];
      var combined := if current != "" then Strip(current + "\n\n" + seg) else seg;
      var r := PackFrom(tok, size, overlap, segs, current);
      if Count(tok, combined) <= size {
        PackWithinBudget(tok, size, overlap, segs[1..], combined);
        forall c | c in r ensures WithinBudgetOrWindow(tok, size, overlap, segs, c) {
          TailWitness(tok, size, overlap, segs, c);
        }
      } else if Count(tok, seg) > size {
        PackWithinBudget(tok, size, overlap, segs[1..], "");
        forall c | c in r ensures WithinBudgetOrWindow(tok, size, overlap, segs, c) {
          if c in TokenChunks(tok, seg, size, overlap) {
            assert segs[0] == seg;
          } else if c !in Flushed(current) {
            TailWitness(tok, size, overlap, segs, c);
          }
        }
      } else {
        PackWithinBudget(tok, size, overlap, segs[1..], seg);
        forall c | c in r ensures WithinBudgetOrWindow(tok, size, overlap, segs, c) {
          if c !in Flushed(current) {
            TailWitness(tok, size, overlap, segs, c);
          }
        }
      }
    }
  }

  lemma TailWitness(tok: Tokenizer, size: nat, overlap: nat, segs: seq<string>, c: string)
    requires overlap < size && segs != []
    requires WithinBudgetOrWindow(tok, size, overlap, segs[1..], c)
    ensures WithinBudgetOrWindow(tok, size, overlap, segs, c)
  {
    if Count(tok, c) > size {
      var k :| 0 <= k < |segs[1..]| && Count(tok, segs[1..][k]) > size && c in TokenChunks(tok, segs[1..][k], size, overlap);
      assert segs[k + 1] == segs[1..][k];
    }
  }

  /** Without over-budget segments, packing never produces more chunks than there are
      segments, and it produces at least one when some segment is non-empty. */
  lemma {:induction false} PackCount(tok: Tokenizer, size: nat, overlap: nat, segs: seq<string>, current: string)
    requires overlap < size
    requires forall k :: 0 <= k < |segs| ==> Count(tok, segs[k]) <= size
    ensures |PackFrom(tok, size, overlap, segs, current)| <= |segs| + |Flushed(current)|
    ensures !IsBlank(current) ==> |PackFrom(tok, size, overlap, segs, current)| >= 1
  {
    if segs != [] {
      var seg := segs[0];
      var combined := if current != "" then Strip(current + "\n\n" + seg) else seg;
      if Count(tok, combined) <= size {
        PackCount(tok, size, overlap, segs[1..], combined);
        if !IsBlank(current) {
          StripKeepsText(current, seg);
        }
      } else {
        PackCount(tok, size, overlap, segs[1..], seg);
      }
    }
  }

  /** Joining a non-blank text to anything and stripping leaves a non-blank text. */
  lemma StripKeepsText(current: string, seg: string)
    requires !IsBlank(current)
    ensures !IsBlank(Strip(current + "\n\n" + seg))
  {
    var s := current + "\n\n" + seg;
    var k :| 0 <= k < |current| && !IsSpace(current[k]);
    assert s[k] == current[k];
    StripShape(s);
  }

  /** Two segments that fit the budget together become one chunk: the two joined by a
      blank line and trimmed. */
  lemma TwoSegmentsMerge(tok: Tokenizer, size: nat, overlap: nat, a: string, b: string)
    requires overlap < size && a != ""
    requires Count(tok, a) <= size && Count(tok, Strip(a + "\n\n" + b)) <= size
    requires Strip(a + "\n\n" + b) != ""
    ensures PackFrom(tok, size, overlap, [a, b], "") == [Strip(a + "\n\n" + b)]
  {
    var ab := Strip(a + "\n\n" + b);
    assert [a, b][1..] == [b];
    assert [b][1..] == [];
    assert PackFrom(tok, size, overlap, [b], a) == PackFrom(tok, size, overlap, [], ab);
  }

  /** Two segments that each fit but not together become two chunks, in order. */
  lemma TwoSegmentsApart(tok: Tokenizer, size: nat, overlap: nat, a: string, b: string)
    requires overlap < size && a != "" && b != ""
    requires Count(tok, a) <= size && Count(tok, b) <= size
    requires Count(tok, Strip(a + "\n\n" + b)) > size
    ensures PackFrom(tok, size, overlap, [a, b], "") == [a, b]
  {
    assert [a, b][1..] == [b];
    assert [b][1..] == [];
    assert PackFrom(tok, size, overlap, [b], a) == [a] + PackFrom(tok, size, overlap, [], b);
  }

  // ---------------------------------------------------------------------------------
  // Classification

  /** The three chunking strategies `classify_document` chooses between. */
  datatype DocClass = Short | Medium | Long

  predicate IsLongType(itemType: string) { itemType == "hearing" || itemType == "book" }
  predicate IsMediumType(itemType: string) { itemType == "report" || itemType == "document" }

  /** `classify_document(item_type, tokens)`: hearings and books are long; reports and
      documents over the short threshold are medium; anything else is short unless it
      exceeds twice the chunk size, and then it is medium. */
  function Classify(cfg: Config, itemType: string, tokens: nat): (c: DocClass)
    ensures IsLongType(itemType) <==> c == Long
    ensures c == Medium <==>
      !IsLongType(itemType) && tokens > cfg.shortThreshold && (IsMediumType(itemType) || tokens > 2 * cfg.chunkSize)
  {
    if IsLongType(itemType) then Long
    else if IsMediumType(itemType) && tokens > cfg.shortThreshold then Medium
    else if tokens <= cfg.shortThreshold then Short
    else if tokens > cfg.chunkSize * 2 then Medium
    else Short
  }

  /** A document of any type other than the long ones stays short up to the threshold;
      with the configured sizes, one of another type stays short up to 1200 tokens. */
  lemma ShortDocuments(itemType: string, tokens: nat)
    requires !IsLongType(itemType)
    ensures tokens <= Defaults.shortThreshold ==> Classify(Defaults, itemType, tokens) == Short
    ensures !IsMediumType(itemType) && tokens <= 1200 ==> Classify(Defaults, itemType, tokens) == Short
    ensures !IsMediumType(itemType) && tokens > 1200 ==> Classify(Defaults, itemType, tokens) == Medium
  {
  }

  // ---------------------------------------------------------------------------------
  // Chunks

  /** `_make_chunk`: the text trimmed, the metadata a copy (a value here). */
  function MakeChunk(text: string, index: int, total: int, meta: ChunkMeta): Chunk {
    Chunk(Strip(text), index, total, meta)
  }

  /** A chunk's text is empty exactly when the given text is blank; otherwise it is a
      piece of that text with no whitespace at either end. */
  lemma MakeChunkText(text: string, index: int, total: int, meta: ChunkMeta)
    ensures var c := MakeChunk(text, index, total, meta);
      && (c.text == [] <==> IsBlank(text))
      && (c.text != [] ==> !IsSpace(c.text[0]) && !IsSpace(c.text[|c.text| - 1]) && IsInfix(c.text, text))
  {
    StripShape(text);
    var t := Strip(text);
    if t != [] {
      var k := |text| - |LStrip(text)|;
      IsInfixIff(t, text);
      assert OccursAt(t, text, k);
    }
  }

  /** Chunks of the given texts numbered by position, all with the same total. */
  function MakeChunks(texts: seq<string>, total: int, meta: ChunkMeta): (r: seq<Chunk>)
    ensures |r| == |texts|
    ensures forall i :: 0 <= i < |r| ==> r[i] == MakeChunk(texts[i], i, total, meta)
  {
    seq(|texts|, i requires 0 <= i < |texts| => MakeChunk(texts[i], i, total, meta))
  }

  /** The separators `chunk_document` uses for a document of the given class and type. */
  function SeparatorsFor(c: DocClass, itemType: string): seq<Separator> {
    if c == Long then (if itemType == "hearing" then HearingSeparators else SectionSeparators)
    else SectionSeparators + [BlankLine]
  }

  /** The chunk texts of `chunk_document` before trimming and page assignment. */
  function DocumentTexts(tok: Tokenizer, cfg: Config, text: string, itemType: string): seq<string>
    requires cfg.Valid()
  {
    if IsBlank(text) then []
    else
      var c := Classify(cfg, itemType, Count(tok, text));
      var stripped := Pages.RemoveFF(text);
      if c == Short then [stripped]
      else Boundaries(tok, cfg.chunkSize, cfg.overlap, stripped, SeparatorsFor(c, itemType))
  }

  /** `chunk_document`: blank text gives no chunks; otherwise the texts are chunked by
      class, numbered by position, given the document's chunk count as total, and
      assigned pages. There is no fixed-window branch, because `Classify` has only the
      three classes. */
  method ChunkDocument(tok: Tokenizer, cfg: Config, text: string, itemType: string, meta: ChunkMeta)
    returns (result: seq<Chunk>)
    requires cfg.Valid()
    ensures var texts := DocumentTexts(tok, cfg, text, itemType);
      result == Pages.Assigned(MakeChunks(texts, |texts|, meta), Pages.RemoveFF(text), Pages.PageOffsets(text, 1), Pages.PageMap(text))
    ensures IsBlank(text) ==> result == []
    ensures !IsBlank(text) && Classify(cfg, itemType, Count(tok, text)) == Short ==>
      |result| == 1 && result[0].text == Strip(Pages.RemoveFF(text))
    ensures forall i :: 0 <= i < |result| ==>
      result[i].chunkIndex == i && result[i].totalChunks == |result| && result[i].meta.item == meta.item
      && result[i].meta.pdfPage.Some? && result[i].meta.pageStart.Some? && result[i].meta.pageEnd.Some?
  {
    if IsBlank(text) {
      return [];
    }
    var tokenCount := Count(tok, text);
    var docClass := Classify(cfg, itemType, tokenCount);
    var pageMap := Pages.BuildPageMap(text);
    var pageAtOffset := Pages.BuildPageAtOffset(text);
    var stripped := Pages.RemoveFF(text);
    var texts: seq<string>;
    if docClass == Short {
      texts := [stripped];
    } else {
      texts := SplitAtBoundaries(tok, stripped, SeparatorsFor(docClass, itemType), cfg.chunkSize, cfg.overlap);
    }
    var chunks := MakeChunks(texts, |texts|, meta);
    var a := new Chunk[|chunks|](i requires 0 <= i < |chunks| => chunks[i]);
    assert a[..] == chunks;
    Pages.AssignPagesByPosition(a, stripped, pageAtOffset, pageMap);
    result := a[..];
    Pages.AssignedKeeps(chunks, stripped, pageAtOffset, pageMap);
  }

  /** The `(chapter title, text)` pieces `chunk_epub` makes chunks of, in order. */
  function EpubPieces(tok: Tokenizer, cfg: Config, chapters: seq<(string, string)>): seq<(string, string)>
    requires cfg.Valid()
  {
    if chapters == [] then []
    else ChapterPieces(tok, cfg, chapters[0]) + EpubPieces(tok, cfg, chapters[1..])
  }

  /** The pieces of one chapter: none when blank, the whole chapter when it fits, else
      its pieces split at section boundaries. */
  function ChapterPieces(tok: Tokenizer, cfg: Config, chapter: (string, string)): seq<(string, string)>
    requires cfg.Valid()
  {
    var (title, body) := chapter;
    if IsBlank(body) then []
    else if Count(tok, body) <= cfg.chunkSize then [(title, body)]
    else Titled(title, Boundaries(tok, cfg.chunkSize, cfg.overlap, body, SectionSeparators + [BlankLine]))
  }

  /** Each text paired with one chapter title. */
  function Titled(title: string, texts: seq<string>): (r: seq<(string, string)>)
    ensures |r| == |texts|
    ensures forall i :: 0 <= i < |r| ==> r[i] == (title, texts[i])
  {
    seq(|texts|, i requires 0 <= i < |texts| => (title, texts[i]))
  }

  /** The EPUB chunk for piece `i` of `n`. */
  function EpubChunk(piece: (string, string), i: int, n: int, meta: ChunkMeta): Chunk {
    MakeChunk(piece.1, i, n, meta.(chapter := Some(piece.0)))
  }

  /** The EPUB chunks of `pieces`, numbered from `from`, all with total `n`. */
  function EpubChunks(pieces: seq<(string, string)>, from: int, n: int, meta: ChunkMeta): (r: seq<Chunk>)
    ensures |r| == |pieces|
    ensures forall i :: 0 <= i < |r| ==> r[i] == EpubChunk(pieces[i], from + i, n, meta)
  {
    seq(|pieces|, i requires 0 <= i < |pieces| => EpubChunk(pieces[i], from + i, n, meta))
  }

  /** Numbering runs on across a concatenation of pieces. */
  lemma EpubChunksAppend(a: seq<(string, string)>, b: seq<(string, string)>, n: int, meta: ChunkMeta)
    ensures EpubChunks(a + b, 0, n, meta) == EpubChunks(a, 0, n, meta) + EpubChunks(b, |a|, n, meta)
  {
    var l := EpubChunks(a + b, 0, n, meta);
    var r := EpubChunks(a, 0, n, meta) + EpubChunks(b, |a|, n, meta);
    forall i | 0 <= i < |l| ensures l[i] == r[i] {
      if i >= |a| {
        assert (a + b)[i] == b[i - |a|];
      }
    }
  }

  /** `chunk_epub`: blank chapters are skipped, a chapter that fits is one chunk, a longer
      one is split at boundaries; the running index numbers chunks across chapters, and
      the count is backfilled into every chunk. Every chunk carries its chapter title. */
  method ChunkEpub(tok: Tokenizer, cfg: Config, chapters: seq<(string, string)>, meta: ChunkMeta)
    returns (allChunks: seq<Chunk>)
    requires cfg.Valid()
    ensures var pieces := EpubPieces(tok, cfg, chapters);
      allChunks == EpubChunks(pieces, 0, |pieces|, meta)
  {
    allChunks := [];
    var chunkIndex := 0;
    for c := 0 to |chapters|
      invariant chunkIndex == |allChunks|
      invariant allChunks == EpubChunks(EpubPieces(tok, cfg, chapters[..c]), 0, -1, meta)
    {
      var here := ChunkChapter(tok, cfg, chapters[c], chunkIndex, meta);
      EpubLoopStep(tok, cfg, chapters, c, meta);
      allChunks := allChunks + here;
      chunkIndex := chunkIndex + |here|;
    }
    assert chapters[..|chapters|] == chapters;
    allChunks := SetTotals(allChunks, |allChunks|);
    EpubTotals(EpubPieces(tok, cfg, chapters), meta, allChunks);
  }

  /** One more chapter appends its chunks, numbered on from the chunks before it. */
  lemma EpubLoopStep(tok: Tokenizer, cfg: Config, chapters: seq<(string, string)>, c: nat, meta: ChunkMeta)
    requires cfg.Valid() && c < |chapters|
    ensures var before := EpubPieces(tok, cfg, chapters[..c]);
      EpubChunks(EpubPieces(tok, cfg, chapters[..c + 1]), 0, -1, meta)
      == EpubChunks(before, 0, -1, meta) + EpubChunks(EpubPieces(tok, cfg, [chapters[c]]), |before|, -1, meta)
  {
    assert chapters[..c + 1] == chapters[..c] + [chapters[c]];
    EpubPiecesConcat(tok, cfg, chapters[..c], [chapters[c]]);
    EpubChunksAppend(EpubPieces(tok, cfg, chapters[..c]), EpubPieces(tok, cfg, [chapters[c]]), -1, meta);
  }

  /** Backfilling the count into chunks numbered with total -1 gives the final chunks. */
  lemma EpubTotals(pieces: seq<(string, string)>, meta: ChunkMeta, r: seq<Chunk>)
    requires |r| == |pieces|
    requires forall j :: 0 <= j < |r| ==> r[j] == EpubChunks(pieces, 0, -1, meta)[j].(totalChunks := |pieces|)
    ensures r == EpubChunks(pieces, 0, |pieces|, meta)
  {
  }

  /** The body of the chapter loop of `chunk_epub`: the chunks of one chapter, numbered
      from `chunkIndex`, with the total still unknown (-1). */
  method ChunkChapter(tok: Tokenizer, cfg: Config, chapter: (string, string), chunkIndex: int, meta: ChunkMeta)
    returns (chunks: seq<Chunk>)
    requires cfg.Valid()
    ensures chunks == EpubChunks(EpubPieces(tok, cfg, [chapter]), chunkIndex, -1, meta)
  {
    var (chapterTitle, chapterText) := chapter;
    assert [chapter][1..] == [];
    chunks := [];
    if IsBlank(chapterText) {
      return;
    }
    var tokenCount := Count(tok, chapterText);
    var chapterMeta := meta.(chapter := Some(chapterTitle));
    if tokenCount <= cfg.chunkSize {
      chunks := [MakeChunk(chapterText, chunkIndex, -1, chapterMeta)];
    } else {
      var subChunks := SplitAtBoundaries(tok, chapterText, SectionSeparators + [BlankLine], cfg.chunkSize, cfg.overlap);
      chunks := ChapterChunks(subChunks, chapterTitle, chunkIndex, meta);
    }
  }

  /** The inner loop of `chunk_epub`: one chunk per piece of a long chapter, numbered on
      from `chunkIndex`. */
  method ChapterChunks(subChunks: seq<string>, chapterTitle: string, chunkIndex: int, meta: ChunkMeta)
    returns (chunks: seq<Chunk>)
    ensures chunks == EpubChunks(Titled(chapterTitle, subChunks), chunkIndex, -1, meta)
  {
    var chapterMeta := meta.(chapter := Some(chapterTitle));
    chunks := [];
    for s := 0 to |subChunks|
      invariant |chunks| == s
      invariant forall j :: 0 <= j < s ==> chunks[j] == MakeChunk(subChunks[j], chunkIndex + j, -1, chapterMeta)
    {
      chunks := chunks + [MakeChunk(subChunks[s], chunkIndex + s, -1, chapterMeta)];
    }
  }

  /** The backfill loop of `chunk_epub`: every chunk gets the same total. */
  method SetTotals(chunks: seq<Chunk>, total: int) returns (r: seq<Chunk>)
    ensures |r| == |chunks|
    ensures forall j :: 0 <= j < |r| ==> r[j] == chunks[j].(totalChunks := total)
  {
    r := chunks;
    for i := 0 to |r|
      invariant |r| == |chunks|
      invariant forall j :: 0 <= j < i ==> r[j] == chunks[j].(totalChunks := total)
      invariant forall j :: i <= j < |r| ==> r[j] == chunks[j]
    {
      r := r[i := r[i].(totalChunks := total)];
    }
  }

  /** Chapters contribute their pieces in chapter order. */
  lemma {:induction false} EpubPiecesConcat(tok: Tokenizer, cfg: Config, a: seq<(string, string)>, b: seq<(string, string)>)
    requires cfg.Valid()
    ensures EpubPieces(tok, cfg, a + b) == EpubPieces(tok, cfg, a) + EpubPieces(tok, cfg, b)
  {
    if a != [] {
      var head := ChapterPieces(tok, cfg, a[0]);
      assert (a + b)[0] == a[0] && (a + b)[1..] == a[1..] + b;
      assert EpubPieces(tok, cfg, a + b) == head + EpubPieces(tok, cfg, a[1..] + b);
      EpubPiecesConcat(tok, cfg, a[1..], b);
      assert head + (EpubPieces(tok, cfg, a[1..]) + EpubPieces(tok, cfg, b))
        == (head + EpubPieces(tok, cfg, a[1..])) + EpubPieces(tok, cfg, b);
    } else {
      assert a + b == b;
    }
  }

  /** A blank chapter gives no chunk; a non-blank chapter that fits the chunk size gives
      exactly one, carrying the whole chapter. */
  lemma EpubSingleChapter(tok: Tokenizer, cfg: Config, title: string, body: string)
    requires cfg.Valid()
    ensures IsBlank(body) ==> EpubPieces(tok, cfg, [(title, body)]) == []
    ensures !IsBlank(body) && Count(tok, body) <= cfg.chunkSize ==>
      EpubPieces(tok, cfg, [(title, body)]) == [(title, body)]
  {
    assert [(title, body)][1..] == [];
  }

  /** The note chunks: the note whole when it fits, else split at blank lines. */
  function NoteTexts(tok: Tokenizer, cfg: Config, text: string): seq<string>
    requires cfg.Valid()
  {
    if IsBlank(text) then []
    else if Count(tok, text) <= cfg.chunkSize then [text]
    else Boundaries(tok, cfg.chunkSize, cfg.overlap, text, [BlankLine])
  }

  /** `chunk_note`: the note's chunks, numbered by position, each with `source_type` set. */
  method ChunkNote(tok: Tokenizer, cfg: Config, text: string, meta: ChunkMeta, sourceType: string)
    returns (result: seq<Chunk>)
    requires cfg.Valid()
    ensures var texts := NoteTexts(tok, cfg, text);
      result == MakeChunks(texts, |texts|, meta.(sourceType := Some(sourceType)))
    ensures IsBlank(text) <==> result == []
    ensures !IsBlank(text) && Count(tok, text) <= cfg.chunkSize ==> |result| == 1 && result[0].text == Strip(text)
  {
    if IsBlank(text) {
      return [];
    }
    var noteMeta := meta.(sourceType := Some(sourceType));
    var tokenCount := Count(tok, text);
    if tokenCount <= cfg.chunkSize {
      return [MakeChunk(text, 0, 1, noteMeta)];
    }
    var chunks := SplitAtBoundaries(tok, text, [BlankLine], cfg.chunkSize, cfg.overlap);
    NoteNotEmpty(tok, cfg, text);
    result := MakeChunks(chunks, |chunks|, noteMeta);
  }

  /** A non-blank note over the chunk size yields at least one chunk. */
  lemma NoteNotEmpty(tok: Tokenizer, cfg: Config, text: string)
    requires cfg.Valid() && !IsBlank(text) && Count(tok, text) > cfg.chunkSize
    ensures |Boundaries(tok, cfg.chunkSize, cfg.overlap, text, [BlankLine])| >= 1
  {
    var segs := Segments(text, [BlankLine]);
    SegmentsShape(text, [BlankLine]);
    if segs == [text] {
      // the only segment is over budget, so it is cut into at least one window
      assert [text][1..] == [];
      WindowsOfTokens(tok.encode(text), cfg.chunkSize, cfg.overlap);
    } else {
      NonEmptyPack(tok, cfg.chunkSize, cfg.overlap, segs, "");
    }
  }

  /** Packing non-blank segments, at least one, yields a chunk. */
  lemma {:induction false} NonEmptyPack(tok: Tokenizer, size: nat, overlap: nat, segs: seq<string>, current: string)
    requires overlap < size && |segs| >= 1
    requires forall k :: 0 <= k < |segs| ==> !IsBlank(segs[k])
    ensures |PackFrom(tok, size, overlap, segs, current)| >= 1
  {
    var seg := segs[0];
    var combined := if current != "" then Strip(current + "\n\n" + seg) else seg;
    assert seg != "";
    if |segs| == 1 {
      assert segs[1..] == [];
      if Count(tok, combined) <= size {
        if current != "" {
          NonBlankJoin(current, seg);
        }
      } else if Count(tok, seg) > size {
        WindowsOfTokens(tok.encode(seg), size, overlap);
      }
    } else {
      if Count(tok, combined) > size && Count(tok, seg) > size {
        WindowsOfTokens(tok.encode(seg), size, overlap);
      }
      NonEmptyPack(tok, size, overlap, segs[1..], if Count(tok, combined) <= size then combined else if Count(tok, seg) > size then "" else seg);
    }
  }

  /** A text ending in a non-blank segment does not strip to nothing. */
  lemma NonBlankJoin(current: string, seg: string)
    requires !IsBlank(seg)
    ensures Strip(current + "\n\n" + seg) != ""
  {
    var s := current + "\n\n" + seg;
    var k :| 0 <= k < |seg| && !IsSpace(seg[k]);
    assert s[|current| + 2 + k] == seg[k];
    StripShape(s);
  }
}
