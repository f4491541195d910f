/** The indexing pipeline (src/indexer.py): the context header embedded with every
    chunk, the archive alias map, per-item chunking with its fallbacks, the batched
    embed-and-upsert pass, and the selection an incremental update makes. Downloads,
    text extraction, the embedding service and the vector store are inputs: the
    outcome of fetching an item's attachment, an embedding function, and the batches
    handed to the store. */
module Indexer {
  import opened Wrappers
  import opened Text
  import opened Records
  import opened Tokens
  import Pages
  import Chunker
  import Extractors
  import Zotero
  import Batches
  import VectorDb

  // ----- context header -----

  /** `heading` and the value as a one-line list when the value is set, else no line. */
  function Line(heading: string, value: string): seq<string> {
    if value != "" then [heading + value] else []
  }

  /** The header lines in their fixed order: title, authors, date, type, archive, location. */
  function HeaderLines(m: ItemMeta): seq<string> {
    Line("Title: ", m.title)
    + (if m.authors != [] then ["Authors: " + Join(m.authors, ", ")] else [])
    + Line("Date: ", m.date)
    + Line("Type: ", m.itemType)
    + Line("Archive: ", m.archive)
    + Line("Location: ", m.archiveLocation)
  }

  /** What `_build_context_header` returns. */
  function ContextHeader(m: ItemMeta): string {
    var lines := HeaderLines(m);
    if lines == [] then "" else Join(lines, "\n") + "\n---\n"
  }

  /** `_build_context_header`: appends one line per set field, then joins them. */
  method BuildContextHeader(m: ItemMeta) returns (header: string)
    ensures header == ContextHeader(m)
  {
    var parts: seq<string> := [];
    if m.title != "" {
      parts := parts + ["Title: " + m.title];
    }
    assert parts == Line("Title: ", m.title);
    if m.authors != [] {
      parts := parts + ["Authors: " + Join(m.authors, ", ")];
    }
    ghost var upTo := Line("Title: ", m.title) + (if m.authors != [] then ["Authors: " + Join(m.authors, ", ")] else []);
    assert parts == upTo;
    if m.date != "" {
      parts := parts + ["Date: " + m.date];
    }
    upTo := upTo + Line("Date: ", m.date);
    assert parts == upTo;
    if m.itemType != "" {
      parts := parts + ["Type: " + m.itemType];
    }
    upTo := upTo + Line("Type: ", m.itemType);
    assert parts == upTo;
    if m.archive != "" {
      parts := parts + ["Archive: " + m.archive];
    }
    upTo := upTo + Line("Archive: ", m.archive);
    assert parts == upTo;
    if m.archiveLocation != "" {
      parts := parts + ["Location: " + m.archiveLocation];
    }
    assert parts == HeaderLines(m);
    if parts == [] {
      return "";
    }
    header := Join(parts, "\n") + "\n---\n";
  }

  /** The header is empty exactly when none of the six fields is set. */
  lemma ContextHeaderEmpty(m: ItemMeta)
    ensures ContextHeader(m) == "" <==>
      m.title == "" && m.authors == [] && m.date == "" && m.itemType == "" && m.archive == "" && m.archiveLocation == ""
  {
  }

  /** A header with a title starts with the title line. */
  lemma ContextHeaderTitleFirst(m: ItemMeta)
    requires m.title != ""
    ensures StartsWith(ContextHeader(m), "Title: " + m.title + "\n")
  {
    var lines := HeaderLines(m);
    assert lines[0] == "Title: " + m.title;
    if |lines| == 1 {
      assert ContextHeader(m) == "Title: " + m.title + "\n" + "---\n";
    } else {
      JoinCons(lines[0], lines[1..], "\n");
      assert lines == [lines[0]] + lines[1..];
    }
  }

  /** Splitting at the first separator, found at `i`. */
  lemma SplitAt(s: string, c: char, i: nat)
    requires i < |s| && s[i] == c && c !in s[..i]
    ensures Split(s, c) == [s[..i]] + Split(s[i + 1..], c)
  {
    var k := IndexOf(s, c);
    assert forall j :: 0 <= j < i ==> s[j] != c by {
      forall j | 0 <= j < i ensures s[j] != c {
        assert s[..i][j] == s[j];
      }
    }
    assert forall j :: 0 <= j < k ==> s[j] != c by {
      forall j | 0 <= j < k ensures s[j] != c {
        assert s[..k][j] == s[j];
      }
    }
    assert k == i;
  }

  /** A first part free of `c` splits off at the first `c`. */
  lemma SplitCons(a: string, c: char, tail: string)
    requires c !in a
    ensures Split(a + [c] + tail, c) == [a] + Split(tail, c)
  {
    var s := a + [c] + tail;
    assert s[..|a|] == a && s[|a|] == c && s[|a| + 1..] == tail;
    SplitAt(s, c, |a|);
  }

  /** Joining parts free of `c` with `c` and splitting at `c` gives the parts back. */
  lemma {:induction false} SplitJoined(lines: seq<string>, c: char, rest: string)
    requires lines != []
    requires forall k :: 0 <= k < |lines| ==> c !in lines[k]
    ensures Split(Join(lines, [c]) + [c] + rest, c) == lines + Split(rest, c)
    decreases |lines|
  {
    if |lines| == 1 {
      assert Join(lines, [c]) == lines[0];
      SplitCons(lines[0], c, rest);
    } else {
      SplitJoined(lines[1..], c, rest);
      SplitJoinedStep(lines, c, rest);
    }
  }

  /** The inductive step of `SplitJoined`: one more part in front. */
  lemma SplitJoinedStep(lines: seq<string>, c: char, rest: string)
    requires |lines| > 1 && c !in lines[0]
    requires Split(Join(lines[1..], [c]) + [c] + rest, c) == lines[1..] + Split(rest, c)
    ensures Split(Join(lines, [c]) + [c] + rest, c) == lines + Split(rest, c)
  {
    var a := lines[0];
    var tail := Join(lines[1..], [c]) + [c] + rest;
    assert Join(lines, [c]) + [c] + rest == a + [c] + tail by {
      JoinCons(a, lines[1..], [c]);
      assert lines == [a] + lines[1..];
    }
    SplitCons(a, c, tail);
    assert lines == [a] + lines[1..];
  }

  /** The header's lines are recovered by splitting it at newlines, followed by the
      `---` terminator and an empty tail, provided no field holds a newline. */
  lemma ContextHeaderLines(m: ItemMeta)
    requires HeaderLines(m) != []
    requires forall k :: 0 <= k < |HeaderLines(m)| ==> '\n' !in HeaderLines(m)[k]
    ensures Split(ContextHeader(m), '\n') == HeaderLines(m) + ["---", ""]
  {
    var lines := HeaderLines(m);
    SplitTerminated(lines, '\n', "---");
    assert ContextHeader(m) == Join(lines, ['\n']) + ['\n'] + ("---" + ['\n']);
  }

  /** Lines free of `c`, joined by `c` and followed by `c`, a last part `d` free of `c`,
      and `c` again, split back into the lines, `d` and an empty tail. */
  lemma SplitTerminated(lines: seq<string>, c: char, d: string)
    requires lines != [] && c !in d
    requires forall k :: 0 <= k < |lines| ==> c !in lines[k]
    ensures Split(Join(lines, [c]) + [c] + (d + [c]), c) == lines + [d, ""]
  {
    SplitJoined(lines, c, d + [c]);
    SplitLast(d, c);
  }

  /** A part free of `c` followed by `c` splits into the part and an empty tail. */
  lemma SplitLast(d: string, c: char)
    requires c !in d
    ensures Split(d + [c], c) == [d, ""]
  {
    SplitCons(d, c, []);
    assert d + [c] + [] == d + [c];
    assert Split([], c) == [[]];
  }

  // ----- archive aliases -----

  /** Length of the run of ASCII capitals at the start of `s`. */
  function UpperRun(s: string): (n: nat)
    ensures n <= |s|
  {
    if s != [] && IsUpper(s[0]) then 1 + UpperRun(s[1..]) else 0
  }

  /** The index after the run of whitespace that starts at `i`. */
  function SkipSpaces(s: string, i: nat): (j: nat)
    requires i <= |s|
    ensures i <= j <= |s|
    decreases |s| - i
  {
    if i < |s| && IsSpace(s[i]) then SkipSpaces(s, i + 1) else i
  }

  /** Group 1 of `^([A-Z]{2,})\s*:` matched at the start of `name`, if it matches. The
      greedy run of capitals cannot back off usefully: a shorter run would leave a
      capital where whitespace or the colon must follow. */
  function Acronym(name: string): Option<string> {
    var n := UpperRun(name);
    var j := SkipSpaces(name, n);
    if n >= 2 && j < |name| && name[j] == ':' then Some(name[..n]) else None
  }

  /** The pattern read directly: `a` is two or more capitals that begin `name` and are
      followed by whitespace and a colon. */
  predicate MatchesAcronym(name: string, a: string) {
    && |a| >= 2
    && (forall i :: 0 <= i < |a| ==> IsUpper(a[i]))
    && exists j ::
      && |a| <= j < |name|
      && name[..|a|] == a
      && name[j] == ':'
      && (forall i :: |a| <= i < j ==> IsSpace(name[i]))
  }

  lemma {:induction false} UpperRunSpec(s: string)
    ensures forall i :: 0 <= i < UpperRun(s) ==> IsUpper(s[i])
    ensures UpperRun(s) < |s| ==> !IsUpper(s[UpperRun(s)])
  {
    if s != [] && IsUpper(s[0]) {
      UpperRunSpec(s[1..]);
      forall i | 0 < i < UpperRun(s) ensures IsUpper(s[i]) {
        assert s[i] == s[1..][i - 1];
      }
    }
  }

  lemma {:induction false} SkipSpacesSpec(s: string, i: nat)
    requires i <= |s|
    ensures forall k :: i <= k < SkipSpaces(s, i) ==> IsSpace(s[k])
    ensures SkipSpaces(s, i) < |s| ==> !IsSpace(s[SkipSpaces(s, i)])
    decreases |s| - i
  {
    if i < |s| && IsSpace(s[i]) {
      SkipSpacesSpec(s, i + 1);
    }
  }

  /** `Acronym` finds exactly the group the pattern matches. */
  lemma AcronymIff(name: string, a: string)
    ensures Acronym(name) == Some(a) <==> MatchesAcronym(name, a)
  {
    var n := UpperRun(name);
    UpperRunSpec(name);
    SkipSpacesSpec(name, n);
    if Acronym(name) == Some(a) {
      var j := SkipSpaces(name, n);
      assert a == name[..n];
      assert forall i :: 0 <= i < |a| ==> a[i] == name[i];
      assert |a| <= j < |name| && name[..|a|] == a && name[j] == ':';
    }
    if MatchesAcronym(name, a) {
      var j :| |a| <= j < |name| && name[..|a|] == a && name[j] == ':' && (forall i :: |a| <= i < j ==> IsSpace(name[i]));
      assert forall i :: 0 <= i < |a| ==> IsUpper(name[i]) by {
        forall i | 0 <= i < |a| ensures IsUpper(name[i]) {
          assert name[i] == a[i];
        }
      }
      assert !IsUpper(name[|a|]);
      assert n == |a|;
      assert !IsSpace(name[j]);
      assert SkipSpaces(name, n) == j;
    }
  }

  /** Entry `c` offers the alias `a`: its name has acronym `a` and its archive name is set. */
  predicate Contributes(c: Zotero.CollInfo, a: string) {
    Acronym(c.name) == Some(a) && c.archiveName.Some? && c.archiveName.value != ""
  }

  /** The alias map built from the tree's entries taken in the tree's order. */
  function Aliases(entries: seq<Zotero.CollInfo>): map<string, string>
    decreases |entries|
  {
    if entries == [] then map[]
    else
      var m := Aliases(entries[..|entries| - 1]);
      var c := entries[|entries| - 1];
      var a := Acronym(c.name);
      if a.Some? && c.archiveName.Some? && c.archiveName.value != "" && a.value !in m
      then m[a.value := c.archiveName.value]
      else m
  }

  /** `build_archive_aliases` without the file write: one pass, first mapping wins. */
  method BuildArchiveAliases(entries: seq<Zotero.CollInfo>) returns (aliases: map<string, string>)
    ensures aliases == Aliases(entries)
  {
    aliases := map[];
    for i := 0 to |entries|
      invariant aliases == Aliases(entries[..i])
    {
      var ct := entries[i];
      var acronym := Acronym(ct.name);
      assert entries[..i + 1][..i] == entries[..i];
      if acronym.Some? && ct.archiveName.Some? && ct.archiveName.value != "" {
        if acronym.value !in aliases {
          aliases := aliases[acronym.value := ct.archiveName.value];
        }
      }
    }
    assert entries[..|entries|] == entries;
  }

  /** An acronym is mapped exactly when some entry offers it. */
  lemma {:induction false} AliasesKeys(entries: seq<Zotero.CollInfo>, a: string)
    ensures a in Aliases(entries) <==> exists i :: 0 <= i < |entries| && Contributes(entries[i], a)
    decreases |entries|
  {
    if entries != [] {
      var init := entries[..|entries| - 1];
      AliasesKeys(init, a);
      if exists i :: 0 <= i < |init| && Contributes(init[i], a) {
        var i :| 0 <= i < |init| && Contributes(init[i], a);
        assert entries[i] == init[i];
      }
      if exists i :: 0 <= i < |entries| && Contributes(entries[i], a) {
        var i :| 0 <= i < |entries| && Contributes(entries[i], a);
        if i < |init| {
          assert init[i] == entries[i];
        }
      }
    }
  }

  /** The first entry that offers an acronym decides its archive. */
  lemma {:induction false} AliasesFirstWins(entries: seq<Zotero.CollInfo>, a: string, i: nat)
    requires i < |entries| && Contributes(entries[i], a)
    requires forall j :: 0 <= j < i ==> !Contributes(entries[j], a)
    ensures a in Aliases(entries) && Aliases(entries)[a] == entries[i].archiveName.value
    decreases |entries|
  {
    var init := entries[..|entries| - 1];
    if i < |init| {
      assert init[i] == entries[i];
      AliasesFirstWins(init, a, i);
    } else {
      AliasesKeys(init, a);
      assert forall j :: 0 <= j < |init| ==> init[j] == entries[j];
    }
  }

  // ----- one item -----

  /** What downloading the chosen attachment and extracting its text produced: the text
      and page count of a PDF, the `(title, text)` chapters of an EPUB, the text of a
      snapshot, or an exception from the download or the extractor. */
  datatype Fetched =
    | PdfText(text: string, pageCount: int)
    | EpubChapters(chapters: seq<(string, string)>)
    | HtmlText(text: string)
    | Failed

  /** An item together with what the library returns for it: its child attachments,
      and the outcome of fetching the one selection picks. */
  datatype Source = Source(item: Item, attachments: seq<Attachment>, fetched: Fetched)

  /** The title `process_item` uses: the stripped title, or a placeholder naming the
      type and date when it is empty. */
  function ItemTitle(m: ItemMeta): string {
    if m.title != "" then m.title else "[Untitled " + m.itemType + ", " + m.date + "]"
  }

  /** The item's metadata with that title. */
  function TitledMeta(item: Item): ItemMeta {
    var m := Extractors.ItemMetadata(item);
    m.(title := ItemTitle(m))
  }

  /** The text of the single chunk an item with neither attachment nor abstract gets. */
  function FallbackText(m: ItemMeta): string {
    m.title + ". " + Join(m.authors, ", ") + ". " + m.date + "."
    + (if m.archive != "" then " " + m.archive + "." else "")
    + (if m.tags != [] then " Tags: " + Join(m.tags, ", ") + "." else "")
  }

  /** The chunks `chunk_document(text, item_type, meta)` returns. */
  function DocChunks(tok: Tokenizer, cfg: Config, text: string, itemType: string, meta: ChunkMeta): seq<Chunk>
    requires cfg.Valid()
  {
    var texts := Chunker.DocumentTexts(tok, cfg, text, itemType);
    Pages.Assigned(Chunker.MakeChunks(texts, |texts|, meta), Pages.RemoveFF(text), Pages.PageOffsets(text, 1), Pages.PageMap(text))
  }

  /** The chunks `chunk_epub(chapters, meta)` returns. */
  function EpubDocChunks(tok: Tokenizer, cfg: Config, chapters: seq<(string, string)>, meta: ChunkMeta): seq<Chunk>
    requires cfg.Valid()
  {
    var pieces := Chunker.EpubPieces(tok, cfg, chapters);
    Chunker.EpubChunks(pieces, 0, |pieces|, meta)
  }

  /** The PDF branch: the fetched text chunked as a document, with the attachment key,
      type and page count added to the metadata; nothing if the text is blank or the
      download or extraction failed. */
  function PdfBranch(tok: Tokenizer, cfg: Config, fetched: Fetched, key: string, itemType: string, meta: ChunkMeta): seq<Chunk>
    requires cfg.Valid()
  {
    match fetched
    case PdfText(text, pageCount) =>
      if IsBlank(text) then []
      else DocChunks(tok, cfg, text, itemType, meta.(attachmentKey := Some(key), attachmentType := Some("pdf"), pageCount := Some(pageCount)))
    case _ => []
  }

  /** The EPUB branch: the chapters chunked, with the attachment key and type added. */
  function EpubBranch(tok: Tokenizer, cfg: Config, fetched: Fetched, key: string, meta: ChunkMeta): seq<Chunk>
    requires cfg.Valid()
  {
    match fetched
    case EpubChapters(chapters) =>
      if chapters == [] then []
      else EpubDocChunks(tok, cfg, chapters, meta.(attachmentKey := Some(key), attachmentType := Some("epub")))
    case _ => []
  }

  /** The snapshot branch: the page text chunked as a document. */
  function SnapshotBranch(tok: Tokenizer, cfg: Config, fetched: Fetched, itemType: string, meta: ChunkMeta): seq<Chunk>
    requires cfg.Valid()
  {
    match fetched
    case HtmlText(text) => if IsBlank(text) then [] else DocChunks(tok, cfg, text, itemType, meta)
    case _ => []
  }

  /** No attachment: the abstract chunked as a document, or one chunk of metadata text. */
  function FallbackBranch(tok: Tokenizer, cfg: Config, itemType: string, meta: ChunkMeta): seq<Chunk>
    requires cfg.Valid()
  {
    if meta.item.abstractNote != "" then DocChunks(tok, cfg, meta.item.abstractNote, itemType, meta)
    else [Chunk(FallbackText(meta.item), 0, 1, meta)]
  }

  /** The chunks `process_item` returns for a source. A fetched outcome of another
      kind than the selected attachment's counts as a failed extraction. */
  function ItemChunks(tok: Tokenizer, cfg: Config, s: Source): seq<Chunk>
    requires cfg.Valid()
  {
    var meta := PlainMeta(TitledMeta(s.item));
    var itemType := s.item.data.itemType;
    var best := Extractors.BestAttachment(s.attachments);
    if best.Some? && best.value.kind == "pdf" then PdfBranch(tok, cfg, s.fetched, best.value.att.key, itemType, meta)
    else if best.Some? && best.value.kind == "epub" then EpubBranch(tok, cfg, s.fetched, best.value.att.key, meta)
    else if best.Some? && best.value.kind == "snapshot" then SnapshotBranch(tok, cfg, s.fetched, itemType, meta)
    else FallbackBranch(tok, cfg, itemType, meta)
  }

  /** `process_item`: metadata and title, attachment selection, then the branch for the
      selected kind, or the abstract, or a single metadata chunk. */
  method ProcessItem(tok: Tokenizer, cfg: Config, s: Source) returns (chunks: seq<Chunk>)
    requires cfg.Valid()
    ensures chunks == ItemChunks(tok, cfg, s)
  {
    var metadata := Extractors.ExtractItemMetadata(s.item);
    var itemType := s.item.data.itemType;
    var title := if metadata.title != "" then metadata.title else "[Untitled " + itemType + ", " + metadata.date + "]";
    metadata := metadata.(title := title);
    var meta := PlainMeta(metadata);
    var best := Extractors.SelectBestAttachment(s.attachments);
    if best.Some? && best.value.kind == "pdf" {
      chunks := ProcessPdf(tok, cfg, s.fetched, best.value.att.key, itemType, meta);
    } else if best.Some? && best.value.kind == "epub" {
      chunks := ProcessEpub(tok, cfg, s.fetched, best.value.att.key, meta);
    } else if best.Some? && best.value.kind == "snapshot" {
      chunks := ProcessSnapshot(tok, cfg, s.fetched, itemType, meta);
    } else {
      chunks := ProcessFallback(tok, cfg, itemType, meta);
    }
  }

  method ProcessPdf(tok: Tokenizer, cfg: Config, fetched: Fetched, key: string, itemType: string, meta: ChunkMeta)
    returns (chunks: seq<Chunk>)
    requires cfg.Valid()
    ensures chunks == PdfBranch(tok, cfg, fetched, key, itemType, meta)
  {
    chunks := [];
    match fetched {
      case PdfText(text, pageCount) =>
        if !IsBlank(text) {
          var pdfMeta := meta.(attachmentKey := Some(key), attachmentType := Some("pdf"), pageCount := Some(pageCount));
          chunks := Chunker.ChunkDocument(tok, cfg, text, itemType, pdfMeta);
        }
      case _ =>
    }
  }

  method ProcessEpub(tok: Tokenizer, cfg: Config, fetched: Fetched, key: string, meta: ChunkMeta)
    returns (chunks: seq<Chunk>)
    requires cfg.Valid()
    ensures chunks == EpubBranch(tok, cfg, fetched, key, meta)
  {
    chunks := [];
    match fetched {
      case EpubChapters(chapters) =>
        if chapters != [] {
          var epubMeta := meta.(attachmentKey := Some(key), attachmentType := Some("epub"));
          chunks := Chunker.ChunkEpub(tok, cfg, chapters, epubMeta);
        }
      case _ =>
    }
  }

  method ProcessSnapshot(tok: Tokenizer, cfg: Config, fetched: Fetched, itemType: string, meta: ChunkMeta)
    returns (chunks: seq<Chunk>)
    requires cfg.Valid()
    ensures chunks == SnapshotBranch(tok, cfg, fetched, itemType, meta)
  {
    chunks := [];
    match fetched {
      case HtmlText(text) =>
        if !IsBlank(text) {
          chunks := Chunker.ChunkDocument(tok, cfg, text, itemType, meta);
        }
      case _ =>
    }
  }

  method ProcessFallback(tok: Tokenizer, cfg: Config, itemType: string, meta: ChunkMeta)
    returns (chunks: seq<Chunk>)
    requires cfg.Valid()
    ensures chunks == FallbackBranch(tok, cfg, itemType, meta)
  {
    var metadata := meta.item;
    var abstractText := metadata.abstractNote;
    if abstractText != "" {
      chunks := Chunker.ChunkDocument(tok, cfg, abstractText, itemType, meta);
    } else {
      var metaText := metadata.title + ". " + Join(metadata.authors, ", ") + ". " + metadata.date + ".";
      ghost var base := metaText;
      if metadata.archive != "" {
        metaText := metaText + " " + metadata.archive + ".";
      }
      assert metaText == base + (if metadata.archive != "" then " " + metadata.archive + "." else "");
      ghost var withArchive := metaText;
      if metadata.tags != [] {
        metaText := metaText + " Tags: " + Join(metadata.tags, ", ") + ".";
      }
      assert metaText == withArchive + (if metadata.tags != [] then " Tags: " + Join(metadata.tags, ", ") + "." else "");
      chunks := [Chunk(metaText, 0, 1, meta)];
    }
  }

  /** The title an item is indexed under is never empty: it is the stripped title when
      there is one and the placeholder otherwise; no other field changes. */
  lemma TitledMetaSpec(item: Item)
    ensures TitledMeta(item).title != ""
    ensures Strip(item.data.title) != "" ==> TitledMeta(item).title == Strip(item.data.title)
    ensures Strip(item.data.title) == "" ==>
      TitledMeta(item).title == "[Untitled " + item.data.itemType + ", " + item.data.date + "]"
    ensures TitledMeta(item).(title := Extractors.ItemMetadata(item).title) == Extractors.ItemMetadata(item)
  {
  }

  /** Document chunks are numbered by position, carry the count as total, and keep the
      metadata they were given apart from the page keys. */
  lemma DocChunksNumbered(tok: Tokenizer, cfg: Config, text: string, itemType: string, meta: ChunkMeta)
    requires cfg.Valid()
    ensures var r := DocChunks(tok, cfg, text, itemType, meta);
      forall i :: 0 <= i < |r| ==>
        && r[i].chunkIndex == i && r[i].totalChunks == |r|
        && r[i].meta.(pageStart := None, pageEnd := None, pdfPage := None) == meta.(pageStart := None, pageEnd := None, pdfPage := None)
  {
    var texts := Chunker.DocumentTexts(tok, cfg, text, itemType);
    var made := Chunker.MakeChunks(texts, |texts|, meta);
    Pages.AssignedKeeps(made, Pages.RemoveFF(text), Pages.PageOffsets(text, 1), Pages.PageMap(text));
  }

  /** EPUB chunks likewise, each also carrying its chapter title. */
  lemma EpubDocChunksNumbered(tok: Tokenizer, cfg: Config, chapters: seq<(string, string)>, meta: ChunkMeta)
    requires cfg.Valid()
    ensures var r := EpubDocChunks(tok, cfg, chapters, meta);
      forall i :: 0 <= i < |r| ==>
        && r[i].chunkIndex == i && r[i].totalChunks == |r|
        && r[i].meta.chapter.Some? && r[i].meta.(chapter := None) == meta.(chapter := None)
  {
  }

  /** Every chunk of an item is numbered by its position among the item's chunks, has
      their count as total, and carries the item's metadata under its indexed title. */
  lemma ItemChunksNumbered(tok: Tokenizer, cfg: Config, s: Source)
    requires cfg.Valid()
    ensures var r := ItemChunks(tok, cfg, s);
      forall i :: 0 <= i < |r| ==> r[i].chunkIndex == i && r[i].totalChunks == |r| && r[i].meta.item == TitledMeta(s.item)
  {
    var meta := PlainMeta(TitledMeta(s.item));
    var itemType := s.item.data.itemType;
    var best := Extractors.BestAttachment(s.attachments);
    if best.Some? && best.value.kind == "pdf" {
      match s.fetched {
        case PdfText(text, pageCount) =>
          DocChunksNumbered(tok, cfg, text, itemType, meta.(attachmentKey := Some(best.value.att.key), attachmentType := Some("pdf"), pageCount := Some(pageCount)));
        case _ =>
      }
    } else if best.Some? && best.value.kind == "epub" {
      match s.fetched {
        case EpubChapters(chapters) =>
          EpubDocChunksNumbered(tok, cfg, chapters, meta.(attachmentKey := Some(best.value.att.key), attachmentType := Some("epub")));
        case _ =>
      }
    } else if best.Some? && best.value.kind == "snapshot" {
      match s.fetched {
        case HtmlText(text) => DocChunksNumbered(tok, cfg, text, itemType, meta);
        case _ =>
      }
    } else if meta.item.abstractNote != "" {
      DocChunksNumbered(tok, cfg, meta.item.abstractNote, itemType, meta);
    }
  }

  /** An item with no usable attachment and no abstract gets exactly one chunk, index 0
      of 1, whose text starts with the (never empty) title. */
  lemma FallbackSingleChunk(tok: Tokenizer, cfg: Config, s: Source)
    requires cfg.Valid()
    requires Extractors.BestAttachment(s.attachments) == None && s.item.data.abstractNote == ""
    ensures var r := ItemChunks(tok, cfg, s);
      && |r| == 1 && r[0].chunkIndex == 0 && r[0].totalChunks == 1
      && r[0].meta == PlainMeta(TitledMeta(s.item))
      && r[0].meta.item.title != ""
      && StartsWith(r[0].text, r[0].meta.item.title + ". ")
  {
    var m := TitledMeta(s.item);
    assert ItemChunks(tok, cfg, s) == FallbackBranch(tok, cfg, s.item.data.itemType, PlainMeta(m));
    TitledMetaSpec(s.item);
    FallbackTextTitle(m);
  }

  /** The metadata text starts with the title and a full stop. */
  lemma FallbackTextTitle(m: ItemMeta)
    ensures StartsWith(FallbackText(m), m.title + ". ")
  {
    var p := m.title + ". ";
    var s := p + Join(m.authors, ", ");
    assert s[..|p|] == p;
    StartsWithAppend(s, ". ", p);
    StartsWithAppend(s + ". ", m.date, p);
    StartsWithAppend(s + ". " + m.date, ".", p);
    var t := s + ". " + m.date + ".";
    var archive := if m.archive != "" then " " + m.archive + "." else "";
    StartsWithAppend(t, archive, p);
    StartsWithAppend(t + archive, if m.tags != [] then " Tags: " + Join(m.tags, ", ") + "." else "", p);
  }

  /** When an attachment is selected but fetching or extracting it fails, the item gets
      no chunks at all: the abstract and metadata fallbacks are only for items without
      an attachment. */
  lemma FailedAttachmentSkips(tok: Tokenizer, cfg: Config, s: Source)
    requires cfg.Valid()
    requires Extractors.BestAttachment(s.attachments).Some? && s.fetched == Failed
    ensures ItemChunks(tok, cfg, s) == []
  {
    Extractors.BestAttachmentSpec(s.attachments);
  }

  /** Chunks of a selected PDF record its key, the type `pdf` and the page count. */
  lemma PdfChunksTagged(tok: Tokenizer, cfg: Config, s: Source)
    requires cfg.Valid()
    requires Extractors.BestAttachment(s.attachments).Some? && Extractors.BestAttachment(s.attachments).value.kind == "pdf"
    requires s.fetched.PdfText?
    ensures forall c :: c in ItemChunks(tok, cfg, s) ==>
      && c.meta.attachmentKey == Some(Extractors.BestAttachment(s.attachments).value.att.key)
      && c.meta.attachmentType == Some("pdf") && c.meta.pageCount == Some(s.fetched.pageCount)
  {
    var meta := PlainMeta(TitledMeta(s.item));
    var best := Extractors.BestAttachment(s.attachments).value;
    var pdfMeta := meta.(attachmentKey := Some(best.att.key), attachmentType := Some("pdf"), pageCount := Some(s.fetched.pageCount));
    DocChunksNumbered(tok, cfg, s.fetched.text, s.item.data.itemType, pdfMeta);
  }

  // ----- indexing a list of items -----

  /** The chunks of the sources one after another, in source order. */
  function AllChunks(tok: Tokenizer, cfg: Config, sources: seq<Source>): seq<Chunk>
    requires cfg.Valid()
    decreases |sources|
  {
    if sources == [] then []
    else AllChunks(tok, cfg, sources[..|sources| - 1]) + ItemChunks(tok, cfg, sources[|sources| - 1])
  }

  /** How many sources yield at least one chunk. */
  function Processed(tok: Tokenizer, cfg: Config, sources: seq<Source>): nat
    requires cfg.Valid()
    decreases |sources|
  {
    if sources == [] then 0
    else Processed(tok, cfg, sources[..|sources| - 1]) + (if ItemChunks(tok, cfg, sources[|sources| - 1]) != [] then 1 else 0)
  }

  /** The text embedded for a chunk: its context header, then its text. */
  function EmbedText(c: Chunk): string {
    ContextHeader(c.meta.item) + c.text
  }

  function EmbedTexts(batch: seq<Chunk>): seq<string> {
    seq(|batch|, k requires 0 <= k < |batch| => EmbedText(batch[k]))
  }

  /** The vector id of a chunk: `{zotero_key}_c{chunk_index}`. */
  function ChunkId(c: Chunk): string {
    c.meta.item.zoteroKey + "_c" + IntToString(c.chunkIndex)
  }

  function OrZero(v: Option<int>): int {
    if v.Some? then v.value else 0
  }

  /** A dictionary built from its entries in order; a later entry overrides an earlier
      one with the same key, as in a Python dict display. */
  function ToMap(entries: seq<(string, Value)>): map<string, Value>
    decreases |entries|
  {
    if entries == [] then map[]
    else ToMap(entries[..|entries| - 1])[entries[|entries| - 1].0 := entries[|entries| - 1].1]
  }

  /** The keys of the dictionary are the keys of the entries. */
  lemma {:induction false} ToMapKeys(entries: seq<(string, Value)>, k: string)
    ensures k in ToMap(entries) <==> exists i :: 0 <= i < |entries| && entries[i].0 == k
    decreases |entries|
  {
    if entries != [] {
      var init := entries[..|entries| - 1];
      ToMapKeys(init, k);
      assert forall i :: 0 <= i < |init| ==> init[i] == entries[i];
    }
  }

  /** An entry whose key no later entry repeats gives that key its value. */
  lemma {:induction false} ToMapGet(entries: seq<(string, Value)>, i: nat)
    requires i < |entries|
    requires forall j :: i < j < |entries| ==> entries[j].0 != entries[i].0
    ensures entries[i].0 in ToMap(entries) && ToMap(entries)[entries[i].0] == entries[i].1
    decreases |entries|
  {
    if i < |entries| - 1 {
      var init := entries[..|entries| - 1];
      assert init[i] == entries[i];
      assert forall j :: i < j < |init| ==> init[j] == entries[j];
      ToMapGet(init, i);
    }
  }

  /** The entries of the flat metadata stored with a chunk's vector, in the order the
      dictionary lists them; the attachment key, attachment type and chapter only when set. */
  function MetaEntries(c: Chunk): seq<(string, Value)> {
    var m := c.meta.item;
    [("text", StrValue(Take(c.text, 2000))),
     ("zotero_key", StrValue(m.zoteroKey)),
     ("title", StrValue(m.title)),
     ("authors", StrList(m.authors)),
     ("item_type", StrValue(m.itemType)),
     ("date", StrValue(m.date)),
     ("archive", StrValue(m.archive)),
     ("archive_location", StrValue(m.archiveLocation)),
     ("tags", StrList(m.tags)),
     ("collections", StrList(m.collections)),
     ("archive_collection", StrValue(m.archiveCollection)),
     ("chunk_index", IntValue(c.chunkIndex)),
     ("total_chunks", IntValue(c.totalChunks)),
     ("source_type", StrValue(if c.meta.sourceType.Some? then c.meta.sourceType.value else "document")),
     ("page_start", IntValue(OrZero(c.meta.pageStart))),
     ("page_end", IntValue(OrZero(c.meta.pageEnd))),
     ("page_count", IntValue(OrZero(c.meta.pageCount))),
     ("pdf_page", IntValue(OrZero(c.meta.pdfPage)))]
    + (if c.meta.attachmentKey.Some? then [("attachment_key", StrValue(c.meta.attachmentKey.value))] else [])
    + (if c.meta.attachmentType.Some? then [("attachment_type", StrValue(c.meta.attachmentType.value))] else [])
    + (if c.meta.chapter.Some? then [("chapter", StrValue(c.meta.chapter.value))] else [])
  }

  /** The flat metadata stored with a chunk's vector, before cleaning. */
  function FlatMeta(c: Chunk): map<string, Value> {
    ToMap(MetaEntries(c))
  }

  /** The stored text is the chunk's first 2000 characters. */
  lemma FlatMetaText(c: Chunk)
    ensures "text" in FlatMeta(c) && FlatMeta(c)["text"] == StrValue(Take(c.text, 2000))
  {
    var es := MetaEntries(c);
    assert forall j :: 0 < j < |es| ==> es[j].0 != "text";
    ToMapGet(es, 0);
  }

  /** Without a source type the stored one is `document`. */
  lemma FlatMetaSourceType(c: Chunk)
    ensures "source_type" in FlatMeta(c)
    ensures FlatMeta(c)["source_type"]
      == StrValue(if c.meta.sourceType.Some? then c.meta.sourceType.value else "document")
  {
    var es := MetaEntries(c);
    assert es[13].0 == "source_type";
    assert forall j :: 13 < j < |es| ==> es[j].0 != "source_type";
    ToMapGet(es, 13);
  }

  /** The attachment key is stored exactly when the chunk has one. */
  lemma FlatMetaAttachmentKey(c: Chunk)
    ensures "attachment_key" in FlatMeta(c) <==> c.meta.attachmentKey.Some?
  {
    var es := MetaEntries(c);
    ToMapKeys(es, "attachment_key");
    if c.meta.attachmentKey.Some? {
      assert es[18].0 == "attachment_key";
    } else {
      assert forall j :: 0 <= j < |es| ==> es[j].0 != "attachment_key";
    }
  }

  /** The `(chunk_id, embedding, flat_meta)` triple of one chunk. */
  function ToVector(c: Chunk, embedding: seq<real>): VectorDb.Vector {
    VectorDb.Vector(ChunkId(c), embedding, FlatMeta(c))
  }

  /** `zip(batch, embeddings)` turned into triples: the shorter of the two decides
      how many there are. */
  function Zipped(batch: seq<Chunk>, embeddings: seq<seq<real>>): seq<VectorDb.Vector> {
    Batches.Zip(batch, embeddings, ToVector)
  }

  /** The upsert batches one embedding batch produces. */
  function BatchUpserts(batch: seq<Chunk>, embed: seq<string> -> seq<seq<real>>): seq<seq<VectorDb.Vector>> {
    Batches.Batches(VectorDb.CleanAll(Zipped(batch, embed(EmbedTexts(batch)))), VectorDb.BatchSize)
  }

  /** The upsert batches of all embedding batches, in order. */
  function Upserts(batches: seq<seq<Chunk>>, embed: seq<string> -> seq<seq<real>>): seq<seq<VectorDb.Vector>> {
    if batches == [] then [] else BatchUpserts(batches[0], embed) + Upserts(batches[1..], embed)
  }

  /** The ids of a sequence of vectors. */
  function Ids(vs: seq<VectorDb.Vector>): seq<string> {
    seq(|vs|, k requires 0 <= k < |vs| => vs[k].id)
  }

  /** The vector ids of a sequence of chunks. */
  function ChunkIds(cs: seq<Chunk>): seq<string> {
    seq(|cs|, k requires 0 <= k < |cs| => ChunkId(cs[k]))
  }

  /** When the embedding service answers every text, the upserts of one embedding
      batch carry the ids of its chunks, in order. */
  lemma BatchIds(b: seq<Chunk>, embed: seq<string> -> seq<seq<real>>)
    requires |embed(EmbedTexts(b))| == |b|
    ensures Ids(Batches.Concat(BatchUpserts(b, embed))) == ChunkIds(b)
  {
    var z := Zipped(b, embed(EmbedTexts(b)));
    VectorDb.UpsertCovers(z);
    assert forall k :: 0 <= k < |z| ==> z[k] == ToVector(b[k], embed(EmbedTexts(b))[k]);
  }

  /** The ids of two sequences of vectors one after the other. */
  lemma IdsAppend(a: seq<VectorDb.Vector>, b: seq<VectorDb.Vector>)
    ensures Ids(a + b) == Ids(a) + Ids(b)
  {
  }

  /** The vector ids of two sequences of chunks one after the other. */
  lemma ChunkIdsAppend(a: seq<Chunk>, b: seq<Chunk>)
    ensures ChunkIds(a + b) == ChunkIds(a) + ChunkIds(b)
  {
  }

  /** Under the same condition the upserts of a list of batches carry the ids of all
      their chunks, each once and in order. */
  lemma {:induction false} UpsertsIds(bs: seq<seq<Chunk>>, embed: seq<string> -> seq<seq<real>>)
    requires forall ts :: |embed(ts)| == |ts|
    ensures Ids(Batches.Concat(Upserts(bs, embed))) == ChunkIds(Batches.Concat(bs))
  {
    if bs != [] {
      var head := BatchUpserts(bs[0], embed);
      var tail := Upserts(bs[1..], embed);
      assert Upserts(bs, embed) == head + tail;
      BatchIds(bs[0], embed);
      UpsertsIds(bs[1..], embed);
      Batches.ConcatAppend(head, tail);
      IdsAppend(Batches.Concat(head), Batches.Concat(tail));
      ChunkIdsAppend(bs[0], Batches.Concat(bs[1..]));
    }
  }

  /** Every chunk of `index_items` is upserted exactly once, under its own id, in order. */
  lemma IndexedIds(all: seq<Chunk>, batchSize: nat, embed: seq<string> -> seq<seq<real>>)
    requires batchSize > 0
    requires forall ts :: |embed(ts)| == |ts|
    ensures Ids(Batches.Concat(Upserts(Batches.Batches(all, batchSize), embed))) == ChunkIds(all)
  {
    UpsertsIds(Batches.Batches(all, batchSize), embed);
    Batches.BatchesConcat(all, batchSize);
  }

  /** `index_items`: chunk every item, counting the ones with and without chunks, then
      embed the chunks in consecutive batches of `batchSize` and upsert each batch.
      `embed` stands for the embedding service, `sent` for the store's upsert calls. */
  method IndexItems(tok: Tokenizer, cfg: Config, sources: seq<Source>, batchSize: nat, embed: seq<string> -> seq<seq<real>>)
    returns (processed: nat, skipped: nat, allChunks: seq<Chunk>, sent: seq<seq<VectorDb.Vector>>)
    requires cfg.Valid() && batchSize > 0
    ensures processed + skipped == |sources|
    ensures processed == Processed(tok, cfg, sources)
    ensures allChunks == AllChunks(tok, cfg, sources)
    ensures sent == Upserts(Batches.Batches(allChunks, batchSize), embed)
  {
    processed, skipped, allChunks := ChunkItems(tok, cfg, sources);
    sent := [];
    if allChunks == [] {
      return;
    }
    sent := EmbedAll(allChunks, batchSize, embed);
  }

  /** The item loop of `index_items`. */
  method ChunkItems(tok: Tokenizer, cfg: Config, sources: seq<Source>)
    returns (processed: nat, skipped: nat, allChunks: seq<Chunk>)
    requires cfg.Valid()
    ensures processed + skipped == |sources|
    ensures processed == Processed(tok, cfg, sources)
    ensures allChunks == AllChunks(tok, cfg, sources)
  {
    allChunks := [];
    processed, skipped := 0, 0;
    for i := 0 to |sources|
      invariant processed + skipped == i
      invariant processed == Processed(tok, cfg, sources[..i])
      invariant allChunks == AllChunks(tok, cfg, sources[..i])
    {
      var chunks := ProcessItem(tok, cfg, sources[i]);
      assert sources[..i + 1][..i] == sources[..i];
      if chunks != [] {
        allChunks := allChunks + chunks;
        processed := processed + 1;
      } else {
        skipped := skipped + 1;
      }
    }
    assert sources[..|sources|] == sources;
  }

  /** The batch loop of `index_items`. */
  method EmbedAll(allChunks: seq<Chunk>, batchSize: nat, embed: seq<string> -> seq<seq<real>>)
    returns (sent: seq<seq<VectorDb.Vector>>)
    requires batchSize > 0
    ensures sent == Upserts(Batches.Batches(allChunks, batchSize), embed)
  {
    sent := [];
    var batchStart := 0;
    assert allChunks[0..] == allChunks;
    while batchStart < |allChunks|
      invariant sent + Upserts(Batches.Batches(allChunks[Batches.Min(batchStart, |allChunks|)..], batchSize), embed)
        == Upserts(Batches.Batches(allChunks, batchSize), embed)
      decreases |allChunks| - batchStart
    {
      sent := EmbedBatch(allChunks, batchSize, batchStart, embed, sent);
      batchStart := batchStart + batchSize;
    }
    assert allChunks[|allChunks|..] == [];
  }

  /** One pass of the batch loop: embed and upsert the batch at `start`, appending its
      upsert calls to `sent`. */
  method EmbedBatch(all: seq<Chunk>, size: nat, start: nat, embed: seq<string> -> seq<seq<real>>,
                    sent: seq<seq<VectorDb.Vector>>) returns (sent': seq<seq<VectorDb.Vector>>)
    requires size > 0 && start < |all|
    requires sent + Upserts(Batches.Batches(all[Batches.Min(start, |all|)..], size), embed)
      == Upserts(Batches.Batches(all, size), embed)
    ensures sent' + Upserts(Batches.Batches(all[Batches.Min(start + size, |all|)..], size), embed)
      == Upserts(Batches.Batches(all, size), embed)
  {
    var stop := Batches.Min(start + size, |all|);
    var batch := all[start..stop];
    var upserted := EmbedAndUpsert(batch, embed);
    EmbedAllStep(all, size, start, embed, sent, upserted);
    sent' := sent + upserted;
  }

  /** One step of the batch loop keeps its invariant. */
  lemma EmbedAllStep(all: seq<Chunk>, size: nat, start: nat, embed: seq<string> -> seq<seq<real>>,
                     sent: seq<seq<VectorDb.Vector>>, upserted: seq<seq<VectorDb.Vector>>)
    requires size > 0 && start < |all|
    requires sent + Upserts(Batches.Batches(all[Batches.Min(start, |all|)..], size), embed)
      == Upserts(Batches.Batches(all, size), embed)
    requires upserted == BatchUpserts(all[start..Batches.Min(start + size, |all|)], embed)
    ensures sent + upserted + Upserts(Batches.Batches(all[Batches.Min(start + size, |all|)..], size), embed)
      == Upserts(Batches.Batches(all, size), embed)
  {
    var stop := Batches.Min(start + size, |all|);
    var rest := Upserts(Batches.Batches(all[stop..], size), embed);
    assert Upserts(Batches.Batches(all[start..], size), embed) == upserted + rest by {
      Batches.BatchesFrom(all, size, start);
    }
    assert sent + upserted + rest == sent + (upserted + rest);
  }

  /** The body of the batch loop: embed the header-prefixed texts, pair chunks with
      embeddings, and upsert the triples. */
  method EmbedAndUpsert(batch: seq<Chunk>, embed: seq<string> -> seq<seq<real>>) returns (upserted: seq<seq<VectorDb.Vector>>)
    ensures upserted == BatchUpserts(batch, embed)
  {
    var texts := EmbedTexts(batch);
    var embeddings := embed(texts);
    var vectors := Batches.ZipWith(batch, embeddings, ToVector);
    upserted := VectorDb.UpsertChunks(vectors);
  }
}
