/** Page numbers for chunks (src/chunker.py): the printed page numbers recovered from the
    first line of each form-feed-delimited PDF page, the physical page of every
    character, and the page range each chunk is given by locating its text. */
module Pages {
  import opened Wrappers
  import opened Text
  import opened Records

  function Max(a: int, b: int): int { if a >= b then a else b }
  function Min(a: int, b: int): int { if a <= b then a else b }
  function Abs(a: int): nat { if a >= 0 then a else -a }

  /** `text.replace('\U{C}', '')`. */
  function RemoveFF(s: string): (r: string)
    ensures |r| <= |s|
    ensures forall k :: 0 <= k < |r| ==> r[k] != '\U{C}'
  {
    if s == [] then [] else (if s[0] == '\U{C}' then [] else [s[0]]) + RemoveFF(s[1..])
  }

  /** The number of form feeds in `s`. */
  function CountFF(s: string): nat {
    if s == [] then 0 else (if s[0] == '\U{C}' then 1 else 0) + CountFF(s[1..])
  }

  // ---------------------------------------------------------------------------------
  // Physical page of every character

  /** The physical page of each non-form-feed character of `text`, the first one being
      on page `page`. */
  function PageOffsets(text: string, page: int): seq<int>
    decreases |text|
  {
    if text == [] then []
    else if text[0] == '\U{C}' then PageOffsets(text[1..], page + 1)
    else [page] + PageOffsets(text[1..], page)
  }

  /** `_build_page_at_offset`: the loop that bumps the page at every form feed and records
      the page of every other character. */
  method BuildPageAtOffset(text: string) returns (result: seq<int>)
    ensures result == PageOffsets(text, 1)
  {
    result := [];
    var pdfPage := 1;
    for i := 0 to |text|
      invariant result + PageOffsets(text[i..], pdfPage) == PageOffsets(text, 1)
    {
      assert text[i..][1..] == text[i + 1..];
      if text[i] == '\U{C}' {
        pdfPage := pdfPage + 1;
      } else {
        result := result + [pdfPage];
      }
    }
  }

  /** One entry per character that is not a form feed; the entries never decrease and lie
      between the first page and the first page plus the number of form feeds. */
  lemma {:induction false} PageOffsetsShape(text: string, page: int)
    ensures var r := PageOffsets(text, page);
      && |r| == |RemoveFF(text)|
      && (forall k :: 0 <= k < |r| ==> page <= r[k] <= page + CountFF(text))
      && (forall i, k :: 0 <= i <= k < |r| ==> r[i] <= r[k])
    decreases |text|
  {
    if text != [] {
      PageOffsetsShape(text[1..], if text[0] == '\U{C}' then page + 1 else page);
    }
  }

  /** The character at index `j` of `text`, if it is not a form feed, lands at index
      `|RemoveFF(text[..j])|` of the stripped text, on page 1 + the form feeds before it. */
  lemma {:induction false} PageOffsetsEntry(text: string, page: int, j: nat)
    requires j < |text| && text[j] != '\U{C}'
    ensures var r := PageOffsets(text, page);
      var m := |RemoveFF(text[..j])|;
      && m < |r| && r[m] == page + CountFF(text[..j])
      && m < |RemoveFF(text)| && RemoveFF(text)[m] == text[j]
    decreases j
  {
    PageOffsetsShape(text, page);
    if j == 0 {
      assert text[..0] == [];
    } else {
      var next := if text[0] == '\U{C}' then page + 1 else page;
      PageOffsetsEntry(text[1..], next, j - 1);
      assert text[..j][1..] == text[1..][..j - 1];
      assert text[..j][0] == text[0];
    }
  }

  // ---------------------------------------------------------------------------------
  // Printed page numbers

  /** `page_text.strip().split('\n')[0].strip()`, the first line of a page. */
  function FirstLine(page: string): string {
    Strip(Split(Strip(page), '\n')[0])
  }

  /** `re.match(r'^(\d{1,5})$', line)` on a stripped line. */
  predicate IsPageNumber(line: string) {
    1 <= |line| <= 5 && forall k :: 0 <= k < |line| ==> IsDigit(line[k])
  }

  /** The printed number on a page whose first line is one. */
  function PrintedNumber(line: string): nat
    requires IsPageNumber(line)
  {
    DigitsValue(line)
  }

  /** The first line of every page. */
  function FirstLines(pages: seq<string>): (r: seq<string>)
    ensures |r| == |pages|
    ensures forall i :: 0 <= i < |pages| ==> r[i] == FirstLine(pages[i])
  {
    seq(|pages|, i requires 0 <= i < |pages| => FirstLine(pages[i]))
  }

  /** `(pdf page, printed number)` for every page whose first line is a page number, in
      page order, given the pages' first lines; PDF pages count from 1. */
  function Detect(lines: seq<string>): seq<(int, int)>
    decreases |lines|
  {
    if lines == [] then []
    else
      var n := |lines|;
      Detect(lines[..n - 1]) + (if IsPageNumber(lines[n - 1]) then [(n, PrintedNumber(lines[n - 1]) as int)] else [])
  }

  /** The detected pairs as a dictionary. */
  function DetMap(det: seq<(int, int)>): map<int, int>
    decreases |det|
  {
    if det == [] then map[] else DetMap(det[..|det| - 1])[det[|det| - 1].0 := det[|det| - 1].1]
  }

  /** The detections are in strictly ascending page order, within the page range, and each
      is the number on the first line of its page. So sorting them is the identity. */
  lemma {:induction false} DetectShape(lines: seq<string>)
    ensures var det := Detect(lines);
      && |det| <= |lines|
      && (forall k :: 0 <= k < |det| ==>
            1 <= det[k].0 <= |lines| && IsPageNumber(lines[det[k].0 - 1])
            && det[k].1 == PrintedNumber(lines[det[k].0 - 1]))
      && (forall i, k :: 0 <= i < k < |det| ==> det[i].0 < det[k].0)
    decreases |lines|
  {
    if lines != [] {
      var n := |lines|;
      DetectShape(lines[..n - 1]);
      var prev := Detect(lines[..n - 1]);
      forall k | 0 <= k < |prev| ensures lines[..n - 1][prev[k].0 - 1] == lines[prev[k].0 - 1] { }
    }
  }

  /** Every page whose first line is a page number is detected. */
  lemma {:induction false} DetectComplete(lines: seq<string>, q: nat)
    requires 1 <= q <= |lines| && IsPageNumber(lines[q - 1])
    ensures (q, PrintedNumber(lines[q - 1]) as int) in Detect(lines)
    decreases |lines|
  {
    var n := |lines|;
    if q < n {
      DetectComplete(lines[..n - 1], q);
      assert lines[..n - 1][q - 1] == lines[q - 1];
    }
  }

  /** With ascending keys, the dictionary holds exactly the detected pairs. */
  lemma {:induction false} DetMapHolds(det: seq<(int, int)>)
    requires forall i, k :: 0 <= i < k < |det| ==> det[i].0 < det[k].0
    ensures forall q :: q in DetMap(det) <==> exists k :: 0 <= k < |det| && det[k].0 == q
    ensures forall k :: 0 <= k < |det| ==> det[k].0 in DetMap(det) && DetMap(det)[det[k].0] == det[k].1
    decreases |det|
  {
    if det != [] {
      var n := |det|;
      var prev := det[..n - 1];
      DetMapHolds(prev);
      forall q | q in DetMap(det) ensures exists k :: 0 <= k < |det| && det[k].0 == q {
        if q != det[n - 1].0 {
          assert q in DetMap(prev);
          var k :| 0 <= k < |prev| && prev[k].0 == q;
          assert det[k].0 == q;
        }
      }
      forall k | 0 <= k < n ensures det[k].0 in DetMap(det) && DetMap(det)[det[k].0] == det[k].1 {
        if k < n - 1 {
          assert prev[k] == det[k];
        }
      }
    }
  }

  /** The distance from page `p` to a detection. */
  function Dist(p: int, d: (int, int)): nat { Abs(p - d.0) }

  /** The detection the source's scan settles on for page `p`: the distance must drop
      strictly to replace the best so far. */
  function NearestIndex(det: seq<(int, int)>, p: int): (k: nat)
    requires |det| >= 1
    ensures k < |det|
    decreases |det|
  {
    if |det| == 1 then 0
    else
      var n := |det|;
      var k := NearestIndex(det[..n - 1], p);
      if Dist(p, det[n - 1]) < Dist(p, det[..n - 1][k]) then n - 1 else k
  }

  /** The chosen detection is at minimum distance, and no earlier one is as close: ties
      go to the lowest index, which is the lowest page. */
  lemma {:induction false} NearestIsFirstMinimum(det: seq<(int, int)>, p: int)
    requires |det| >= 1
    ensures var k := NearestIndex(det, p);
      && (forall j :: 0 <= j < |det| ==> Dist(p, det[k]) <= Dist(p, det[j]))
      && (forall j :: 0 <= j < k ==> Dist(p, det[j]) > Dist(p, det[k]))
    decreases |det|
  {
    if |det| > 1 {
      var n := |det|;
      NearestIsFirstMinimum(det[..n - 1], p);
      var k := NearestIndex(det[..n - 1], p);
      assert det[..n - 1][k] == det[k];
      forall j | 0 <= j < n - 1 ensures det[..n - 1][j] == det[j] { }
    }
  }

  /** The printed number assigned to PDF page `p`: its detected number, or the nearest
      detection's offset applied to `p`, at least 1. */
  function PageValue(det: seq<(int, int)>, p: int): int
    requires |det| >= 1
  {
    var dm := DetMap(det);
    if p in dm then dm[p]
    else
      var d := det[NearestIndex(det, p)];
      Max(1, p - (d.0 - d.1))
  }

  /** The entries for PDF pages 1 up to, not including, `end`. */
  function PageTable(det: seq<(int, int)>, end: int): map<int, int>
    requires |det| >= 1
  {
    map p | 1 <= p < end :: PageValue(det, p)
  }

  lemma ExtendPageTable(det: seq<(int, int)>, end: int)
    requires |det| >= 1
    ensures PageTable(det, end)[end := PageValue(det, end)] == PageTable(det, end + 1) || end < 1
  {
    if end >= 1 {
      var a := PageTable(det, end)[end := PageValue(det, end)];
      var b := PageTable(det, end + 1);
      assert forall q :: q in a <==> q in b;
      assert forall q :: q in a ==> a[q] == b[q];
    }
  }

  /** The page-number detections of a text. */
  function Detections(text: string): seq<(int, int)> {
    Detect(FirstLines(Split(text, '\U{C}')))
  }

  /** The page map for `n` pages with the given detections: `None` below the confidence
      gate, else one entry per page. */
  function PageMapOf(det: seq<(int, int)>, n: nat): Option<map<int, int>> {
    if |det| == 0 || 10 * |det| < 3 * Max(n, 1) then None
    else Some(PageTable(det, n + 1))
  }

  /** `_build_page_map` as a value. */
  function PageMap(text: string): Option<map<int, int>> {
    PageMapOf(Detections(text), |Split(text, '\U{C}')|)
  }

  /** The detection loop of `_build_page_map`: `detected[pdf_page] = int(...)` for every
      page whose first line is a page number. */
  method DetectPages(pages: seq<string>) returns (found: seq<(int, int)>, detected: map<int, int>)
    ensures found == Detect(FirstLines(pages)) && detected == DetMap(found)
  {
    ghost var lines := FirstLines(pages);
    detected := map[];
    found := [];
    for i := 0 to |pages|
      invariant found == Detect(lines[..i]) && detected == DetMap(found)
    {
      var pdfPage := i + 1;
      var firstLine := FirstLine(pages[i]);
      assert firstLine == lines[i];
      assert lines[..i + 1][..i] == lines[..i];
      if IsPageNumber(firstLine) {
        detected := detected[pdfPage := PrintedNumber(firstLine)];
        found := found + [(pdfPage, PrintedNumber(firstLine) as int)];
        assert found[..|found| - 1] == Detect(lines[..i]);
      }
    }
    assert lines[..|pages|] == lines;
  }

  /** The inner loop of `_build_page_map`: the offset of the nearest detection, replaced
      only when the distance drops strictly. */
  method NearestOffset(sortedDetected: seq<(int, int)>, p: int) returns (bestOffset: int)
    requires |sortedDetected| >= 1
    ensures var d := sortedDetected[NearestIndex(sortedDetected, p)]; bestOffset == d.0 - d.1
  {
    ghost var det := sortedDetected;
    var bestDist: Option<nat> := None;
    bestOffset := 0;
    for j := 0 to |sortedDetected|
      invariant j == 0 ==> bestDist.None?
      invariant j > 0 ==> var k := NearestIndex(det[..j], p);
        bestDist == Some(Dist(p, det[k])) && bestOffset == det[k].0 - det[k].1
    {
      var (detPdf, detPrinted) := sortedDetected[j];
      var dist := Abs(p - detPdf);
      assert det[..j + 1][..j] == det[..j];
      if j > 0 {
        assert det[..j][NearestIndex(det[..j], p)] == det[NearestIndex(det[..j], p)];
      }
      if bestDist.None? || dist < bestDist.value {
        bestDist := Some(dist);
        bestOffset := detPdf - detPrinted;
      }
    }
    assert det[..|det|] == det;
  }

  /** `_build_page_map`: the detections, the confidence gate, then one entry per PDF page,
      detected pages keeping their number and the rest interpolated from the nearest
      detection. `sorted(detected.items())` is the detection list itself (see
      `DetectShape`). */
  method BuildPageMap(text: string) returns (pageMap: Option<map<int, int>>)
    ensures pageMap == PageMap(text)
  {
    var pages := Split(text, '\U{C}');
    var found, detected := DetectPages(pages);
    pageMap := PageMapFrom(found, detected, |pages|);
  }

  /** The gate and the loop over PDF pages of `_build_page_map`. */
  method PageMapFrom(found: seq<(int, int)>, detected: map<int, int>, totalPages: nat) returns (pageMap: Option<map<int, int>>)
    requires detected == DetMap(found)
    ensures pageMap == PageMapOf(found, totalPages)
  {
    if |found| == 0 || 10 * |found| < 3 * Max(totalPages, 1) {
      return None;
    }
    var sortedDetected := found;
    var m: map<int, int> := map[];
    assert m == PageTable(found, 1);
    for p := 1 to totalPages + 1
      invariant m == PageTable(found, p)
    {
      var v: int;
      if p in detected {
        v := detected[p];
      } else {
        var bestOffset := NearestOffset(sortedDetected, p);
        v := Max(1, p - bestOffset);
      }
      assert v == PageValue(found, p);
      ExtendPageTable(found, p);
      m := m[p := v];
    }
    pageMap := Some(m);
  }

  /** The gate: no map when no first line is a page number or fewer than 30% of the pages
      have one (the ratio compared exactly). */
  lemma PageMapGate(text: string)
    ensures var det := Detections(text);
      PageMap(text).None? <==> |det| == 0 || (|det| as real) / (|Split(text, '\U{C}')| as real) < 0.3
  {
    RatioGate(|Detections(text)|, |Split(text, '\U{C}')|);
  }

  /** `detected / max(total, 1) < 0.3` in integers. */
  lemma RatioGate(d: nat, n: nat)
    requires n >= 1
    ensures 10 * d < 3 * Max(n, 1) <==> (d as real) / (n as real) < 0.3
  {
    var dr, nr := d as real, n as real;
    var r := dr / nr;
    assert r * nr == dr;
    ScaleLess(r, 0.3, nr);
    assert (10 * d < 3 * n) == (dr < 0.3 * nr);
  }

  lemma ScaleLess(a: real, b: real, c: real)
    requires c > 0.0
    ensures a < b <==> a * c < b * c
  {
    if a < b {
      assert (b - a) * c > 0.0;
    } else {
      assert (a - b) * c >= 0.0;
    }
  }

  /** Past the gate the map covers exactly the pages 1..#pages; a page whose first line is
      a number keeps that number; any other page takes the offset of the nearest
      detection, ties going to the lower page, and is at least 1. Stated for the first
      lines of the pages: `PageMap(text)` is `PageMapOf(Detect(lines), |lines|)` for
      `lines == FirstLines(Split(text, '\U{C}'))`. */
  lemma PageMapEntries(lines: seq<string>, p: int)
    requires PageMapOf(Detect(lines), |lines|).Some?
    ensures p in PageMapOf(Detect(lines), |lines|).value <==> 1 <= p <= |lines|
    ensures 1 <= p <= |lines| && IsPageNumber(lines[p - 1]) ==>
      PageMapOf(Detect(lines), |lines|).value[p] == PrintedNumber(lines[p - 1])
    ensures var m := PageMapOf(Detect(lines), |lines|).value;
      var det := Detect(lines);
      1 <= p <= |lines| && !IsPageNumber(lines[p - 1]) ==>
        exists k :: 0 <= k < |det| && m[p] == Max(1, p - (det[k].0 - det[k].1))
          && (forall j :: 0 <= j < |det| ==> Dist(p, det[k]) <= Dist(p, det[j]))
          && (forall j :: 0 <= j < k ==> Dist(p, det[j]) > Dist(p, det[k]))
  {
    var det := Detect(lines);
    PageMapOfTable(det, |lines|);
    PageTableEntry(det, |lines| + 1, p);
    if 1 <= p <= |lines| {
      if IsPageNumber(lines[p - 1]) {
        DetectedEntry(lines, p);
      } else {
        InterpolatedEntry(lines, p);
        var k := NearestIndex(det, p);
        assert PageMapOf(det, |lines|).value[p] == PageValue(det, p);
      }
    }
  }

  lemma PageMapOfTable(det: seq<(int, int)>, n: nat)
    requires PageMapOf(det, n).Some?
    ensures |det| >= 1 && PageMapOf(det, n) == Some(PageTable(det, n + 1))
  {
  }

  lemma PageTableEntry(det: seq<(int, int)>, end: int, p: int)
    requires |det| >= 1
    ensures p in PageTable(det, end) <==> 1 <= p < end
    ensures 1 <= p < end ==> PageTable(det, end)[p] == PageValue(det, p)
  {
  }

  /** A page whose first line is a number keeps it. */
  lemma DetectedEntry(lines: seq<string>, p: int)
    requires |Detect(lines)| >= 1 && 1 <= p <= |lines| && IsPageNumber(lines[p - 1])
    ensures PageValue(Detect(lines), p) == PrintedNumber(lines[p - 1])
  {
    var det := Detect(lines);
    DetectShape(lines);
    DetMapHolds(det);
    DetectComplete(lines, p);
    var k :| 0 <= k < |det| && det[k] == (p, PrintedNumber(lines[p - 1]) as int);
  }

  /** Any other page is interpolated from the first nearest detection. */
  lemma InterpolatedEntry(lines: seq<string>, p: int)
    requires |Detect(lines)| >= 1 && 1 <= p <= |lines| && !IsPageNumber(lines[p - 1])
    ensures var det := Detect(lines); var k := NearestIndex(det, p);
      && PageValue(det, p) == Max(1, p - (det[k].0 - det[k].1))
      && (forall j :: 0 <= j < |det| ==> Dist(p, det[k]) <= Dist(p, det[j]))
      && (forall j :: 0 <= j < k ==> Dist(p, det[j]) > Dist(p, det[k]))
  {
    var det := Detect(lines);
    DetectShape(lines);
    DetMapHolds(det);
    assert forall k :: 0 <= k < |det| ==> det[k].0 != p;
    assert p !in DetMap(det);
    NearestIsFirstMinimum(det, p);
  }

  // ---------------------------------------------------------------------------------
  // Page ranges of chunks

  /** Where a chunk was found: its first and last physical page, and the next cursor. */
  datatype Span = Span(start: int, end: int, next: int)

  /** One step of `_assign_pages_by_position`: look for the chunk's first 100 characters
      from 500 characters before the cursor; if found on a mapped offset, the chunk's
      pages are those of its first and last characters and the cursor moves past the
      match, otherwise both pages are the cursor itself. */
  function Locate(stripped: string, pageAt: seq<int>, text: string, cursor: int): Span
  {
    var needle := Take(text, 100);
    var pos := Find(stripped, needle, Max(0, cursor - 500));
    if 0 <= pos < |pageAt| then
      var endPos := Min(pos + |text| - 1, |pageAt| - 1);
      Span(pageAt[pos], if endPos >= 0 then pageAt[endPos] else pageAt[pos], pos + 1)
    else Span(cursor, cursor, cursor)
  }

  /** The cursor after the given chunks have been placed. */
  function Cursor(chunks: seq<Chunk>, stripped: string, pageAt: seq<int>): int
    decreases |chunks|
  {
    if chunks == [] then 0
    else
      var n := |chunks|;
      Locate(stripped, pageAt, chunks[n - 1].text, Cursor(chunks[..n - 1], stripped, pageAt)).next
  }

  /** `page_map.get(p, p)`. */
  function MapPage(m: map<int, int>, p: int): int {
    if p in m then m[p] else p
  }

  /** A chunk with `page_start`, `page_end` and `pdf_page` set from its span. */
  function WithPages(c: Chunk, s: Span, pageMap: Option<map<int, int>>): Chunk
  {
    var (ps, pe) :=
      if pageMap.Some? && |pageMap.value| > 0 then (MapPage(pageMap.value, s.start), MapPage(pageMap.value, s.end))
      else (s.start, s.end);
    c.(meta := c.meta.(pageStart := Some(ps), pageEnd := Some(pe), pdfPage := Some(s.start)))
  }

  /** The chunks with their pages assigned in order, each searched for from the cursor
      the chunks before it left. */
  function Assigned(chunks: seq<Chunk>, stripped: string, pageAt: seq<int>, pageMap: Option<map<int, int>>): (r: seq<Chunk>)
    ensures |r| == |chunks|
  {
    seq(|chunks|, i requires 0 <= i < |chunks| =>
      WithPages(chunks[i], Locate(stripped, pageAt, chunks[i].text, Cursor(chunks[..i], stripped, pageAt)), pageMap))
  }

  /** `_assign_pages_by_position`: updates the metadata of every chunk in place. */
  method AssignPagesByPosition(chunks: array<Chunk>, stripped: string, pageAt: seq<int>, pageMap: Option<map<int, int>>)
    modifies chunks
    ensures chunks[..] == Assigned(old(chunks[..]), stripped, pageAt, pageMap)
  {
    ghost var before := chunks[..];
    ghost var target := Assigned(before, stripped, pageAt, pageMap);
    var searchStart := 0;
    for i := 0 to chunks.Length
      invariant searchStart == Cursor(before[..i], stripped, pageAt)
      invariant forall j :: 0 <= j < i ==> chunks[j] == target[j]
      invariant forall j :: i <= j < chunks.Length ==> chunks[j] == before[j]
    {
      var placed, next := PlaceChunkAt(chunks[i], stripped, pageAt, pageMap, searchStart, before, i);
      chunks[i] := placed;
      searchStart := next;
    }
    assert chunks[..] == target;
  }

  /** Chunk `i` is placed from the cursor the chunks before it leave, and moves it on. */
  lemma AssignedStep(chunks: seq<Chunk>, i: nat, stripped: string, pageAt: seq<int>, pageMap: Option<map<int, int>>)
    requires i < |chunks|
    ensures var s := Locate(stripped, pageAt, chunks[i].text, Cursor(chunks[..i], stripped, pageAt));
      && Assigned(chunks, stripped, pageAt, pageMap)[i] == WithPages(chunks[i], s, pageMap)
      && Cursor(chunks[..i + 1], stripped, pageAt) == s.next
  {
    assert chunks[..i + 1][..i] == chunks[..i];
  }

  /** The body of the loop of `_assign_pages_by_position` for chunk `i`, reached with the
      cursor the chunks before it left. */
  method PlaceChunkAt(chunk: Chunk, stripped: string, pageAt: seq<int>, pageMap: Option<map<int, int>>, searchStart: int,
                      ghost chunks: seq<Chunk>, ghost i: nat)
    returns (placed: Chunk, next: int)
    requires i < |chunks| && chunk == chunks[i] && searchStart == Cursor(chunks[..i], stripped, pageAt)
    ensures placed == Assigned(chunks, stripped, pageAt, pageMap)[i]
    ensures next == Cursor(chunks[..i + 1], stripped, pageAt)
  {
    AssignedStep(chunks, i, stripped, pageAt, pageMap);
    placed, next := PlaceChunk(chunk, stripped, pageAt, pageMap, searchStart);
  }

  /** One chunk: look for it from the cursor, set its pages, move the cursor. */
  method PlaceChunk(chunk: Chunk, stripped: string, pageAt: seq<int>, pageMap: Option<map<int, int>>, searchStart: int)
    returns (placed: Chunk, next: int)
    ensures var s := Locate(stripped, pageAt, chunk.text, searchStart);
      placed == WithPages(chunk, s, pageMap) && next == s.next
  {
    var text := chunk.text;
    var needle := Take(text, 100);
    var pos := Find(stripped, needle, Max(0, searchStart - 500));
    var pdfStart, pdfEnd;
    next := searchStart;
    if pos >= 0 && pos < |pageAt| {
      pdfStart := pageAt[pos];
      var endPos := Min(pos + |text| - 1, |pageAt| - 1);
      pdfEnd := if endPos >= 0 then pageAt[endPos] else pdfStart;
      next := pos + 1;
    } else {
      pdfStart := searchStart;
      pdfEnd := pdfStart;
    }
    var meta := chunk.meta;
    if pageMap.Some? && |pageMap.value| > 0 {
      meta := meta.(pageStart := Some(MapPage(pageMap.value, pdfStart)), pageEnd := Some(MapPage(pageMap.value, pdfEnd)));
    } else {
      meta := meta.(pageStart := Some(pdfStart), pageEnd := Some(pdfEnd));
    }
    meta := meta.(pdfPage := Some(pdfStart));
    placed := chunk.(meta := meta);
  }

  /** Assignment keeps every chunk's text, numbering and item metadata and sets all three
      page keys. */
  lemma AssignedKeeps(chunks: seq<Chunk>, stripped: string, pageAt: seq<int>, pageMap: Option<map<int, int>>)
    ensures var r := Assigned(chunks, stripped, pageAt, pageMap);
      forall i :: 0 <= i < |r| ==>
        && r[i].text == chunks[i].text && r[i].chunkIndex == chunks[i].chunkIndex
        && r[i].totalChunks == chunks[i].totalChunks && r[i].meta.item == chunks[i].meta.item
        && r[i].meta.chapter == chunks[i].meta.chapter && r[i].meta.sourceType == chunks[i].meta.sourceType
        && r[i].meta.pdfPage.Some? && r[i].meta.pageStart.Some? && r[i].meta.pageEnd.Some?
  {
  }

  /** On the page table of the text itself, a chunk that is found gets a range that
      starts on a real page and does not run backwards. */
  lemma FoundRangeOrdered(text: string, chunkText: string, cursor: int)
    requires |chunkText| >= 1
    ensures var pageAt := PageOffsets(text, 1);
      var s := Locate(RemoveFF(text), pageAt, chunkText, cursor);
      var pos := Find(RemoveFF(text), Take(chunkText, 100), Max(0, cursor - 500));
      0 <= pos < |pageAt| ==> 1 <= s.start <= s.end
  {
    PageOffsetsShape(text, 1);
  }

  /** A chunk whose text is not found keeps the cursor, which is a character offset, as
      both its pages. */
  lemma NotFoundFallsBack(stripped: string, pageAt: seq<int>, chunkText: string, cursor: int)
    requires Find(stripped, Take(chunkText, 100), Max(0, cursor - 500)) == -1
    ensures Locate(stripped, pageAt, chunkText, cursor) == Span(cursor, cursor, cursor)
  {
  }
}
