/** The retrieval pipeline of src/search_pipeline.py: shorthand and explicit arguments
    are merged, the result count is clamped, the vector index is asked for more
    candidates than needed, client-side filters drop candidates, and a reranker orders
    and truncates what is left. Embedding, the vector index and the reranker are
    oracles: the model holds for every index and every ranking they return. */
module Search {
  import opened Wrappers
  import opened Text
  import Shorthand

  /** The metadata of a vector-index match; a missing list is `[]`, a missing string
      `""`. */
  datatype HitMeta = HitMeta(
    authors: seq<string>,
    tags: seq<string>,
    collections: seq<string>,
    archiveCollection: string,
    date: string,
    text: string)

  /** A result dictionary: `id`, `score`, `metadata` and, once reranked, `rerank_score`.
      Scores are opaque numbers. */
  datatype Hit = Hit(id: string, score: real, meta: HitMeta, rerankScore: Option<real>)

  /** One entry of the reranker's output: the index of a passage and its score. */
  datatype Ranked = Ranked(id: int, score: real)

  /** A passage handed to the reranker. */
  datatype Passage = Passage(id: int, text: string)

  /** The external services `run_search` calls. `search` stands for `embed_query`
      followed by the vector search, taking the cleaned query, the number of matches
      wanted and the native filter on `item_type`; `ranker` is `_ranker`, absent when it
      was never initialised. */
  datatype Backend = Backend(
    search: (string, int, Option<string>) -> seq<Hit>,
    ranker: Option<(string, seq<Passage>) -> seq<Ranked>>)

  /** The arguments of `run_search`; `""` stands for `None`, as every use of them only
      asks whether they are set. */
  datatype Args = Args(
    topK: int,
    itemType: string,
    author: string,
    tag: string,
    collection: string,
    archive: string,
    dateFrom: string,
    dateTo: string)

  // ---------------------------------------------------------------------------------
  // Matching

  /** `_match_filter(filter_val, target)`. */
  predicate MatchFilter(filterVal: string, target: string) {
    if target == "" then false
    else if StartsWith(filterVal, "=") then Lower(filterVal[1..]) == Lower(target)
    else IsInfix(Lower(filterVal), Lower(target))
  }

  /** The alias table's canonical name for `raw`, when it has a non-empty one. */
  function Canonical(aliases: map<string, string>, raw: string): Option<string> {
    var key := Lower(raw);
    if key in aliases && aliases[key] != "" then Some(aliases[key]) else None
  }

  /** `_match_archive(filter_val, archive_collection)` against the alias table
      `get_archive_aliases()` returns (lower-case keys). */
  predicate MatchArchive(aliases: map<string, string>, filterVal: string, archiveCollection: string) {
    if archiveCollection == "" then false
    else
      var exact := StartsWith(filterVal, "=");
      var raw := if exact then filterVal[1..] else filterVal;
      match Canonical(aliases, raw)
      case Some(canonical) => Lower(archiveCollection) == Lower(canonical)
      case None =>
        if exact then Lower(raw) == Lower(archiveCollection)
        else IsInfix(Lower(raw), Lower(archiveCollection))
  }

  /** `any(_match_filter(f, t) for t in targets)`. */
  predicate AnyMatch(f: string, targets: seq<string>) {
    targets != [] && (MatchFilter(f, targets[0]) || AnyMatch(f, targets[1..]))
  }

  /** A candidate survives the client-side filters: every filter that is set passes.
      The date bounds compare strings and are skipped for an undated candidate. */
  predicate Passes(a: Args, aliases: map<string, string>, m: HitMeta) {
    && (a.author == "" || MatchFilter(a.author, Join(m.authors, " ")))
    && (a.tag == "" || AnyMatch(a.tag, m.tags))
    && (a.collection == "" || AnyMatch(a.collection, m.collections))
    && (a.archive == "" || MatchArchive(aliases, a.archive, m.archiveCollection))
    && (a.dateFrom == "" || m.date == "" || !StrLess(m.date, a.dateFrom))
    && (a.dateTo == "" || m.date == "" || !StrLess(a.dateTo, m.date))
  }

  /** The candidates whose metadata `keep` accepts, in their original order. */
  function FilterBy(keep: HitMeta -> bool, hits: seq<Hit>): seq<Hit> {
    if hits == [] then []
    else (if keep(hits[0].meta) then [hits[0]] else []) + FilterBy(keep, hits[1..])
  }

  /** The candidates that survive the client-side filters. */
  function Filtered(a: Args, aliases: map<string, string>, hits: seq<Hit>): seq<Hit> {
    FilterBy(m => Passes(a, aliases, m), hits)
  }

  // ---------------------------------------------------------------------------------
  // Arguments

  /** `d.get(k)` with `None` read as `""`. */
  function Get(d: map<string, string>, k: string): string {
    if k in d then d[k] else ""
  }

  /** `x or y` on optional strings. */
  function Or(x: string, y: string): string {
    if x != "" then x else y
  }

  /** `min(max(top_k, 1), 20)`. */
  function Clamp(topK: int): (r: int)
    ensures 1 <= r <= 20
    ensures 1 <= topK <= 20 ==> r == topK
    ensures topK < 1 ==> r == 1
    ensures topK > 20 ==> r == 20
  {
    if topK < 1 then 1 else if topK > 20 then 20 else topK
  }

  /** The arguments after the merge of `run_search`: an explicit argument wins over the
      shorthand, except that a `top:` value that reads as an integer replaces `top_k`;
      `top_k` is then clamped. */
  function Merge(a: Args, parsed: map<string, string>): Args {
    var top := Get(parsed, "top");
    var topK := if top != "" && ParseInt(top).Some? then ParseInt(top).value else a.topK;
    Args(
      Clamp(topK),
      Or(a.itemType, Get(parsed, "type")),
      Or(a.author, Get(parsed, "by")),
      Or(a.tag, Get(parsed, "tag")),
      Or(a.collection, Get(parsed, "collection")),
      Or(a.archive, Get(parsed, "in")),
      Or(a.dateFrom, Get(parsed, "from")),
      Or(a.dateTo, Get(parsed, "to")))
  }

  /** The native filter: `item_type` with leading `=` removed, when set. */
  function NativeFilter(a: Args): (r: Option<string>)
    ensures a.itemType == "" <==> r.None?
    ensures r.Some? ==> var t := a.itemType;
      && |r.value| <= |t| && r.value == t[|t| - |r.value|..]
      && (forall i :: 0 <= i < |t| - |r.value| ==> t[i] == '=')
      && (r.value == [] || r.value[0] != '=')
    ensures r.Some? && a.itemType[0] != '=' ==> r.value == a.itemType
  {
    if a.itemType != "" then
      LStripCharSpec(a.itemType, '=');
      Some(LStripChar(a.itemType, '='))
    else None
  }

  /** `needs_client_filter`. */
  predicate NeedsClientFilter(a: Args) {
    a.author != "" || a.tag != "" || a.collection != "" || a.archive != "" || a.dateFrom != "" || a.dateTo != ""
  }

  /** `search_k`: five times the result count when client filters will drop
      candidates, otherwise three times it, but at least 30. */
  function FetchSize(a: Args): (r: int)
    ensures a.topK >= 1 ==> r > a.topK
    ensures NeedsClientFilter(a) ==> r == 5 * a.topK
    ensures !NeedsClientFilter(a) ==> r >= 30 && r >= 3 * a.topK && (r == 30 || r == 3 * a.topK)
  {
    if NeedsClientFilter(a) then a.topK * 5 else if a.topK * 3 >= 30 then a.topK * 3 else 30
  }

  // ---------------------------------------------------------------------------------
  // Reranking

  /** The passages the reranker scores: each candidate's text cut to 1500 characters,
      with its position as id. */
  function Passages(hits: seq<Hit>): (ps: seq<Passage>)
    ensures |ps| == |hits|
    ensures forall i :: 0 <= i < |hits| ==> ps[i].id == i && ps[i].text == Take(hits[i].meta.text, 1500)
  {
    seq(|hits|, i requires 0 <= i < |hits| => Passage(i, Take(hits[i].meta.text, 1500)))
  }

  /** `ranked[:n]`; a negative `n` drops that many entries from the end. */
  function Prefix(ranked: seq<Ranked>, n: int): (r: seq<Ranked>)
    ensures 0 <= n ==> |r| == if n < |ranked| then n else |ranked|
    ensures n < 0 ==> |r| == if |ranked| + n > 0 then |ranked| + n else 0
    ensures r == ranked[..|r|]
  {
    if 0 <= n then (if n < |ranked| then ranked[..n] else ranked)
    else if |ranked| + n > 0 then ranked[..|ranked| + n]
    else []
  }

  /** `results[id]`'s position, negative ids counting from the end as in Python; `None`
      is the `IndexError` an out-of-range id raises. */
  function Resolve(id: int, n: nat): (r: Option<nat>)
    ensures r.Some? ==> r.value < n
  {
    if 0 <= id < n then var p: nat := id; Some(p)
    else if id < 0 && 0 <= id + n then var p: nat := id + n; Some(p)
    else None
  }

  /** Every ranked id is a valid index. */
  predicate AllResolve(ranked: seq<Ranked>, n: nat) {
    forall j :: 0 <= j < |ranked| ==> Resolve(ranked[j].id, n).Some?
  }

  /** The score of the last entry of `ranked` that points at position `p`. */
  function LastScore(ranked: seq<Ranked>, n: nat, p: nat): Option<real> {
    if ranked == [] then None
    else if Resolve(ranked[|ranked| - 1].id, n) == Some(p) then Some(ranked[|ranked| - 1].score)
    else LastScore(ranked[..|ranked| - 1], n, p)
  }

  /** The candidates after the ranking's scores were written into them. */
  function Scored(hits: seq<Hit>, ranked: seq<Ranked>): (r: seq<Hit>)
    ensures |r| == |hits|
    ensures forall p :: 0 <= p < |hits| && LastScore(ranked, |hits|, p).Some? ==>
      r[p] == hits[p].(rerankScore := LastScore(ranked, |hits|, p))
    ensures forall p :: 0 <= p < |hits| && LastScore(ranked, |hits|, p).None? ==> r[p] == hits[p]
  {
    seq(|hits|, p requires 0 <= p < |hits| =>
      if LastScore(ranked, |hits|, p).Some? then hits[p].(rerankScore := LastScore(ranked, |hits|, p)) else hits[p])
  }

  /** The reranked results: the entries of the (already truncated) ranking, in ranking
      order, each the candidate it points at. The loop sets `rerank_score` on the
      candidate's dictionary itself, so a candidate the ranking names twice shows the
      score of its last mention in both places. */
  function Reranked(hits: seq<Hit>, ranked: seq<Ranked>): Result<seq<Hit>> {
    var n := |hits|;
    if !AllResolve(ranked, n) then Failure("IndexError")
    else Success(seq(|ranked|, j requires 0 <= j < |ranked| =>
      var p := Resolve(ranked[j].id, n).value;
      hits[p].(rerankScore := LastScore(ranked, n, p))))
  }

  /** The reranking loop over `ranked[:top_k]`: each entry looks up its candidate, sets
      its `rerank_score` in place and appends a reference to it. Positions stand for
      the references, and the candidate list is updated where Python updates the
      shared dictionary. */
  method Rerank(results: seq<Hit>, ranked: seq<Ranked>) returns (r: Result<seq<Hit>>)
    ensures r == Reranked(results, ranked)
  {
    var n := |results|;
    var hits := results;
    var refs: seq<nat> := [];
    for j := 0 to |ranked|
      invariant |refs| == j
      invariant AllResolve(ranked[..j], n)
      invariant forall l :: 0 <= l < j ==> refs[l] == Resolve(ranked[l].id, n).value
      invariant hits == Scored(results, ranked[..j])
    {
      var idx := Resolve(ranked[j].id, n);
      if idx.None? {
        return Failure("IndexError");
      }
      var original := hits[idx.value];
      hits := hits[idx.value := original.(rerankScore := Some(ranked[j].score))];
      refs := refs + [idx.value];
      ScoredSnoc(results, ranked, j);
    }
    assert ranked[..|ranked|] == ranked;
    r := Success(seq(|refs|, l requires 0 <= l < |refs| => hits[refs[l]]));
    RerankedEntries(results, ranked, refs);
  }

  /** Writing one more score changes the candidate it points at, and only that one. */
  lemma ScoredSnoc(hits: seq<Hit>, ranked: seq<Ranked>, j: nat)
    requires j < |ranked| && Resolve(ranked[j].id, |hits|).Some?
    ensures var p := Resolve(ranked[j].id, |hits|).value;
      Scored(hits, ranked[..j + 1]) == Scored(hits, ranked[..j])[p := Scored(hits, ranked[..j])[p].(rerankScore := Some(ranked[j].score))]
  {
    assert ranked[..j + 1][..j] == ranked[..j];
  }

  lemma RerankedEntries(results: seq<Hit>, ranked: seq<Ranked>, refs: seq<nat>)
    requires |refs| == |ranked|
    requires AllResolve(ranked, |results|)
    requires forall l :: 0 <= l < |refs| ==> refs[l] == Resolve(ranked[l].id, |results|).value
    ensures Reranked(results, ranked) == Success(seq(|refs|, l requires 0 <= l < |refs| => Scored(results, ranked)[refs[l]]))
  {
    var n := |results|;
    var want := seq(|refs|, l requires 0 <= l < |refs| => Scored(results, ranked)[refs[l]]);
    var got := Reranked(results, ranked).value;
    forall l | 0 <= l < |refs| ensures got[l] == want[l] {
      var p := refs[l];
      LastScoreFound(ranked, n, l);
      assert LastScore(ranked, n, p).Some?;
      assert p < |results|;
      assert want[l] == Scored(results, ranked)[p];
      assert Scored(results, ranked)[p] == results[p].(rerankScore := LastScore(ranked, n, p));
    }
    assert got == want;
  }

  /** The position an entry points at has a last score. */
  lemma {:induction false} LastScoreFound(ranked: seq<Ranked>, n: nat, l: nat)
    requires l < |ranked| && Resolve(ranked[l].id, n).Some?
    ensures LastScore(ranked, n, Resolve(ranked[l].id, n).value).Some?
    decreases |ranked|
  {
    var p := Resolve(ranked[l].id, n).value;
    if l < |ranked| - 1 && Resolve(ranked[|ranked| - 1].id, n) != Some(p) {
      assert ranked[..|ranked| - 1][l] == ranked[l];
      LastScoreFound(ranked[..|ranked| - 1], n, l);
    }
  }

  /** Each entry of a ranking whose ids name distinct candidates carries its own
      score. */
  lemma RerankedDistinct(hits: seq<Hit>, ranked: seq<Ranked>)
    requires AllResolve(ranked, |hits|)
    requires forall i, j :: 0 <= i < j < |ranked| ==> Resolve(ranked[i].id, |hits|) != Resolve(ranked[j].id, |hits|)
    ensures Reranked(hits, ranked).Success?
    ensures forall j :: 0 <= j < |ranked| ==> Reranked(hits, ranked).value[j].rerankScore == Some(ranked[j].score)
  {
    forall j | 0 <= j < |ranked| ensures LastScore(ranked, |hits|, Resolve(ranked[j].id, |hits|).value) == Some(ranked[j].score) {
      LastScoreDistinct(ranked, |hits|, j);
    }
  }

  lemma {:induction false} LastScoreDistinct(ranked: seq<Ranked>, n: nat, j: nat)
    requires j < |ranked| && Resolve(ranked[j].id, n).Some?
    requires forall i :: j < i < |ranked| ==> Resolve(ranked[i].id, n) != Resolve(ranked[j].id, n)
    ensures LastScore(ranked, n, Resolve(ranked[j].id, n).value) == Some(ranked[j].score)
    decreases |ranked|
  {
    if j < |ranked| - 1 {
      var front := ranked[..|ranked| - 1];
      assert front[j] == ranked[j];
      assert forall i :: j < i < |front| ==> front[i] == ranked[i];
      LastScoreDistinct(front, n, j);
    }
  }

  /** Every reranked result is one of the candidates, with a `rerank_score` set. */
  lemma RerankedFromCandidates(hits: seq<Hit>, ranked: seq<Ranked>)
    requires Reranked(hits, ranked).Success?
    ensures |Reranked(hits, ranked).value| == |ranked|
    ensures forall j :: 0 <= j < |ranked| ==>
      var r := Reranked(hits, ranked).value[j];
      var p := Resolve(ranked[j].id, |hits|).value;
      r.rerankScore.Some? && r == hits[p].(rerankScore := r.rerankScore)
  {
    forall j | 0 <= j < |ranked| ensures LastScore(ranked, |hits|, Resolve(ranked[j].id, |hits|).value).Some? {
      LastScoreFound(ranked, |hits|, j);
    }
  }

  /** A ranking with an id out of range fails as the Python loop does. */
  lemma RerankedBadId(hits: seq<Hit>, ranked: seq<Ranked>, j: nat)
    requires j < |ranked| && !(-|hits| <= ranked[j].id < |hits|)
    ensures Reranked(hits, ranked).Failure?
  {
    assert Resolve(ranked[j].id, |hits|).None?;
  }

  // ---------------------------------------------------------------------------------
  // The pipeline

  /** The client-side filter loop of `run_search`. */
  method FilterResults(a: Args, aliases: map<string, string>, results: seq<Hit>) returns (filtered: seq<Hit>)
    ensures filtered == Filtered(a, aliases, results)
  {
    filtered := [];
    for i := 0 to |results|
      invariant filtered == Filtered(a, aliases, results[..i])
    {
      FilterByAppend(m => Passes(a, aliases, m), results[..i], [results[i]]);
      assert results[..i + 1] == results[..i] + [results[i]];
      if Passes(a, aliases, results[i].meta) {
        filtered := filtered + [results[i]];
      }
    }
    assert results[..|results|] == results;
  }

  /** What `run_search` returns, with `None` standing for an exception and `Failure`
      for the `IndexError` of a bad ranked id. */
  function SearchResult(b: Backend, aliases: map<string, string>, queryStr: string, args: Args): Result<seq<Hit>> {
    var scan := Shorthand.Scan(queryStr, 0);
    var query := Shorthand.CleanQuery(scan.0);
    var a := Merge(args, Shorthand.FiltersOf(scan.1));
    Finish(b, aliases, query, a, b.search(query, FetchSize(a), NativeFilter(a)))
  }

  /** The part of `run_search` after the vector search returned `fetched`. */
  function Finish(b: Backend, aliases: map<string, string>, query: string, a: Args, fetched: seq<Hit>): Result<seq<Hit>> {
    var kept := if NeedsClientFilter(a) then Filtered(a, aliases, fetched) else fetched;
    if kept != [] && b.ranker.Some? then
      Reranked(kept, Prefix(b.ranker.value(query, Passages(kept)), a.topK))
    else Success(kept)
  }

  /** `run_search`, after `init_pipeline` has set up the backend and the alias table. */
  method RunSearch(b: Backend, aliases: map<string, string>, queryStr: string, args: Args) returns (r: Result<seq<Hit>>)
    ensures r == SearchResult(b, aliases, queryStr, args)
  {
    var query, parsed := Shorthand.ParseShorthand(queryStr);
    var a := Merge(args, parsed);
    var results := b.search(query, FetchSize(a), NativeFilter(a));
    if NeedsClientFilter(a) {
      results := FilterResults(a, aliases, results);
    }
    if results != [] && b.ranker.Some? {
      var ranked := b.ranker.value(query, Passages(results));
      r := Rerank(results, Prefix(ranked, a.topK));
    } else {
      r := Success(results);
    }
  }

  // ---------------------------------------------------------------------------------
  // Properties

  /** An explicit argument wins; an unset one takes the shorthand's value; `top:`
      replaces `top_k` exactly when it reads as an integer. */
  lemma MergePrecedence(a: Args, parsed: map<string, string>)
    ensures var m := Merge(a, parsed);
      && (a.itemType != "" ==> m.itemType == a.itemType)
      && (a.itemType == "" ==> m.itemType == Get(parsed, "type"))
      && (a.author != "" ==> m.author == a.author)
      && (a.author == "" ==> m.author == Get(parsed, "by"))
      && (a.tag != "" ==> m.tag == a.tag)
      && (a.tag == "" ==> m.tag == Get(parsed, "tag"))
      && (a.collection != "" ==> m.collection == a.collection)
      && (a.collection == "" ==> m.collection == Get(parsed, "collection"))
      && (a.archive != "" ==> m.archive == a.archive)
      && (a.archive == "" ==> m.archive == Get(parsed, "in"))
      && (a.dateFrom != "" ==> m.dateFrom == a.dateFrom)
      && (a.dateFrom == "" ==> m.dateFrom == Get(parsed, "from"))
      && (a.dateTo != "" ==> m.dateTo == a.dateTo)
      && (a.dateTo == "" ==> m.dateTo == Get(parsed, "to"))
      && ((("top" in parsed && ParseInt(parsed["top"]).Some?) ==> m.topK == Clamp(ParseInt(parsed["top"]).value)))
      && ((("top" !in parsed || ParseInt(parsed["top"]).None?) ==> m.topK == Clamp(a.topK)))
      && 1 <= m.topK <= 20
  {
  }

  /** `_match_filter`: never on an empty target; `=` asks for case-insensitive
      equality, otherwise a case-insensitive substring. */
  lemma MatchFilterSpec(f: string, target: string)
    ensures target == "" ==> !MatchFilter(f, target)
    ensures target != "" && |f| >= 1 && f[0] == '=' ==> (MatchFilter(f, target) <==> Lower(f[1..]) == Lower(target))
    ensures target != "" && (|f| == 0 || f[0] != '=') ==>
      (MatchFilter(f, target) <==> IsInfix(Lower(f), Lower(target)))
  {
    if target != "" && (|f| == 0 || f[0] != '=') {
      assert !StartsWith(f, "=") by {
        if |f| >= 1 { assert f[..1][0] == f[0]; }
      }
    }
  }

  /** Matching ignores case on the target: `Lower` is idempotent. */
  lemma MatchFilterCaseBlind(f: string, target: string)
    ensures MatchFilter(f, Lower(target)) == MatchFilter(f, target)
  {
    LowerIdempotent(target);
  }

  lemma LowerIdempotent(s: string)
    ensures Lower(Lower(s)) == Lower(s)
  {
    assert forall i :: 0 <= i < |s| ==> LowerChar(LowerChar(s[i])) == LowerChar(s[i]);
  }

  /** An alias decides the archive match, whether the filter is exact or not. */
  lemma MatchArchiveAlias(aliases: map<string, string>, f: string, ac: string)
    requires var raw := if StartsWith(f, "=") then f[1..] else f; Canonical(aliases, raw).Some?
    ensures var raw := if StartsWith(f, "=") then f[1..] else f;
      MatchArchive(aliases, f, ac) <==> ac != "" && Lower(ac) == Lower(Canonical(aliases, raw).value)
  {
  }

  /** Without an alias, the archive filter is `_match_filter`. */
  lemma MatchArchiveNoAlias(aliases: map<string, string>, f: string, ac: string)
    requires var raw := if StartsWith(f, "=") then f[1..] else f; Canonical(aliases, raw).None?
    ensures MatchArchive(aliases, f, ac) == MatchFilter(f, ac)
  {
  }

  /** Filtering keeps exactly the candidates that pass. */
  lemma {:induction false} FilterByMembers(keep: HitMeta -> bool, hits: seq<Hit>)
    ensures |FilterBy(keep, hits)| <= |hits|
    ensures forall h :: h in FilterBy(keep, hits) <==> h in hits && keep(h.meta)
  {
    if hits != [] {
      FilterByMembers(keep, hits[1..]);
      assert hits == [hits[0]] + hits[1..];
    }
  }

  /** Filtering keeps order: it distributes over concatenation. */
  lemma {:induction false} FilterByAppend(keep: HitMeta -> bool, x: seq<Hit>, y: seq<Hit>)
    ensures FilterBy(keep, x + y) == FilterBy(keep, x) + FilterBy(keep, y)
  {
    if x != [] {
      assert (x + y)[1..] == x[1..] + y;
      FilterByAppend(keep, x[1..], y);
    } else {
      assert x + y == y;
    }
  }

  /** A filter that accepts everything keeps everything. */
  lemma {:induction false} FilterByAll(keep: HitMeta -> bool, hits: seq<Hit>)
    requires forall m :: keep(m)
    ensures FilterBy(keep, hits) == hits
  {
    if hits != [] {
      FilterByAll(keep, hits[1..]);
    }
  }

  /** The client-side filters keep exactly the candidates that pass, in order, and
      keep everything when none is set. */
  lemma FilteredSpec(a: Args, aliases: map<string, string>, hits: seq<Hit>)
    ensures |Filtered(a, aliases, hits)| <= |hits|
    ensures forall h :: h in Filtered(a, aliases, hits) <==> h in hits && Passes(a, aliases, h.meta)
    ensures !NeedsClientFilter(a) ==> Filtered(a, aliases, hits) == hits
  {
    var keep := m => Passes(a, aliases, m);
    FilterByMembers(keep, hits);
    if !NeedsClientFilter(a) {
      FilterByAll(keep, hits);
    }
  }

  /** With a reranker, `run_search` returns at most the clamped count, each a candidate
      of the vector index that passes the filters; without one, it returns the
      filtered candidates unchanged and untruncated. */
  lemma FinishSpec(b: Backend, aliases: map<string, string>, query: string, a: Args, fetched: seq<Hit>)
    ensures var r := Finish(b, aliases, query, a, fetched);
      && (r.Success? && b.ranker.Some? && a.topK >= 0 ==> |r.value| <= a.topK)
      && (r.Success? ==> forall h :: h in r.value ==>
            exists g :: g in fetched && Passes(a, aliases, g.meta) && h == g.(rerankScore := h.rerankScore))
      && (b.ranker.None? ==> r == Success(if NeedsClientFilter(a) then Filtered(a, aliases, fetched) else fetched))
  {
    var kept := if NeedsClientFilter(a) then Filtered(a, aliases, fetched) else fetched;
    assert forall g :: g in kept ==> g in fetched && Passes(a, aliases, g.meta) by {
      FilteredSpec(a, aliases, fetched);
    }
    var r := Finish(b, aliases, query, a, fetched);
    if kept != [] && b.ranker.Some? && r.Success? {
      var ranked := Prefix(b.ranker.value(query, Passages(kept)), a.topK);
      assert r == Reranked(kept, ranked);
      RerankedFromKept(kept, ranked);
      forall h | h in r.value
        ensures exists g :: g in fetched && Passes(a, aliases, g.meta) && h == g.(rerankScore := h.rerankScore)
      {
        var g :| g in kept && h == g.(rerankScore := h.rerankScore);
      }
    }
  }

  /** Every reranked hit is one of the candidates with only its score changed. */
  lemma RerankedFromKept(hits: seq<Hit>, ranked: seq<Ranked>)
    requires Reranked(hits, ranked).Success?
    ensures forall h :: h in Reranked(hits, ranked).value ==>
      exists g :: g in hits && h == g.(rerankScore := h.rerankScore)
  {
    var r := Reranked(hits, ranked).value;
    RerankedFromCandidates(hits, ranked);
    forall h | h in r ensures exists g :: g in hits && h == g.(rerankScore := h.rerankScore) {
      var j :| 0 <= j < |r| && r[j] == h;
      var g := hits[Resolve(ranked[j].id, |hits|).value];
      assert g in hits && h == g.(rerankScore := h.rerankScore);
    }
  }

  /** The same for the whole of `run_search`: the count is clamped to 20. */
  lemma SearchResultSpec(b: Backend, aliases: map<string, string>, queryStr: string, args: Args)
    ensures var r := SearchResult(b, aliases, queryStr, args);
      r.Success? && b.ranker.Some? ==> |r.value| <= 20
  {
    var scan := Shorthand.Scan(queryStr, 0);
    var query := Shorthand.CleanQuery(scan.0);
    var a := Merge(args, Shorthand.FiltersOf(scan.1));
    FinishSpec(b, aliases, query, a, b.search(query, FetchSize(a), NativeFilter(a)));
  }

  /** The alias table `init_pipeline` loads: keys lower-cased, a later spelling of the
      same key winning, as a dictionary comprehension over the file's pairs does. */
  function AliasTable(pairs: seq<(string, string)>): map<string, string>
    decreases |pairs|
  {
    if pairs == [] then map[]
    else AliasTable(pairs[..|pairs| - 1])[Lower(pairs[|pairs| - 1].0) := pairs[|pairs| - 1].1]
  }

  /** Every key of the alias table is lower case and comes from the file. */
  lemma {:induction false} AliasTableKeys(pairs: seq<(string, string)>)
    ensures forall k :: k in AliasTable(pairs) ==> Lower(k) == k
    ensures forall k :: k in AliasTable(pairs) <==> exists i :: 0 <= i < |pairs| && Lower(pairs[i].0) == k
    decreases |pairs|
  {
    if pairs != [] {
      var front := pairs[..|pairs| - 1];
      AliasTableKeys(front);
      LowerIdempotent(pairs[|pairs| - 1].0);
      forall k | k in AliasTable(pairs) ensures exists i :: 0 <= i < |pairs| && Lower(pairs[i].0) == k {
        if k != Lower(pairs[|pairs| - 1].0) {
          assert k in AliasTable(front);
          var i :| 0 <= i < |front| && Lower(front[i].0) == k;
          assert pairs[i] == front[i];
        }
      }
      forall k | exists i :: 0 <= i < |pairs| && Lower(pairs[i].0) == k ensures k in AliasTable(pairs) {
        var i :| 0 <= i < |pairs| && Lower(pairs[i].0) == k;
        if i < |front| {
          assert front[i] == pairs[i];
        }
      }
    }
  }

  /** `get_archive_aliases`: a copy of the loaded table, so a caller's changes to it
      leave the table the filters use unchanged. */
  function ArchiveAliases(loaded: map<string, string>): (r: map<string, string>)
    ensures r.Keys == loaded.Keys && forall k :: k in r ==> r[k] == loaded[k]
  {
    map k | k in loaded :: loaded[k]
  }
}
