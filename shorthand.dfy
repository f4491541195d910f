/** The query shorthand of src/search_pipeline.py: `key:value` and `key:=value` tokens
    are cut out of a search query and recorded as filters, and the rest of the query is
    tidied. The regular expression `\b(KEYS):(=?)("[^"]+"|'[^']+'|\S+)` is modelled by
    hand, as is the scan `re.sub` makes over the query. */
module Shorthand {
  import opened Wrappers
  import opened Text

  /** `_SHORTHAND_KEYS`. A Python set has no fixed order; `MatchAtSpec` shows that the
      order of the alternation does not change what matches. */
  const Keys: seq<string> := ["type", "by", "tag", "in", "from", "to", "collection", "top"]

  /** `\b` just before a key: the key starts with a word character, so the boundary
      holds when the previous character is not one. */
  predicate BoundaryAt(q: string, i: nat) {
    i == 0 || (i <= |q| && !IsWordChar(q[i - 1]))
  }

  /** Key `k` and its colon are spelt at `i`. */
  predicate Spelt(q: string, i: nat, k: string)
    requires i <= |q|
  {
    StartsWith(q[i..], k + ":")
  }

  /** No key followed by a colon is a prefix of another one so followed. */
  lemma KeysPrefixFree(a: string, b: string)
    requires a in Keys && b in Keys && StartsWith(b + ":", a + ":")
    ensures a == b
  {
    assert forall k, j :: k in Keys && 0 <= j < |k| ==> 'a' <= k[j] <= 'z';
    assert (b + ":")[..|a + ":"|] == a + ":";
    assert (a + ":")[|a|] == ':';
    assert |a| == |b|;
    assert b == (b + ":")[..|b|] && a == (a + ":")[..|a|];
  }

  /** At most one key is spelt at any position. */
  lemma SpeltOnce(q: string, i: nat, a: string, b: string)
    requires i <= |q| && a in Keys && b in Keys && Spelt(q, i, a) && Spelt(q, i, b)
    ensures a == b
  {
    var s := q[i..];
    assert s[..|a + ":"|] == a + ":";
    assert s[..|b + ":"|] == b + ":";
    if |a| <= |b| {
      assert (b + ":")[..|a + ":"|] == s[..|a + ":"|];
      KeysPrefixFree(a, b);
    } else {
      assert (a + ":")[..|b + ":"|] == s[..|b + ":"|];
      KeysPrefixFree(b, a);
    }
  }

  /** The index of the first `quote` at or after `j`, or `|q|` when there is none. */
  function NextQuote(q: string, j: nat, quote: char): (e: nat)
    requires j <= |q|
    ensures j <= e <= |q|
    decreases |q| - j
  {
    if j == |q| || q[j] == quote then j else NextQuote(q, j + 1, quote)
  }

  /** `NextQuote` stops at the first quote. */
  lemma {:induction false} NextQuoteSpec(q: string, j: nat, quote: char)
    requires j <= |q|
    ensures var e := NextQuote(q, j, quote);
      (e < |q| ==> q[e] == quote) && forall k :: j <= k < e ==> q[k] != quote
    decreases |q| - j
  {
    if j < |q| && q[j] != quote {
      NextQuoteSpec(q, j + 1, quote);
    }
  }

  /** The length of the run of non-whitespace characters from `v` (`\S+`, greedy). */
  function NonSpaceRun(q: string, v: nat): (n: nat)
    requires v <= |q|
    ensures v + n <= |q|
    decreases |q| - v
  {
    if v == |q| || IsSpace(q[v]) then 0 else 1 + NonSpaceRun(q, v + 1)
  }

  /** The run is maximal and holds no whitespace. */
  lemma {:induction false} NonSpaceRunSpec(q: string, v: nat)
    requires v <= |q|
    ensures var n := NonSpaceRun(q, v);
      && (v + n == |q| || IsSpace(q[v + n]))
      && forall k :: v <= k < v + n ==> !IsSpace(q[k])
    decreases |q| - v
  {
    if v < |q| && !IsSpace(q[v]) {
      NonSpaceRunSpec(q, v + 1);
    }
  }

  /** `"[^"]+"` (or the single-quoted form) at `v`: the length of the quoted text with
      both quotes, when there is a closing quote after at least one other character. */
  function QuotedLen(q: string, v: nat, quote: char): (r: Option<nat>)
    requires v < |q|
    ensures r.Some? ==> 3 <= r.value && v + r.value <= |q|
  {
    if q[v] != quote then None
    else
      var e := NextQuote(q, v + 1, quote);
      if e < |q| && e > v + 1 then Some(e + 1 - v) else None
  }

  /** The value group: the first alternative that matches at `v`. */
  function ValueLen(q: string, v: nat): (r: Option<nat>)
    requires v <= |q|
    ensures r.Some? ==> 1 <= r.value && v + r.value <= |q|
  {
    if v == |q| then None
    else if QuotedLen(q, v, '"').Some? then QuotedLen(q, v, '"')
    else if QuotedLen(q, v, '\'').Some? then QuotedLen(q, v, '\'')
    else if IsSpace(q[v]) then None
    else Some(NonSpaceRun(q, v))
  }

  /** One match of the pattern: the key, whether `=` was taken, the value group as
      written, and the length of the whole match. */
  datatype Match = Match(key: string, exact: bool, raw: string, len: nat)

  /** The rest of the pattern once key `k` and its colon are matched at `i`. The
      optional `=` is greedy, and the engine gives it back when no value follows it; the
      value then starts at the `=` itself. */
  function MatchWithKey(q: string, i: nat, k: string): (r: Option<Match>)
    requires i + |k| + 1 <= |q|
    ensures r.Some? ==> r.value.key == k && 0 < r.value.len && i + r.value.len <= |q|
  {
    var j := i + |k| + 1;
    if j < |q| && q[j] == '=' && ValueLen(q, j + 1).Some? then
      var n := ValueLen(q, j + 1).value;
      Some(Match(k, true, q[j + 1..j + 1 + n], |k| + 2 + n))
    else match ValueLen(q, j)
      case None => None
      case Some(n) => Some(Match(k, false, q[j..j + n], |k| + 1 + n))
  }

  /** The key alternation, trying the keys of `keys` in turn. */
  function MatchFrom(q: string, i: nat, keys: seq<string>): (r: Option<Match>)
    requires i <= |q|
    ensures r.Some? ==> r.value.key in keys && 0 < r.value.len && i + r.value.len <= |q|
  {
    if keys == [] then None
    else if Spelt(q, i, keys[0]) then MatchWithKey(q, i, keys[0])
    else MatchFrom(q, i, keys[1..])
  }

  /** The match of the pattern starting at `i`, if any. */
  function MatchAt(q: string, i: nat): (r: Option<Match>)
    requires i <= |q|
    ensures r.Some? ==> 0 < r.value.len && i + r.value.len <= |q|
  {
    if BoundaryAt(q, i) then MatchFrom(q, i, Keys) else None
  }

  /** A match needs its key spelt at `i`. */
  lemma {:induction false} MatchFromSpelt(q: string, i: nat, keys: seq<string>)
    requires i <= |q|
    ensures var r := MatchFrom(q, i, keys);
      r.Some? ==> Spelt(q, i, r.value.key) && r == MatchWithKey(q, i, r.value.key)
  {
    if keys != [] && !Spelt(q, i, keys[0]) {
      MatchFromSpelt(q, i, keys[1..]);
    }
  }

  /** Whatever the order of the keys, the key spelt at `i` is the one matched. */
  lemma {:induction false} MatchFromKey(q: string, i: nat, keys: seq<string>, k: string)
    requires i <= |q| && (forall x :: x in keys ==> x in Keys)
    requires k in keys && Spelt(q, i, k)
    ensures MatchFrom(q, i, keys) == MatchWithKey(q, i, k)
  {
    if Spelt(q, i, keys[0]) {
      SpeltOnce(q, i, keys[0], k);
    } else {
      MatchFromKey(q, i, keys[1..], k);
    }
  }

  /** The pattern matches at `i` exactly when `i` is at a word boundary, a key and its
      colon are spelt there and a value follows; the order in which the keys are tried
      makes no difference. */
  lemma MatchAtSpec(q: string, i: nat)
    requires i <= |q|
    ensures MatchAt(q, i).Some? ==> BoundaryAt(q, i) && Spelt(q, i, MatchAt(q, i).value.key)
    ensures forall k :: k in Keys && BoundaryAt(q, i) && Spelt(q, i, k) ==> MatchAt(q, i) == MatchWithKey(q, i, k)
  {
    MatchFromSpelt(q, i, Keys);
    forall k | k in Keys && BoundaryAt(q, i) && Spelt(q, i, k) ensures MatchAt(q, i) == MatchWithKey(q, i, k) {
      MatchFromKey(q, i, Keys, k);
    }
  }

  predicate IsQuote(c: char) { c == '"' || c == '\'' }

  /** What `_replace` records for a match: the value with its quotes stripped, behind an
      `=` when the exact form was used. */
  function Recorded(m: Match): string {
    var val := StripChar(StripChar(m.raw, '"'), '\'');
    if m.exact then "=" + val else val
  }

  /** The scan of `re.sub(pattern, _replace, query)` from `i`: the text left after every
      match is replaced by nothing, and the `(key, value)` pairs recorded, in order. */
  function Scan(q: string, i: nat): (string, seq<(string, string)>)
    requires i <= |q|
    decreases |q| - i
  {
    if i == |q| then ("", [])
    else match MatchAt(q, i)
      case Some(m) =>
        var rest := Scan(q, i + m.len);
        (rest.0, [(m.key, Recorded(m))] + rest.1)
      case None =>
        var rest := Scan(q, i + 1);
        ([q[i]] + rest.0, rest.1)
  }

  /** The dictionary that assigning the pairs in order builds on top of `m`. */
  function Assign(m: map<string, string>, pairs: seq<(string, string)>): map<string, string>
    decreases |pairs|
  {
    if pairs == [] then m else Assign(m[pairs[0].0 := pairs[0].1], pairs[1..])
  }

  /** The `filters` dictionary `parse_shorthand` returns. */
  function FiltersOf(pairs: seq<(string, string)>): map<string, string> {
    Assign(map[], pairs)
  }

  /** `re.sub(r'\s{2,}', ' ', s)`: every run of two or more whitespace characters
      becomes one space; a single whitespace character stays as it is. */
  function Collapse(s: string): string
    decreases |s|
  {
    if |s| >= 2 && IsSpace(s[0]) && IsSpace(s[1]) then
      LStripSpec(s);
      " " + Collapse(LStrip(s))
    else if s == [] then []
    else [s[0]] + Collapse(s[1..])
  }

  /** The cleaned query: collapsed, then trimmed. */
  function CleanQuery(s: string): string {
    Strip(Collapse(s))
  }

  /** `parse_shorthand(query)`: the scan records each match in `filters`, later keys
      overwriting earlier ones, and keeps every other character; the kept text is then
      cleaned. */
  method ParseShorthand(query: string) returns (cleaned: string, filters: map<string, string>)
    ensures cleaned == CleanQuery(Scan(query, 0).0)
    ensures filters == FiltersOf(Scan(query, 0).1)
  {
    filters := map[];
    var kept := "";
    var i := 0;
    while i < |query|
      invariant 0 <= i <= |query|
      invariant kept + Scan(query, i).0 == Scan(query, 0).0
      invariant Assign(filters, Scan(query, i).1) == FiltersOf(Scan(query, 0).1)
      decreases |query| - i
    {
      AdvanceScan(query, i, kept, filters);
      kept, filters, i := Replace(query, i, kept, filters);
    }
    assert Scan(query, i) == ("", []);
    assert kept + "" == kept;
    cleaned := CleanQuery(kept);
  }

  /** One position of `re.sub`: the text kept there, the pair `_replace` records if
      the pattern matches, and where the scan resumes. */
  function Advance(q: string, i: nat): (r: (string, Option<(string, string)>, nat))
    requires i < |q|
    ensures i < r.2 <= |q|
  {
    match MatchAt(q, i)
    case Some(m) => ("", Some((m.key, Recorded(m))), i + m.len)
    case None => ([q[i]], None, i + 1)
  }

  /** The filters after one position: a recorded pair overwrites its key. */
  function Record(filters: map<string, string>, p: Option<(string, string)>): map<string, string> {
    if p.Some? then filters[p.value.0 := p.value.1] else filters
  }

  /** One position of the scan: a match at `i` is recorded in `filters` (the `_replace`
      callback) and skipped; any other character is kept. */
  method Replace(query: string, i: nat, kept: string, filters: map<string, string>)
    returns (kept': string, filters': map<string, string>, i': nat)
    requires i < |query|
    ensures kept' == kept + Advance(query, i).0
    ensures filters' == Record(filters, Advance(query, i).1)
    ensures i' == Advance(query, i).2
  {
    var m := MatchAt(query, i);
    if m.Some? {
      filters' := filters[m.value.key := Recorded(m.value)];
      kept' := kept;
      i' := i + m.value.len;
    } else {
      kept' := kept + [query[i]];
      filters' := filters;
      i' := i + 1;
    }
  }

  /** The scan from `i` is one position followed by the scan from where it resumes. */
  lemma AdvanceScan(query: string, i: nat, kept: string, filters: map<string, string>)
    requires i < |query|
    ensures var adv := Advance(query, i);
      && (kept + adv.0) + Scan(query, adv.2).0 == kept + Scan(query, i).0
      && Assign(Record(filters, adv.1), Scan(query, adv.2).1) == Assign(filters, Scan(query, i).1)
  {
    if MatchAt(query, i).Some? {
      AdvanceMatched(query, i, kept, filters);
    } else {
      AdvanceKept(query, i, kept, filters);
    }
  }

  lemma AdvanceMatched(query: string, i: nat, kept: string, filters: map<string, string>)
    requires i < |query| && MatchAt(query, i).Some?
    ensures var adv := Advance(query, i);
      && (kept + adv.0) + Scan(query, adv.2).0 == kept + Scan(query, i).0
      && Assign(Record(filters, adv.1), Scan(query, adv.2).1) == Assign(filters, Scan(query, i).1)
  {
    var m := MatchAt(query, i).value;
    assert Advance(query, i) == ("", Some((m.key, Recorded(m))), i + m.len);
    StepMatched(query, i, kept, filters);
  }

  lemma AdvanceKept(query: string, i: nat, kept: string, filters: map<string, string>)
    requires i < |query| && MatchAt(query, i).None?
    ensures var adv := Advance(query, i);
      && (kept + adv.0) + Scan(query, adv.2).0 == kept + Scan(query, i).0
      && Assign(Record(filters, adv.1), Scan(query, adv.2).1) == Assign(filters, Scan(query, i).1)
  {
    assert Advance(query, i) == ([query[i]], None, i + 1);
    StepKept(query, i, kept, filters);
  }

  /** A match is dropped from the text and assigned to the filters. */
  lemma StepMatched(query: string, i: nat, kept: string, filters: map<string, string>)
    requires i < |query| && MatchAt(query, i).Some?
    ensures var m := MatchAt(query, i).value;
      && (kept + "") + Scan(query, i + m.len).0 == kept + Scan(query, i).0
      && Assign(filters[m.key := Recorded(m)], Scan(query, i + m.len).1) == Assign(filters, Scan(query, i).1)
  {
    var m := MatchAt(query, i).value;
    ScanStep(query, i);
    AssignStep(filters, (m.key, Recorded(m)), Scan(query, i + m.len).1);
    assert kept + "" == kept;
  }

  /** Any other character is kept. */
  lemma StepKept(query: string, i: nat, kept: string, filters: map<string, string>)
    requires i < |query| && MatchAt(query, i).None?
    ensures (kept + [query[i]]) + Scan(query, i + 1).0 == kept + Scan(query, i).0
    ensures Assign(filters, Scan(query, i + 1).1) == Assign(filters, Scan(query, i).1)
  {
    ScanStep(query, i);
    assert (kept + [query[i]]) + Scan(query, i + 1).0 == kept + ([query[i]] + Scan(query, i + 1).0);
  }

  /** One step of the scan: a match is dropped and recorded, any other character kept. */
  lemma ScanStep(q: string, i: nat)
    requires i < |q|
    ensures MatchAt(q, i).Some? ==> var m := MatchAt(q, i).value;
      Scan(q, i) == (Scan(q, i + m.len).0, [(m.key, Recorded(m))] + Scan(q, i + m.len).1)
    ensures MatchAt(q, i).None? ==> Scan(q, i) == ([q[i]] + Scan(q, i + 1).0, Scan(q, i + 1).1)
  {
  }

  /** Assigning one more pair first. */
  lemma AssignStep(m: map<string, string>, p: (string, string), rest: seq<(string, string)>)
    ensures Assign(m, [p] + rest) == Assign(m[p.0 := p.1], rest)
  {
    assert ([p] + rest)[1..] == rest;
  }

  // ---------------------------------------------------------------------------------
  // Properties

  /** Every pair's key is in `keys`. */
  predicate KeyedPairs(pairs: seq<(string, string)>, keys: seq<string>) {
    pairs == [] || (pairs[0].0 in keys && KeyedPairs(pairs[1..], keys))
  }

  lemma {:induction false} KeyedMembers(pairs: seq<(string, string)>, keys: seq<string>)
    requires KeyedPairs(pairs, keys)
    ensures forall p :: p in pairs ==> p.0 in keys
  {
    if pairs != [] {
      KeyedMembers(pairs[1..], keys);
      assert pairs == [pairs[0]] + pairs[1..];
    }
  }

  lemma {:induction false} ScanKeyed(q: string, i: nat)
    requires i <= |q|
    ensures KeyedPairs(Scan(q, i).1, Keys)
    decreases |q| - i
  {
    if i < |q| {
      ScanStep(q, i);
      var r := MatchAt(q, i);
      if r.Some? {
        var rest := Scan(q, i + r.value.len).1;
        ScanKeyed(q, i + r.value.len);
        assert ([(r.value.key, Recorded(r.value))] + rest)[1..] == rest;
      } else {
        ScanKeyed(q, i + 1);
      }
    }
  }

  /** Every recorded key is a shorthand key. */
  lemma ScanKeys(q: string, i: nat)
    requires i <= |q|
    ensures forall p :: p in Scan(q, i).1 ==> p.0 in Keys
  {
    ScanKeyed(q, i);
    KeyedMembers(Scan(q, i).1, Keys);
  }

  /** A query in which the pattern matches nowhere is kept whole and gives no filters. */
  lemma {:induction false} NoShorthand(q: string, i: nat)
    requires i <= |q|
    requires forall j :: i <= j <= |q| ==> MatchAt(q, j).None?
    ensures Scan(q, i) == (q[i..], [])
    decreases |q| - i
  {
    if i < |q| {
      NoShorthand(q, i + 1);
      assert q[i..] == [q[i]] + q[i + 1..];
    }
  }

  /** The value of the last pair with key `k`, if any: what a dictionary filled from
      the pairs in order ends up holding. */
  function Last(pairs: seq<(string, string)>, k: string): Option<string> {
    if pairs == [] then None
    else if pairs[|pairs| - 1].0 == k then Some(pairs[|pairs| - 1].1)
    else Last(pairs[..|pairs| - 1], k)
  }

  /** `Last` finds the last occurrence of the key, and nothing when it does not occur. */
  lemma {:induction false} LastSpec(pairs: seq<(string, string)>, k: string)
    ensures Last(pairs, k).None? <==> forall j :: 0 <= j < |pairs| ==> pairs[j].0 != k
    ensures Last(pairs, k).Some? ==>
      exists j :: 0 <= j < |pairs| && pairs[j] == (k, Last(pairs, k).value) && forall l :: j < l < |pairs| ==> pairs[l].0 != k
  {
    if pairs != [] {
      var init := pairs[..|pairs| - 1];
      if pairs[|pairs| - 1].0 != k {
        LastSpec(init, k);
        if Last(pairs, k).Some? {
          var j :| 0 <= j < |init| && init[j] == (k, Last(init, k).value)
            && forall l :: j < l < |init| ==> init[l].0 != k;
          assert pairs[j] == init[j];
          assert forall l :: j < l < |pairs| ==> pairs[l].0 != k by {
            forall l | j < l < |pairs| ensures pairs[l].0 != k {
              if l < |init| { assert pairs[l] == init[l]; }
            }
          }
        } else {
          forall j | 0 <= j < |pairs| ensures pairs[j].0 != k {
            if j < |init| { assert pairs[j] == init[j]; }
          }
        }
      } else {
        assert pairs[|pairs| - 1] == (k, Last(pairs, k).value);
      }
    }
  }

  /** Assigning a last pair is updating the dictionary built from the others. */
  lemma {:induction false} AssignSnoc(m: map<string, string>, pairs: seq<(string, string)>, p: (string, string))
    ensures Assign(m, pairs + [p]) == Assign(m, pairs)[p.0 := p.1]
    decreases |pairs|
  {
    if pairs == [] {
      assert pairs + [p] == [p];
      assert [p][1..] == [];
    } else {
      assert (pairs + [p])[1..] == pairs[1..] + [p];
      assert (pairs + [p])[0] == pairs[0];
      AssignSnoc(m[pairs[0].0 := pairs[0].1], pairs[1..], p);
    }
  }

  /** Each key of the dictionary holds the value of its last pair; a key no pair
      mentions keeps what it had. */
  lemma {:induction false} AssignLast(m: map<string, string>, pairs: seq<(string, string)>, k: string)
    ensures Last(pairs, k).Some? ==> k in Assign(m, pairs) && Assign(m, pairs)[k] == Last(pairs, k).value
    ensures Last(pairs, k).None? ==> (k in Assign(m, pairs) <==> k in m)
    ensures Last(pairs, k).None? && k in m ==> Assign(m, pairs)[k] == m[k]
    decreases |pairs|
  {
    if pairs != [] {
      var init := pairs[..|pairs| - 1];
      var p := pairs[|pairs| - 1];
      assert pairs == init + [p];
      AssignSnoc(m, init, p);
      AssignLast(m, init, k);
    }
  }

  /** `filters` holds exactly the recorded keys, each with the value of its last
      occurrence: a repeated key keeps its last value. */
  lemma FiltersLastWins(pairs: seq<(string, string)>, k: string)
    ensures k in FiltersOf(pairs) <==> Last(pairs, k).Some?
    ensures k in FiltersOf(pairs) ==> FiltersOf(pairs)[k] == Last(pairs, k).value
  {
    AssignLast(map[], pairs, k);
  }

  /** With no shorthand in the query the filters are empty. */
  lemma NoFilters(q: string)
    requires forall j :: 0 <= j <= |q| ==> MatchAt(q, j).None?
    ensures FiltersOf(Scan(q, 0).1) == map[]
    ensures Scan(q, 0).0 == q
  {
    NoShorthand(q, 0);
  }

  /** A value with no quote at either end is recorded as written, behind an `=` in the
      exact form. */
  lemma RecordedUnquoted(m: Match)
    requires m.raw != [] && !IsQuote(m.raw[0]) && !IsQuote(m.raw[|m.raw| - 1])
    ensures Recorded(m) == (if m.exact then "=" else "") + m.raw
  {
    StripCharNoop(m.raw, '"');
    StripCharNoop(m.raw, '\'');
  }

  /** A value in double quotes is recorded without them. */
  lemma RecordedQuoted(m: Match, inner: string)
    requires m.raw == "\"" + inner + "\""
    requires inner != [] && !IsQuote(inner[0]) && !IsQuote(inner[|inner| - 1])
    ensures Recorded(m) == (if m.exact then "=" else "") + inner
  {
    StripCharFrame(inner, '"');
    StripCharNoop(inner, '\'');
  }

  // ---------------------------------------------------------------------------------
  // The cleaned query

  /** No two whitespace characters are adjacent. */
  predicate NoDoubleSpace(s: string) {
    forall i :: 0 <= i < |s| - 1 ==> !(IsSpace(s[i]) && IsSpace(s[i + 1]))
  }

  /** The non-whitespace characters of `s`, in order. */
  function Content(s: string): string {
    if s == [] then [] else (if IsSpace(s[0]) then [] else [s[0]]) + Content(s[1..])
  }

  /** Collapsing keeps the first character's kind, joins no whitespace runs, and keeps
      every non-whitespace character in order. */
  lemma {:induction false} CollapseSpec(s: string)
    ensures Collapse(s) == [] <==> s == []
    ensures Collapse(s) != [] ==> (IsSpace(Collapse(s)[0]) <==> IsSpace(s[0]))
    ensures NoDoubleSpace(Collapse(s))
    ensures Content(Collapse(s)) == Content(s)
    decreases |s|, 1
  {
    if |s| >= 2 && IsSpace(s[0]) && IsSpace(s[1]) {
      CollapseSpecRun(s);
    } else if s != [] {
      CollapseSpecChar(s);
    }
  }

  /** `CollapseSpec` when `s` opens with a whitespace run. */
  lemma {:induction false} CollapseSpecRun(s: string)
    requires |s| >= 2 && IsSpace(s[0]) && IsSpace(s[1])
    ensures Collapse(s) != [] && IsSpace(Collapse(s)[0])
    ensures NoDoubleSpace(Collapse(s))
    ensures Content(Collapse(s)) == Content(s)
    decreases |s|, 0
  {
    LStripSpec(s);
    var t := LStrip(s);
    CollapseSpec(t);
    ContentBlankPrefix(s, |s| - |t|);
    ConsFacts(' ', Collapse(t));
  }

  /** `CollapseSpec` when the first character of `s` is kept as it is. */
  lemma {:induction false} CollapseSpecChar(s: string)
    requires s != [] && !(|s| >= 2 && IsSpace(s[0]) && IsSpace(s[1]))
    ensures Collapse(s) != [] && Collapse(s)[0] == s[0]
    ensures NoDoubleSpace(Collapse(s))
    ensures Content(Collapse(s)) == Content(s)
    decreases |s|, 0
  {
    CollapseSpec(s[1..]);
    ConsFacts(s[0], Collapse(s[1..]));
    if |s| >= 2 {
      assert s[1..][0] == s[1];
    }
  }

  /** What putting one character in front of a text does to its content and its
      whitespace runs. */
  lemma ConsFacts(c: char, x: string)
    ensures ([c] + x)[0] == c && ([c] + x)[1..] == x
    ensures Content([c] + x) == (if IsSpace(c) then Content(x) else [c] + Content(x))
    ensures NoDoubleSpace(x) && (x == [] || !(IsSpace(c) && IsSpace(x[0]))) ==> NoDoubleSpace([c] + x)
  {
    var s := [c] + x;
    assert s[1..] == x;
    if !IsSpace(c) {
      assert Content(s) == [c] + Content(x);
    } else {
      assert Content(s) == [] + Content(x);
      assert [] + Content(x) == Content(x);
    }
    if NoDoubleSpace(x) && (x == [] || !(IsSpace(c) && IsSpace(x[0]))) {
      forall i | 0 <= i < |s| - 1 ensures !(IsSpace(s[i]) && IsSpace(s[i + 1])) {
        if i > 0 {
          assert s[i] == x[i - 1] && s[i + 1] == x[i];
        }
      }
    }
  }

  /** Whitespace in front of a text adds nothing to its content. */
  lemma {:induction false} ContentBlankPrefix(s: string, k: nat)
    requires k <= |s| && forall i :: 0 <= i < k ==> IsSpace(s[i])
    ensures Content(s) == Content(s[k..])
    decreases k
  {
    if k > 0 {
      ContentBlankPrefix(s[1..], k - 1);
      assert s[1..][k - 1..] == s[k..];
    }
  }

  /** The content of a concatenation. */
  lemma {:induction false} ContentAppend(a: string, b: string)
    ensures Content(a + b) == Content(a) + Content(b)
    decreases |a|
  {
    if a != [] {
      ContentAppend(a[1..], b);
      assert (a + b)[1..] == a[1..] + b;
    } else {
      assert a + b == b;
    }
  }

  /** Leading whitespace in front of text that ends in a non-whitespace character is
      stripped without reaching what follows. */
  lemma {:induction false} LStripAppend(a: string, t: string)
    requires a != [] && !IsSpace(a[|a| - 1])
    ensures LStrip(a + t) == LStrip(a) + t
    decreases |a|
  {
    if IsSpace(a[0]) {
      assert (a + t)[1..] == a[1..] + t;
      LStripAppend(a[1..], t);
    }
  }

  /** Stripping a blank prefix leaves what follows it, when that does not start with
      whitespace. */
  lemma {:induction false} LStripBlankPrefix(w: string, b: string)
    requires IsBlank(w) && (b == [] || !IsSpace(b[0]))
    ensures LStrip(w + b) == b
    decreases |w|
  {
    if w == [] {
      assert w + b == b;
    } else {
      assert (w + b)[1..] == w[1..] + b;
      LStripBlankPrefix(w[1..], b);
    }
  }

  /** The collapse works run by run: text that ends in a non-whitespace character is
      collapsed on its own, whatever follows it. */
  lemma {:induction false} CollapseAppend(a: string, t: string)
    requires a == [] || !IsSpace(a[|a| - 1])
    ensures Collapse(a + t) == Collapse(a) + Collapse(t)
    decreases |a|, 1
  {
    if a == [] {
      assert a + t == t;
    } else if |a| >= 2 && IsSpace(a[0]) && IsSpace(a[1]) {
      CollapseAppendRun(a, t);
    } else {
      CollapseAppendChar(a, t);
    }
  }

  /** `CollapseAppend` when `a` opens with a whitespace run. */
  lemma {:induction false} CollapseAppendRun(a: string, t: string)
    requires |a| >= 2 && IsSpace(a[0]) && IsSpace(a[1]) && !IsSpace(a[|a| - 1])
    ensures Collapse(a + t) == Collapse(a) + Collapse(t)
    decreases |a|, 0
  {
    LStripSpec(a);
    LStripAppend(a, t);
    var r := LStrip(a);
    assert r[|r| - 1] == a[|a| - 1];
    var at := a + t;
    assert at[0] == a[0] && at[1] == a[1];
    assert Collapse(at) == " " + Collapse(r + t);
    CollapseAppend(r, t);
    ConcatAssoc(" ", Collapse(r), Collapse(t));
  }

  /** `CollapseAppend` when `a` opens with a character kept as it is. */
  lemma {:induction false} CollapseAppendChar(a: string, t: string)
    requires a != [] && !(|a| >= 2 && IsSpace(a[0]) && IsSpace(a[1])) && !IsSpace(a[|a| - 1])
    ensures Collapse(a + t) == Collapse(a) + Collapse(t)
    decreases |a|, 0
  {
    var at := a + t;
    TailAppend(a, t);
    assert at[0] == a[0];
    if |a| >= 2 {
      assert at[1] == a[1];
    }
    assert Collapse(at) == [a[0]] + Collapse(a[1..] + t);
    CollapseAppend(a[1..], t);
    ConcatAssoc([a[0]], Collapse(a[1..]), Collapse(t));
  }

  lemma TailAppend(a: string, t: string)
    requires a != []
    ensures (a + t)[1..] == a[1..] + t
  {
  }

  /** A whitespace run between two words becomes a single space when it is two or more
      characters long, and a single whitespace character is kept as it is. */
  lemma CollapseRun(a: string, w: string, b: string)
    requires a == [] || !IsSpace(a[|a| - 1])
    requires IsBlank(w)
    requires b == [] || !IsSpace(b[0])
    ensures Collapse(a + w + b) == Collapse(a) + (if |w| >= 2 then " " else w) + Collapse(b)
  {
    ConcatAssoc(a, w, b);
    CollapseAppend(a, w + b);
    CollapseBlankRun(w, b);
    ConcatAssoc(Collapse(a), if |w| >= 2 then " " else w, Collapse(b));
  }

  lemma ConcatAssoc(x: string, y: string, z: string)
    ensures x + y + z == x + (y + z)
  {
  }

  /** A whitespace run in front of text that does not start with whitespace. */
  lemma CollapseBlankRun(w: string, b: string)
    requires IsBlank(w)
    requires b == [] || !IsSpace(b[0])
    ensures Collapse(w + b) == (if |w| >= 2 then " " else w) + Collapse(b)
  {
    if |w| >= 2 {
      assert (w + b)[0] == w[0] && (w + b)[1] == w[1];
      LStripBlankPrefix(w, b);
    } else if |w| == 1 {
      assert (w + b)[0] == w[0] && (w + b)[1..] == b;
      if b != [] {
        assert (w + b)[1] == b[0];
      }
    } else {
      assert w + b == b;
    }
  }

  /** Text with no two adjacent whitespace characters is left as it is. */
  lemma {:induction false} CollapseNoRun(s: string)
    requires NoDoubleSpace(s)
    ensures Collapse(s) == s
    decreases |s|
  {
    if s != [] {
      assert NoDoubleSpace(s[1..]) by {
        forall i | 0 <= i < |s[1..]| - 1 ensures !(IsSpace(s[1..][i]) && IsSpace(s[1..][i + 1])) {
          assert s[1..][i] == s[i + 1] && s[1..][i + 1] == s[i + 2];
        }
      }
      CollapseNoRun(s[1..]);
      assert s == [s[0]] + s[1..];
    }
  }

  /** The cleaned query has no leading or trailing whitespace, no two whitespace
      characters side by side, and the same non-whitespace characters in the same order
      as the text it was made from. */
  lemma CleanQuerySpec(s: string)
    ensures var c := CleanQuery(s);
      && (c != [] ==> !IsSpace(c[0]) && !IsSpace(c[|c| - 1]))
      && NoDoubleSpace(c)
      && Content(c) == Content(s)
  {
    var t := Collapse(s);
    CollapseSpec(s);
    StripEdges(t);
    StripNoDoubleSpace(t);
    StripContent(t);
  }

  /** Trimming keeps a text free of adjacent whitespace. */
  lemma StripNoDoubleSpace(t: string)
    requires NoDoubleSpace(t)
    ensures NoDoubleSpace(Strip(t))
  {
    StripShape(t);
    var c := Strip(t);
    var k := |t| - |LStrip(t)|;
    assert t[k..k + |c|] == c;
    forall i | 0 <= i < |c| - 1 ensures !(IsSpace(c[i]) && IsSpace(c[i + 1])) {
      assert c[i] == t[k + i] && c[i + 1] == t[k + i + 1];
    }
  }

  /** Trimming removes whitespace only. */
  lemma StripContent(t: string)
    ensures Content(Strip(t)) == Content(t)
  {
    StripShape(t);
    var c := Strip(t);
    var k := |t| - |LStrip(t)|;
    var a, b := t[..k], t[k + |c|..];
    assert t == a + c + b;
    ContentAppend(a + c, b);
    ContentAppend(a, c);
    ContentBlankPrefix(a, k);
    ContentBlankPrefix(b, |b|);
    assert a[k..] == [] && b[|b|..] == [];
  }

  // ---------------------------------------------------------------------------------
  // Queries written in shorthand only

  /** A value the `\S+` alternative takes whole and `_replace` records unchanged: no
      whitespace, no quotes, and no leading `=`. */
  predicate PlainValue(v: string) {
    v != [] && v[0] != '=' && forall c :: 0 <= c < |v| ==> !IsSpace(v[c]) && !IsQuote(v[c])
  }

  /** Pairs of a shorthand key and a plain value. */
  predicate PlainPairs(pairs: seq<(string, string)>) {
    pairs == [] || (pairs[0].0 in Keys && PlainValue(pairs[0].1) && PlainPairs(pairs[1..]))
  }

  /** Shorthand tokens `key:value` separated by single spaces. */
  function Render(pairs: seq<(string, string)>): string {
    if pairs == [] then []
    else if |pairs| == 1 then pairs[0].0 + ":" + pairs[0].1
    else pairs[0].0 + ":" + pairs[0].1 + " " + Render(pairs[1..])
  }

  function Spaces(n: nat): (r: string)
    ensures |r| == n && forall i :: 0 <= i < n ==> r[i] == ' '
  {
    if n == 0 then [] else [' '] + Spaces(n - 1)
  }

  /** The pairs are spelt from `i` on: each `key:value` token, a single space after
      every token but the last, and the last token ending the query. */
  predicate RendersAt(q: string, i: nat, pairs: seq<(string, string)>)
    decreases |pairs|
  {
    i <= |q| && |pairs| >= 1 &&
    var after := i + |pairs[0].0| + 1 + |pairs[0].1|;
    && StartsWith(q[i..], pairs[0].0 + ":" + pairs[0].1)
    && if |pairs| == 1 then after == |q|
       else after < |q| && q[after] == ' ' && RendersAt(q, after + 1, pairs[1..])
  }

  /** A query that is the rendering of the pairs from `i` on spells them there. */
  lemma {:induction false} RenderedAt(q: string, i: nat, pairs: seq<(string, string)>)
    requires |pairs| >= 1 && i <= |q| && q[i..] == Render(pairs)
    ensures RendersAt(q, i, pairs)
    decreases |pairs|
  {
    if |pairs| == 1 {
      var t := pairs[0].0 + ":" + pairs[0].1;
      assert q[i..] == t;
      assert q[i..][..|t|] == t;
    } else {
      RenderCons(q, i, pairs);
      RenderedAt(q, i + |pairs[0].0| + 1 + |pairs[0].1| + 1, pairs[1..]);
    }
  }

  /** A query made of `key:value` tokens only is read back as exactly those pairs,
      leaving just the spaces between them. */
  lemma {:induction false} ScanRender(q: string, i: nat, pairs: seq<(string, string)>)
    requires PlainPairs(pairs) && RendersAt(q, i, pairs) && BoundaryAt(q, i)
    ensures Scan(q, i).0 == Spaces(|pairs| - 1)
    ensures Scan(q, i).1 == pairs
    decreases |pairs|
  {
    var k, v := pairs[0].0, pairs[0].1;
    var after := i + |k| + 1 + |v|;
    if |pairs| == 1 {
      assert q[i..] == q[i..][..|k + ":" + v|];
      LastToken(q, i, k, v);
      assert [(k, v)] == pairs;
      assert Spaces(0) == [];
    } else {
      ScanRender(q, after + 1, pairs[1..]);
      TokenThenSpace(q, i, k, v, after);
      ScanJoin(Scan(q, i).0, Scan(q, i).1, Scan(q, after + 1).0, Scan(q, after + 1).1, pairs);
    }
  }

  /** The first pair and a space in front of the scan of the rest. */
  lemma ScanJoin(left: string, found: seq<(string, string)>, restLeft: string, restFound: seq<(string, string)>,
                 pairs: seq<(string, string)>)
    requires |pairs| >= 2
    requires restLeft == Spaces(|pairs[1..]| - 1) && restFound == pairs[1..]
    requires left == [' '] + restLeft && found == [(pairs[0].0, pairs[0].1)] + restFound
    ensures left == Spaces(|pairs| - 1) && found == pairs
  {
    assert pairs == [(pairs[0].0, pairs[0].1)] + pairs[1..];
    assert Spaces(|pairs| - 1) == [' '] + Spaces(|pairs[1..]| - 1);
  }

  /** A rendered list of two or more pairs is its first token, a space, and the rest. */
  lemma RenderCons(q: string, i: nat, pairs: seq<(string, string)>)
    requires |pairs| >= 2 && i <= |q| && q[i..] == Render(pairs)
    ensures var after := i + |pairs[0].0| + 1 + |pairs[0].1|;
      && StartsWith(q[i..], pairs[0].0 + ":" + pairs[0].1)
      && after < |q| && q[after] == ' ' && q[after + 1..] == Render(pairs[1..])
  {
    var t := pairs[0].0 + ":" + pairs[0].1;
    assert Render(pairs) == t + (" " + Render(pairs[1..]));
    TokenSpaceRest(q, i, t, Render(pairs[1..]));
  }

  /** A query that continues with `t`, a space and `r` from `i` on. */
  lemma TokenSpaceRest(q: string, i: nat, t: string, r: string)
    requires i <= |q| && q[i..] == t + (" " + r)
    ensures StartsWith(q[i..], t) && i + |t| < |q| && q[i + |t|] == ' ' && q[i + |t| + 1..] == r
  {
    var after := i + |t|;
    assert q[after..] == q[i..][|t|..];
    assert q[i..][..|t|] == t;
    assert q[after + 1..] == q[after..][1..];
  }

  /** A token that ends the query is recorded and leaves nothing. */
  lemma LastToken(q: string, i: nat, k: string, v: string)
    requires k in Keys && PlainValue(v) && i <= |q| && BoundaryAt(q, i)
    requires q[i..] == k + ":" + v
    ensures Scan(q, i) == ("", [(k, v)])
  {
    var len := |k| + 1 + |v|;
    assert q[i..][..len] == q[i..];
    var m := FirstToken(q, i, k, v, true);
    ScanStep(q, i);
    assert Scan(q, i + len) == ("", []);
    assert [(k, v)] + [] == [(k, v)];
  }

  /** A token followed by a space: the token is recorded, the space kept. */
  lemma TokenThenSpace(q: string, i: nat, k: string, v: string, e: nat)
    requires k in Keys && PlainValue(v) && i <= |q| && BoundaryAt(q, i)
    requires StartsWith(q[i..], k + ":" + v)
    requires e == i + |k| + 1 + |v| && e < |q| && q[e] == ' '
    ensures Scan(q, i).0 == [' '] + Scan(q, e + 1).0
    ensures Scan(q, i).1 == [(k, v)] + Scan(q, e + 1).1
  {
    var m := FirstToken(q, i, k, v, false);
    ScanStep(q, i);
    assert i + m.len == e;
    assert Scan(q, i) == (Scan(q, e).0, [(k, v)] + Scan(q, e).1);
    NoMatchBeforeLetter(q, e);
    ScanStep(q, e);
  }

  /** Every key starts with a lower-case letter, so no match starts anywhere else. */
  lemma NoMatchBeforeLetter(q: string, i: nat)
    requires i < |q| && !('a' <= q[i] <= 'z')
    ensures MatchAt(q, i).None?
  {
    KeysLower();
    NoMatchFromBeforeLetter(q, i, Keys);
  }

  lemma {:induction false} NoMatchFromBeforeLetter(q: string, i: nat, keys: seq<string>)
    requires i < |q| && !('a' <= q[i] <= 'z')
    requires forall k :: k in keys ==> k != [] && 'a' <= k[0] <= 'z'
    ensures MatchFrom(q, i, keys).None?
  {
    if keys != [] {
      assert keys[0] in keys;
      SpeltHead(q, i, keys[0]);
      assert forall k :: k in keys[1..] ==> k in keys;
      NoMatchFromBeforeLetter(q, i, keys[1..]);
    }
  }

  /** A spelt key starts at its first letter. */
  lemma SpeltHead(q: string, i: nat, k: string)
    requires i < |q| && k != []
    ensures Spelt(q, i, k) ==> q[i] == k[0]
  {
    if Spelt(q, i, k) {
      assert q[i..][..|k| + 1] == k + ":";
      assert q[i..][..|k| + 1][0] == q[i];
    }
  }

  /** Every key is spelt in lower-case letters. */
  lemma KeysLower()
    ensures forall k :: k in Keys ==> k != [] && 'a' <= k[0] <= 'z'
  {
  }

  /** The first token of such a query is one match, recording its value unchanged. */
  lemma FirstToken(q: string, i: nat, k: string, v: string, last: bool) returns (m: Match)
    requires k in Keys && PlainValue(v) && i <= |q| && BoundaryAt(q, i)
    requires var t := k + ":" + v; StartsWith(q[i..], t)
    requires var e := i + |k| + 1 + |v|; if last then e == |q| else e < |q| && q[e] == ' '
    ensures m == Match(k, false, v, |k| + 1 + |v|)
    ensures MatchAt(q, i) == Some(m) && Recorded(m) == v
  {
    assert q[i..][..|k| + 1 + |v|] == k + ":" + v;
    assert Spelt(q, i, k) by {
      assert q[i..][..|k| + 1] == (k + ":" + v)[..|k| + 1];
    }
    assert MatchAt(q, i) == MatchWithKey(q, i, k) by {
      MatchFromKey(q, i, Keys, k);
    }
    m := Match(k, false, v, |k| + 1 + |v|);
    PlainMatch(q, i, k, v, last);
    RecordedUnquoted(m);
  }

  /** A key, a colon and a plain value make an unquoted, inexact match. */
  lemma PlainMatch(q: string, i: nat, k: string, v: string, last: bool)
    requires PlainValue(v) && i <= |q|
    requires var t := k + ":" + v; StartsWith(q[i..], t)
    requires var e := i + |k| + 1 + |v|; if last then e == |q| else e < |q| && q[e] == ' '
    ensures MatchWithKey(q, i, k) == Some(Match(k, false, v, |k| + 1 + |v|))
  {
    var j := i + |k| + 1;
    var s, n := q[i..], |k| + 1 + |v|;
    assert s[..n] == k + ":" + v;
    assert (k + ":" + v)[|k| + 1..] == v;
    assert q[j..j + |v|] == s[..n][|k| + 1..];
    PlainValueLen(q, j, v);
  }

  /** A plain value followed by whitespace or the end is the whole value group. */
  lemma PlainValueLen(q: string, j: nat, v: string)
    requires PlainValue(v) && j + |v| <= |q| && q[j..j + |v|] == v
    requires j + |v| == |q| || IsSpace(q[j + |v|])
    ensures ValueLen(q, j) == Some(|v|) && q[j] != '='
  {
    assert q[j] == v[0];
    NonSpaceRunSpec(q, j);
    assert forall t :: j <= t < j + |v| ==> !IsSpace(q[t]) by {
      forall t | j <= t < j + |v| ensures !IsSpace(q[t]) {
        assert q[t] == q[j..j + |v|][t - j];
      }
    }
  }

  /** Parsing a query written in shorthand only: the cleaned query is empty and the
      filters are the pairs, a repeated key keeping its last value. */
  lemma ParseRendered(pairs: seq<(string, string)>)
    requires |pairs| >= 1 && PlainPairs(pairs)
    ensures Scan(Render(pairs), 0).1 == pairs
    ensures CleanQuery(Scan(Render(pairs), 0).0) == ""
  {
    var q := Render(pairs);
    RenderedAt(q, 0, pairs);
    ScanRender(q, 0, pairs);
    var sp := Spaces(|pairs| - 1);
    CollapseSpec(sp);
    ContentBlankPrefix(sp, |sp|);
    ContentBlankPrefix(Collapse(sp), 0);
    BlankByContent(Collapse(sp));
    StripShape(Collapse(sp));
  }

  lemma ContentCons(s: string)
    requires s != []
    ensures IsSpace(s[0]) ==> Content(s) == Content(s[1..])
    ensures !IsSpace(s[0]) ==> Content(s) == [s[0]] + Content(s[1..])
  {
  }

  /** A text without content is blank. */
  lemma {:induction false} BlankByContent(s: string)
    requires Content(s) == []
    ensures IsBlank(s)
    decreases |s|
  {
    if s != [] {
      ContentCons(s);
      BlankByContent(s[1..]);
      forall i | 0 <= i < |s| ensures IsSpace(s[i]) {
        if i > 0 { assert s[i] == s[1..][i - 1]; }
      }
    }
  }

  /** The usage the documentation shows, `type:hearing by:Volcker`. */
  lemma DocumentedUsage()
    ensures var q := "type:hearing by:Volcker";
      && Scan(q, 0).1 == [("type", "hearing"), ("by", "Volcker")]
      && CleanQuery(Scan(q, 0).0) == ""
  {
    var pairs := [("type", "hearing"), ("by", "Volcker")];
    assert pairs[1..] == [("by", "Volcker")];
    assert Render(pairs) == "type:hearing by:Volcker";
    assert PlainValue("hearing") && PlainValue("Volcker");
    assert PlainPairs(pairs) by {
      assert [("by", "Volcker")][1..] == [];
    }
    ParseRendered(pairs);
  }

  /** A spelt key puts its colon within ten characters of the key's start. */
  lemma SpeltColon(q: string, i: nat, k: string)
    requires k in Keys && i <= |q| && Spelt(q, i, k)
    ensures |k| <= 10 && i + |k| < |q| && q[i + |k|] == ':'
  {
    assert (k + ":")[|k|] == ':';
    assert q[i + |k|] == q[i..][..|k| + 1][|k|];
  }

  /** No match starts where no colon follows within the length of the longest key. */
  lemma NoColonNoMatch(q: string, i: nat)
    requires i < |q|
    requires forall j :: i <= j < |q| && j <= i + 10 ==> q[j] != ':'
    ensures MatchAt(q, i).None?
  {
    if MatchAt(q, i).Some? {
      MatchFromSpelt(q, i, Keys);
      SpeltColon(q, i, MatchAt(q, i).value.key);
    }
  }

  /** The scan keeps a stretch of text in which no match starts. */
  lemma {:induction false} ScanUnmatched(q: string, i: nat, e: nat)
    requires i <= e <= |q|
    requires forall j :: i <= j < e ==> MatchAt(q, j).None?
    ensures Scan(q, i).0 == q[i..e] + Scan(q, e).0
    ensures Scan(q, i).1 == Scan(q, e).1
    decreases e - i
  {
    if i < e {
      ScanStep(q, i);
      ScanUnmatched(q, i + 1, e);
      SliceCons(q, i, e);
      ConcatAssoc([q[i]], q[i + 1..e], Scan(q, e).0);
    }
  }

  lemma SliceCons(q: string, i: nat, e: nat)
    requires i < e <= |q|
    ensures q[i..e] == [q[i]] + q[i + 1..e]
  {
  }

  /** No match starts in the words `banking  reform `, so the scan keeps them. */
  lemma WordsKept(q: string)
    requires q == "banking  reform type:hearing"
    ensures Scan(q, 0).0 == q[0..16] + Scan(q, 16).0 && Scan(q, 0).1 == Scan(q, 16).1
  {
    forall j | 0 <= j < 16 ensures MatchAt(q, j).None? {
      if j <= 9 {
        NoColonNoMatch(q, j);
      } else if j < 15 {
        assert !BoundaryAt(q, j);
      } else {
        NoMatchBeforeLetter(q, j);
      }
    }
    ScanUnmatched(q, 0, 16);
  }

  /** The filter at the end of `banking  reform type:hearing` is recorded. */
  lemma FilterRecorded(q: string)
    requires q == "banking  reform type:hearing"
    ensures Scan(q, 16) == ("", [("type", "hearing")])
  {
    assert BoundaryAt(q, 16) && q[16..] == "type:hearing" by {
      assert q[15] == ' ';
    }
    assert PlainValue("hearing");
    LastToken(q, 16, "type", "hearing");
  }

  /** The scan of `banking  reform type:hearing` keeps the words and their spaces and
      records the filter. */
  lemma WordsAndFilterScan(q: string)
    requires q == "banking  reform type:hearing"
    ensures Scan(q, 0) == ("banking  reform ", [("type", "hearing")])
  {
    WordsKept(q);
    FilterRecorded(q);
    var words: string := "banking  reform ";
    assert q[0..16] == words;
    assert words + "" == words;
    var s0 := Scan(q, 0);
    assert s0.0 == words && s0.1 == [("type", "hearing")];
  }

  /** The words `banking` and `reform ` hold no whitespace run. */
  lemma WordsNoRun(a: string, b: string)
    requires a == "banking" && b == "reform "
    ensures Collapse(a) == a && Collapse(b) == b
  {
    assert NoDoubleSpace(a) && NoDoubleSpace(b);
    CollapseNoRun(a);
    CollapseNoRun(b);
  }

  /** Trimming `banking reform ` drops the final space. */
  lemma WordsTrimmed(c: string)
    requires c == "banking reform "
    ensures Strip(c) == "banking reform"
  {
    var d := c[..|c| - 1];
    assert !IsSpace(d[|d| - 1]);
    assert LStrip(c) == c;
    assert RStrip(c) == RStrip(d) == d;
  }

  /** `banking  reform ` is `banking`, two spaces and `reform `. */
  lemma WordsParts(w: string)
    requires w == "banking  reform "
    ensures w == w[..7] + w[7..9] + w[9..]
    ensures w[..7] == "banking" && w[7..9] == "  " && w[9..] == "reform "
    ensures w[..7] + " " + w[9..] == "banking reform "
  {
  }

  /** Cleaning `banking  reform ` leaves `banking reform`. */
  lemma WordsCleaned(w: string)
    requires w == "banking  reform "
    ensures CleanQuery(w) == "banking reform"
  {
    WordsParts(w);
    var a, gap, b := w[..7], w[7..9], w[9..];
    CollapseRun(a, gap, b);
    WordsNoRun(a, b);
    WordsTrimmed(a + " " + b);
  }

  /** Words around a filter stay in the query, and the double space between them becomes
      one: `banking  reform type:hearing` searches for `banking reform` with the filter
      type=hearing. */
  lemma WordsAndFilter(q: string)
    requires q == "banking  reform type:hearing"
    ensures Scan(q, 0) == ("banking  reform ", [("type", "hearing")])
    ensures CleanQuery(Scan(q, 0).0) == "banking reform"
  {
    WordsAndFilterScan(q);
    WordsCleaned(Scan(q, 0).0);
  }
}
