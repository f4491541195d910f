/** The write path of the vector store (src/vectordb.py): metadata cleaning and
    batched upserts. The store itself is outside the model; each `upsert` call is
    represented by the batch of vectors it would receive. */
module VectorDb {
  import opened Records
  import Batches

  /** Vectors are upserted in batches of this many. */
  const BatchSize: nat := 100

  // ----- metadata cleaning -----

  /** A value that cleaning drops: `None` or the empty string. */
  predicate Dropped(v: Value) {
    v == Scalar(PyNone) || v == Scalar(PyStr(""))
  }

  /** `[str(x) for x in v if x]` for a list value. */
  function CleanList(xs: seq<Atom>): seq<Atom> {
    if xs == [] then []
    else (if Truthy(xs[0]) then [PyStr(Str(xs[0]))] else []) + CleanList(xs[1..])
  }

  /** A kept value: str, int, float and bool as they are, a list through
      `CleanList`, any other object through `str`. */
  function CleanValue(v: Value): Value {
    match v
    case Scalar(PyObject(r, _)) => Scalar(PyStr(r))
    case Scalar(_) => v
    case PyList(xs) => PyList(CleanList(xs))
  }

  /** What `_clean_metadata` returns. */
  function Cleaned(m: map<string, Value>): map<string, Value> {
    map k | k in m && !Dropped(m[k]) :: CleanValue(m[k])
  }

  /** A value the store accepts: a plain scalar, or a list of strings. */
  predicate Compatible(v: Value) {
    match v
    case Scalar(a) => !a.PyObject? && !a.PyNone?
    case PyList(xs) => forall i :: 0 <= i < |xs| ==> xs[i].PyStr?
  }

  /** `_clean_metadata`: one pass over the entries, building the cleaned dictionary. */
  method CleanMetadata(metadata: map<string, Value>) returns (clean: map<string, Value>)
    ensures clean == Cleaned(metadata)
  {
    clean := map[];
    var todo := metadata.Keys;
    while todo != {}
      invariant todo <= metadata.Keys
      invariant clean == map k | k in metadata && k !in todo && !Dropped(metadata[k]) :: CleanValue(metadata[k])
      decreases |todo|
    {
      var k :| k in todo;
      var v := metadata[k];
      if !Dropped(v) {
        clean := clean[k := CleanValue(v)];
      }
      todo := todo - {k};
    }
  }

  /** Exactly the keys whose value is neither `None` nor `""` survive. */
  lemma CleanedKeys(m: map<string, Value>)
    ensures forall k :: k in Cleaned(m) <==> k in m && m[k] != Scalar(PyNone) && m[k] != Scalar(PyStr(""))
  {
  }

  /** Non-empty strings, numbers and booleans are kept unchanged; objects
      become their `str`. */
  lemma {:induction false} CleanedScalars(m: map<string, Value>, k: string)
    requires k in m && m[k].Scalar? && !Dropped(m[k])
    ensures k in Cleaned(m)
    ensures m[k].a.PyObject? ==> Cleaned(m)[k] == Scalar(PyStr(m[k].a.repr))
    ensures !m[k].a.PyObject? ==> Cleaned(m)[k] == m[k]
  {
  }

  /** Every value of the cleaned dictionary is one the store accepts. */
  lemma CleanedCompatible(m: map<string, Value>)
    ensures forall k :: k in Cleaned(m) ==> Compatible(Cleaned(m)[k])
  {
    forall k | k in Cleaned(m) ensures Compatible(Cleaned(m)[k]) {
      if m[k].PyList? {
        CleanListStrings(m[k].items);
      }
    }
  }

  lemma {:induction false} CleanListStrings(xs: seq<Atom>)
    ensures forall i :: 0 <= i < |CleanList(xs)| ==> CleanList(xs)[i].PyStr?
  {
    if xs != [] {
      CleanListStrings(xs[1..]);
    }
  }

  /** A list keeps its truthy elements, as strings, in their original order. */
  lemma {:induction false} CleanListAppend(xs: seq<Atom>, ys: seq<Atom>)
    ensures CleanList(xs + ys) == CleanList(xs) + CleanList(ys)
  {
    if xs == [] {
      assert xs + ys == ys;
    } else {
      var head := if Truthy(xs[0]) then [PyStr(Str(xs[0]))] else [];
      assert (xs + ys)[0] == xs[0] && (xs + ys)[1..] == xs[1..] + ys;
      assert CleanList(xs + ys) == head + CleanList(xs[1..] + ys);
      CleanListAppend(xs[1..], ys);
      assert head + (CleanList(xs[1..]) + CleanList(ys)) == (head + CleanList(xs[1..])) + CleanList(ys);
    }
  }

  /** A string is in the cleaned list exactly when some truthy element renders to it. */
  lemma {:induction false} CleanListMembers(xs: seq<Atom>, s: string)
    ensures PyStr(s) in CleanList(xs) <==> exists i :: 0 <= i < |xs| && Truthy(xs[i]) && Str(xs[i]) == s
  {
    if xs != [] {
      CleanListMembers(xs[1..], s);
      if exists i :: 0 <= i < |xs[1..]| && Truthy(xs[1..][i]) && Str(xs[1..][i]) == s {
        var i :| 0 <= i < |xs[1..]| && Truthy(xs[1..][i]) && Str(xs[1..][i]) == s;
        assert xs[i + 1] == xs[1..][i];
      }
      if exists i :: 0 <= i < |xs| && Truthy(xs[i]) && Str(xs[i]) == s {
        var i :| 0 <= i < |xs| && Truthy(xs[i]) && Str(xs[i]) == s;
        if i > 0 {
          assert xs[1..][i - 1] == xs[i];
        }
      }
    }
  }

  /** A value whose truthy parts all have a non-empty `str`. */
  predicate Rendered(v: Value) {
    match v
    case Scalar(a) => !a.PyObject? || a.repr != ""
    case PyList(xs) => forall i :: 0 <= i < |xs| ==> Truthy(xs[i]) ==> Str(xs[i]) != ""
  }

  lemma {:induction false} CleanListTwice(xs: seq<Atom>)
    requires forall i :: 0 <= i < |xs| ==> Truthy(xs[i]) ==> Str(xs[i]) != ""
    ensures CleanList(CleanList(xs)) == CleanList(xs)
  {
    if xs != [] {
      CleanListTwice(xs[1..]);
      var head := if Truthy(xs[0]) then [PyStr(Str(xs[0]))] else [];
      CleanListAppend(head, CleanList(xs[1..]));
      if Truthy(xs[0]) {
        assert CleanList(head) == head by {
          assert head[1..] == [];
        }
      }
    }
  }

  /** Cleaning is idempotent as long as no kept value renders as `""`. */
  lemma CleanedTwice(m: map<string, Value>)
    requires forall k :: k in m ==> Rendered(m[k])
    ensures Cleaned(Cleaned(m)) == Cleaned(m)
  {
    forall k | k in Cleaned(m)
      ensures !Dropped(Cleaned(m)[k]) && CleanValue(Cleaned(m)[k]) == Cleaned(m)[k]
    {
      if m[k].PyList? {
        CleanListTwice(m[k].items);
      }
    }
  }

  /** Without that condition it is not: an object whose `str` is empty is kept as
      `""` by the first pass and dropped by the second. */
  lemma CleanedNotIdempotent()
    ensures Cleaned(Cleaned(map["x" := Scalar(PyObject("", true))])) == map[]
    ensures Cleaned(map["x" := Scalar(PyObject("", true))]) == map["x" := Scalar(PyStr(""))]
  {
    var m := map["x" := Scalar(PyObject("", true))];
    assert Cleaned(m).Keys == {"x"};
    assert Cleaned(Cleaned(m)).Keys == {};
  }

  // ----- upserts -----

  /** One `(chunk_id, embedding, metadata)` triple, or the vector dictionary built from it. */
  datatype Vector = Vector(id: string, values: seq<real>, metadata: map<string, Value>)

  /** The vector dictionary for one triple. */
  function CleanVector(t: Vector): Vector {
    t.(metadata := Cleaned(t.metadata))
  }

  /** Every triple with its metadata cleaned, in order. */
  function CleanAll(ts: seq<Vector>): seq<Vector> {
    seq(|ts|, k requires 0 <= k < |ts| => CleanVector(ts[k]))
  }

  /** `upsert_chunks`: the batches handed to the store, in call order. */
  method UpsertChunks(chunks: seq<Vector>) returns (sent: seq<seq<Vector>>)
    ensures sent == Batches.Batches(CleanAll(chunks), BatchSize)
  {
    ghost var xs := CleanAll(chunks);
    sent := [];
    var start := 0;
    assert xs[0..] == xs;
    while start < |chunks|
      invariant sent + Batches.Batches(xs[Batches.Min(start, |xs|)..], BatchSize) == Batches.Batches(xs, BatchSize)
      decreases |chunks| - start
    {
      var stop := Batches.Min(start + BatchSize, |chunks|);
      var vectors := [];
      for j := start to stop
        invariant vectors == xs[start..j]
      {
        var clean := CleanMetadata(chunks[j].metadata);
        vectors := vectors + [Vector(chunks[j].id, chunks[j].values, clean)];
        assert xs[start..j + 1] == xs[start..j] + [xs[j]];
      }
      Batches.BatchesFrom(xs, BatchSize, start);
      assert sent + [vectors] + Batches.Batches(xs[stop..], BatchSize)
          == sent + ([vectors] + Batches.Batches(xs[stop..], BatchSize));
      sent := sent + [vectors];
      start := start + BatchSize;
    }
    assert xs[|xs|..] == [];
  }

  /** Every triple is upserted once, cleaned, in order. */
  lemma UpsertCovers(chunks: seq<Vector>)
    ensures Batches.Concat(Batches.Batches(CleanAll(chunks), BatchSize)) == CleanAll(chunks)
  {
    Batches.BatchesConcat(CleanAll(chunks), BatchSize);
  }

  /** No upsert call carries more than `BatchSize` vectors, and only the last one fewer. */
  lemma UpsertSizes(chunks: seq<Vector>)
    ensures forall k :: 0 <= k < |Batches.Batches(CleanAll(chunks), BatchSize)| ==>
      0 < |Batches.Batches(CleanAll(chunks), BatchSize)[k]| <= BatchSize
    ensures forall k :: 0 <= k < |Batches.Batches(CleanAll(chunks), BatchSize)| - 1 ==>
      |Batches.Batches(CleanAll(chunks), BatchSize)[k]| == BatchSize
  {
    Batches.BatchesShape(CleanAll(chunks), BatchSize);
  }
}
