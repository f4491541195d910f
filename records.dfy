/** The records the pipeline passes between its stages: Zotero items as fetched, the
    metadata extracted from them, chunks, and the loosely typed values stored in the
    vector index. Python dictionaries with a fixed set of keys become datatypes; a key
    that may be absent becomes an `Option` field, and a string field whose absence and
    emptiness are treated alike everywhere downstream holds `""` for both. */
module Records {
  import opened Wrappers
  import Text

  /** One entry of an item's `creators` list; a missing or `None` part is `""`. */
  datatype Creator = Creator(firstName: string, lastName: string, name: string)

  /** An entry of `_rag.zotero_collections`: a collection the item belongs to. */
  datatype CollRef = CollRef(key: string, name: string, path: seq<string>)

  /** The `_rag` enrichment `get_all_items` attaches; `archive_collection` and
      `archive_visit_date` hold `""` where the source holds `None`. */
  datatype Rag = Rag(zoteroCollections: seq<CollRef>, archiveCollection: string, archiveVisitDate: string)

  /** The `data` part of a Zotero item, each field with its `.get` default. */
  datatype ItemData = ItemData(
    itemType: string,
    title: string,
    creators: seq<Creator>,
    date: string,
    archive: string,
    archiveLocation: string,
    tags: seq<string>,
    abstractNote: string,
    collections: seq<string>)

  /** A Zotero item; `version` defaults to 0 and `_rag` may be absent. */
  datatype Item = Item(key: string, version: int, data: ItemData, rag: Option<Rag>)

  /** A child attachment's `data` fields that attachment selection reads; a missing or
      `None` page count is 0. */
  datatype Attachment = Attachment(key: string, contentType: string, linkMode: string, filename: string, numPages: int)

  /** The dictionary `extract_item_metadata` returns. */
  datatype ItemMeta = ItemMeta(
    zoteroKey: string,
    title: string,
    authors: seq<string>,
    itemType: string,
    date: string,
    archive: string,
    archiveLocation: string,
    tags: seq<string>,
    collections: seq<string>,
    archiveCollection: string,
    archiveVisitDate: string,
    abstractNote: string)

  /** The metadata dictionary of a chunk: the item's metadata plus the keys the indexer
      and the chunker add to it. */
  datatype ChunkMeta = ChunkMeta(
    item: ItemMeta,
    attachmentKey: Option<string>,
    attachmentType: Option<string>,
    pageCount: Option<int>,
    chapter: Option<string>,
    sourceType: Option<string>,
    pageStart: Option<int>,
    pageEnd: Option<int>,
    pdfPage: Option<int>)

  /** Metadata before any of the added keys are set. */
  function PlainMeta(item: ItemMeta): (m: ChunkMeta)
    ensures m.item == item && m.chapter.None? && m.sourceType.None? && m.pageStart.None?
  {
    ChunkMeta(item, None, None, None, None, None, None, None, None)
  }

  /** A chunk dictionary: `text`, `chunk_index`, `total_chunks` and `metadata`. */
  datatype Chunk = Chunk(text: string, chunkIndex: int, totalChunks: int, meta: ChunkMeta)

  /** A scalar Python value as stored in index metadata. A float keeps its decimal
      rendering, which `str` reproduces; any other object is known only by its `str` and its truthiness. */
  datatype Atom =
    | PyNone
    | PyStr(s: string)
    | PyInt(i: int)
    | PyFloat(x: real, text: string)
    | PyBool(b: bool)
    | PyObject(repr: string, truthy: bool)

  /** A metadata value: a scalar or a list of scalars. */
  datatype Value = Scalar(a: Atom) | PyList(items: seq<Atom>)

  /** Python truthiness of a scalar. */
  predicate Truthy(a: Atom) {
    match a
    case PyNone => false
    case PyStr(s) => s != ""
    case PyInt(i) => i != 0
    case PyFloat(x, _) => x != 0.0
    case PyBool(b) => b
    case PyObject(_, t) => t
  }

  /** Python `str` of a scalar. */
  function Str(a: Atom): string {
    match a
    case PyNone => "None"
    case PyStr(s) => s
    case PyInt(i) => Text.IntToString(i)
    case PyFloat(_, t) => t
    case PyBool(b) => if b then "True" else "False"
    case PyObject(r, _) => r
  }

  function StrValue(s: string): Value { Scalar(PyStr(s)) }
  function IntValue(i: int): Value { Scalar(PyInt(i)) }
  function StrList(xs: seq<string>): (v: Value)
    ensures v.PyList? && |v.items| == |xs|
    ensures forall k :: 0 <= k < |xs| ==> v.items[k] == PyStr(xs[k])
  {
    if xs == [] then PyList([]) else PyList([PyStr(xs[0])] + StrList(xs[1..]).items)
  }
}
