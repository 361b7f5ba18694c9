/**
 The bookkeeping of rag_system.py (`DociaRAG`): how `add_document` names a
 document and its chunks, which metadata it stores per chunk and how it feeds
 the vector store in fixed batches; how `search` turns a store answer into
 scored hits; how `get_collection_stats` counts documents; and how
 `delete_document` removes a whole document.

 The Chroma collection is a sequence of records (id, text, metadata) in
 insertion order. Embeddings and the nearest-neighbour query are not modelled:
 a query is a function parameter from the `where` clause to the store's
 answer, `None` standing for the exception the source catches. The clock is a
 parameter too: the `%Y%m%d_%H%M%S` stamp of the document id and, per chunk
 position, the `upload_date` string.
 */
module RagSystem {
  import opened Wrappers
  import opened PyStr
  import Chunker

  /** Chroma metadata: string keys, and here only string values. */
  type Metadata = map<string, string>

  datatype Record = Record(id: string, text: string, metadata: Metadata)

  /** The caller's document metadata: `title` is required, the other keys may
      be missing. */
  datatype DocMeta = DocMeta(title: string, kind: Option<string>, specialty: Option<string>, year: Option<int>)

  /** A chunk dictionary as `add_document` reads it: `text` is required, the
      other keys may be missing. */
  datatype ChunkIn = ChunkIn(text: string, page: Option<int>, section: Option<string>, tokens: Option<int>)

  /** A chunk record of the document processor, which has every key. */
  function FromChunk(c: Chunker.Chunk): ChunkIn {
    ChunkIn(c.text, Some(c.page), Some(c.section), Some(c.tokens))
  }

  const TitleIdLength: nat := 30
  const BatchSize: nat := 100
  const IdPadWidth: nat := 4

  // ---------------------------------------------------------------------
  // Identifiers

  /** `title[:30].replace(' ', '_').replace('/', '_')`. */
  function SafeTitle(title: string): (r: string)
    ensures |r| == |Take(title, TitleIdLength)| <= TitleIdLength
    ensures forall i :: 0 <= i < |r| ==>
      r[i] == if title[i] == ' ' || title[i] == '/' then '_' else title[i]
    ensures ' ' !in r && '/' !in r
  {
    var t := Take(title, TitleIdLength);
    var u := ReplaceStr(t, " ", "_");
    ReplaceCharSpec(t, ' ', '_');
    ReplaceCharSpec(u, '/', '_');
    ReplaceStr(u, "/", "_")
  }

  /** `f"{specialty}_{safe_title}_{stamp}"`, the specialty defaulting to
      `general`. */
  function DocId(meta: DocMeta, stamp: string): string {
    meta.specialty.GetOr("general") + "_" + SafeTitle(meta.title) + "_" + stamp
  }

  /** `f"{doc_id}_chunk_{i:04d}"`. */
  function ChunkId(docId: string, i: nat): string {
    docId + "_chunk_" + ZeroPad(i, IdPadWidth)
  }

  /** Two chunk positions of one document never share an id. */
  lemma ChunkIdInjective(docId: string, i: nat, j: nat)
    requires ChunkId(docId, i) == ChunkId(docId, j)
    ensures i == j
  {
    var p := docId + "_chunk_";
    assert ChunkId(docId, i)[|p|..] == ZeroPad(i, IdPadWidth);
    assert ChunkId(docId, j)[|p|..] == ZeroPad(j, IdPadWidth);
    ZeroPadInjective(i, j, IdPadWidth);
  }

  // ---------------------------------------------------------------------
  // Per-chunk metadata

  const MetadataKeys: set<string> :=
    {"doc_id", "title", "type", "specialty", "year", "page", "section", "tokens", "upload_date"}

  /** The metadata dictionary stored with every chunk. The document-level
      specialty defaults to `cardiologia` here, unlike in the document id. */
  function ChunkMetadata(docId: string, meta: DocMeta, c: ChunkIn, uploadDate: string): (m: Metadata)
    ensures m.Keys == MetadataKeys
    ensures m["doc_id"] == docId && m["title"] == meta.title
  {
    map[
      "doc_id" := docId,
      "title" := meta.title,
      "type" := meta.kind.GetOr("guideline"),
      "specialty" := meta.specialty.GetOr("cardiologia"),
      "year" := IntToString(meta.year.GetOr(2024)),
      "page" := IntToString(c.page.GetOr(0)),
      "section" := c.section.GetOr("Sin sección"),
      "tokens" := IntToString(c.tokens.GetOr(0)),
      "upload_date" := uploadDate
    ]
  }

  /** With every optional key missing, the stored defaults. */
  lemma MetadataDefaults(docId: string, title: string, text: string, uploadDate: string)
    ensures var m := ChunkMetadata(docId, DocMeta(title, None, None, None), ChunkIn(text, None, None, None), uploadDate);
      && m["type"] == "guideline" && m["specialty"] == "cardiologia" && m["year"] == "2024"
      && m["page"] == "0" && m["section"] == "Sin sección" && m["tokens"] == "0"
  {
  }

  /** The numbers are stored as decimal strings that read back as the
      numbers: the page, section and token count of a processor chunk
      survive into its metadata. */
  lemma ChunkMetadataReadBack(docId: string, meta: DocMeta, c: Chunker.Chunk, uploadDate: string)
    ensures var m := ChunkMetadata(docId, meta, FromChunk(c), uploadDate);
      && ParseNat(m["page"]) == c.page && ParseNat(m["tokens"]) == c.tokens
      && m["section"] == c.section
  {
    ParseNatToString(c.page);
    ParseNatToString(c.tokens);
  }

  /** The stored year reads back as the given one, or 2024. */
  lemma YearReadBack(docId: string, meta: DocMeta, c: ChunkIn, uploadDate: string)
    requires meta.year.GetOr(2024) >= 0
    ensures ParseNat(ChunkMetadata(docId, meta, c, uploadDate)["year"]) == meta.year.GetOr(2024)
  {
    ParseNatToString(meta.year.GetOr(2024));
  }

  // ---------------------------------------------------------------------
  // add_document

  /** One record per chunk, in chunk order: id, text and metadata. */
  function DocRecords(docId: string, meta: DocMeta, chunks: seq<ChunkIn>, clock: nat -> string): (rs: seq<Record>)
    ensures |rs| == |chunks|
    ensures forall i :: 0 <= i < |rs| ==>
      rs[i] == Record(ChunkId(docId, i), chunks[i].text, ChunkMetadata(docId, meta, chunks[i], clock(i)))
  {
    seq(|chunks|, i requires 0 <= i < |chunks| =>
      Record(ChunkId(docId, i), chunks[i].text, ChunkMetadata(docId, meta, chunks[i], clock(i))))
  }

  /** The records of one document have pairwise distinct ids and all carry
      the document id. */
  lemma DocRecordsIds(docId: string, meta: DocMeta, chunks: seq<ChunkIn>, clock: nat -> string)
    ensures var rs := DocRecords(docId, meta, chunks, clock);
      && (forall i, j :: 0 <= i < j < |rs| ==> rs[i].id != rs[j].id)
      && (forall i :: 0 <= i < |rs| ==> rs[i].metadata["doc_id"] == docId)
  {
    var rs := DocRecords(docId, meta, chunks, clock);
    forall i, j | 0 <= i < j < |rs|
      ensures rs[i].id != rs[j].id
    {
      if rs[i].id == rs[j].id {
        ChunkIdInjective(docId, i, j);
      }
    }
  }

  /** `for i in range(0, n, 100): xs[i:min(i + 100, n)]`, from offset `i`. */
  function Batches<T>(xs: seq<T>, i: nat): seq<seq<T>>
    decreases |xs| - i
  {
    if i >= |xs| then []
    else [xs[i..if i + BatchSize < |xs| then i + BatchSize else |xs|]] + Batches(xs, i + BatchSize)
  }

  /** The batches from offset `i` cover `xs[i..]` in order, each non-empty,
      at most 100 long and exactly 100 except the last, and there are
      `(n - i - 1) // 100 + 1` of them (none when nothing is left). */
  lemma {:induction false} BatchesFrom<T>(xs: seq<T>, i: nat)
    requires i <= |xs|
    ensures Flatten(Batches(xs, i)) == xs[i..]
    ensures forall k :: 0 <= k < |Batches(xs, i)| ==> 0 < |Batches(xs, i)[k]| <= BatchSize
    ensures forall k :: 0 <= k < |Batches(xs, i)| - 1 ==> |Batches(xs, i)[k]| == BatchSize
    ensures |Batches(xs, i)| == if i == |xs| then 0 else (|xs| - i - 1) / BatchSize + 1
    decreases |xs| - i
  {
    if i < |xs| {
      var bs := Batches(xs, i);
      if i + BatchSize < |xs| {
        var head := xs[i..i + BatchSize];
        var rest := Batches(xs, i + BatchSize);
        assert bs == [head] + rest;
        BatchesFrom(xs, i + BatchSize);
        assert bs[1..] == rest;
        assert xs[i..] == head + xs[i + BatchSize..];
        assert forall k :: 1 <= k < |bs| ==> bs[k] == rest[k - 1];
      } else {
        assert Batches(xs, i + BatchSize) == [] && xs[i..|xs|] == xs[i..];
        assert bs == [xs[i..]];
        assert Flatten(bs) == xs[i..] + Flatten(bs[1..]);
      }
    }
  }

  /** The batches of the whole list: they partition it in order, and an empty
      list makes no batch at all. */
  lemma BatchesSpec<T>(xs: seq<T>)
    ensures Flatten(Batches(xs, 0)) == xs
    ensures forall k :: 0 <= k < |Batches(xs, 0)| ==> 0 < |Batches(xs, 0)[k]| <= BatchSize
    ensures forall k :: 0 <= k < |Batches(xs, 0)| - 1 ==> |Batches(xs, 0)[k]| == BatchSize
    ensures |Batches(xs, 0)| == if xs == [] then 0 else (|xs| - 1) / BatchSize + 1
  {
    BatchesFrom(xs, 0);
    assert xs[0..] == xs;
  }

  /** One `collection.add` per batch, in order. */
  function AddBatches(store: seq<Record>, bs: seq<seq<Record>>): seq<Record>
    decreases |bs|
  {
    if bs == [] then store else AddBatches(store + bs[0], bs[1..])
  }

  lemma {:induction false} AddBatchesAppends(store: seq<Record>, bs: seq<seq<Record>>)
    ensures AddBatches(store, bs) == store + Flatten(bs)
    decreases |bs|
  {
    if bs != [] {
      AddBatchesAppends(store + bs[0], bs[1..]);
    }
  }

  /** The first `k` batches together are the first `k * 100` records. */
  lemma {:induction false} BatchesPrefix<T>(xs: seq<T>, i: nat, k: nat)
    requires i + k * BatchSize <= |xs|
    ensures k <= |Batches(xs, i)|
    ensures Flatten(Batches(xs, i)[..k]) == xs[i..i + k * BatchSize]
    decreases k
  {
    if k > 0 {
      var bs := Batches(xs, i);
      var head := xs[i..i + BatchSize];
      assert bs == [head] + Batches(xs, i + BatchSize);
      BatchesPrefix(xs, i + BatchSize, k - 1);
      assert bs[..k] == [head] + Batches(xs, i + BatchSize)[..k - 1];
      assert xs[i..i + k * BatchSize] == head + xs[i + BatchSize..i + k * BatchSize];
    }
  }

  /** Where `add_document` raises: nowhere (`None`), in `encode` or the
      first `collection.add` (`Some(0)`), or in the `collection.add` of
      batch `k` (`Some(k)`). An index past the last batch is never reached. */
  predicate Raises(failAt: Option<nat>, n: nat) {
    failAt.Some? && failAt.value * BatchSize < n
  }

  /** The id `add_document` returns, if it returns, and the store after it. */
  datatype Added = Added(docId: Option<string>, store: seq<Record>)

  /** `add_document`: when nothing raises, the document id is returned and
      the store grows by exactly the document's records, one per chunk, in
      chunk order. Nothing around the adds catches an exception, so when
      batch `k` raises no id is returned and the batches before it stay
      stored: the first `k * 100` records. */
  function AddDocument(store: seq<Record>, meta: DocMeta, chunks: seq<ChunkIn>, stamp: string,
                       clock: nat -> string, failAt: Option<nat>): (a: Added)
    ensures !Raises(failAt, |chunks|) ==>
      && a.docId == Some(DocId(meta, stamp))
      && a.store == store + DocRecords(DocId(meta, stamp), meta, chunks, clock)
      && |a.store| == |store| + |chunks|
    ensures Raises(failAt, |chunks|) ==>
      && a.docId == None
      && a.store == store + DocRecords(DocId(meta, stamp), meta, chunks, clock)[..failAt.value * BatchSize]
      && |a.store| == |store| + failAt.value * BatchSize
  {
    var docId := DocId(meta, stamp);
    var rs := DocRecords(docId, meta, chunks, clock);
    var bs := Batches(rs, 0);
    if Raises(failAt, |chunks|) then
      var k := failAt.value;
      BatchesPrefix(rs, 0, k);
      AddBatchesAppends(store, bs[..k]);
      Added(None, AddBatches(store, bs[..k]))
    else
      BatchesSpec(rs);
      AddBatchesAppends(store, bs);
      Added(Some(docId), AddBatches(store, bs))
  }

  // ---------------------------------------------------------------------
  // search

  /** `filters if filters else None`: a missing or empty filter means no
      `where` clause. */
  function WhereClause(filters: Option<Metadata>): (w: Option<Metadata>)
    ensures w.None? <==> filters.None? || filters.value == map[]
    ensures w.Some? ==> w == filters
  {
    match filters
    case None => None
    case Some(m) => if |m| == 0 then None else Some(m)
  }

  /** `_distance_to_score`: a step function of the cosine distance. */
  function DistanceToScore(d: real): (r: int)
    ensures r in {2, 4, 6, 8, 10}
  {
    if d < 0.4 then 10
    else if d < 0.6 then 8
    else if d < 0.8 then 6
    else if d < 1.0 then 4
    else 2
  }

  /** A smaller distance never scores lower. */
  lemma DistanceToScoreMonotone(a: real, b: real)
    requires a <= b
    ensures DistanceToScore(a) >= DistanceToScore(b)
  {
  }

  /** The breakpoints: each score is taken on exactly one half-open band. */
  lemma DistanceToScoreBands(d: real)
    ensures DistanceToScore(d) == 10 <==> d < 0.4
    ensures DistanceToScore(d) == 8 <==> 0.4 <= d < 0.6
    ensures DistanceToScore(d) == 6 <==> 0.6 <= d < 0.8
    ensures DistanceToScore(d) == 4 <==> 0.8 <= d < 1.0
    ensures DistanceToScore(d) == 2 <==> 1.0 <= d
  {
  }

  /** The columns of a Chroma query answer, one row per query embedding. */
  datatype QueryResponse = QueryResponse(
    ids: seq<seq<string>>, documents: seq<seq<string>>,
    distances: seq<seq<real>>, metadatas: seq<seq<Metadata>>)

  /** The store answers with columns at least as long as the id column. */
  predicate Aligned(q: QueryResponse) {
    |q.ids| > 0 ==>
      && |q.documents| > 0 && |q.distances| > 0 && |q.metadatas| > 0
      && |q.documents[0]| >= |q.ids[0]| && |q.distances[0]| >= |q.ids[0]|
      && |q.metadatas[0]| >= |q.ids[0]|
  }

  datatype Hit = Hit(chunkId: string, text: string, distance: real, metadata: Metadata, relevance: int)

  /** `search`: the store is asked with the `where` clause; a failure gives no
      hits; otherwise one hit per returned id, in the store's order (not
      re-sorted), each scored from its own distance. */
  function Search(filters: Option<Metadata>, query: Option<Metadata> -> Option<QueryResponse>): (hits: seq<Hit>)
    requires query(WhereClause(filters)).Some? ==> Aligned(query(WhereClause(filters)).value)
    ensures query(WhereClause(filters)).None? ==> hits == []
    ensures query(WhereClause(filters)).Some? ==>
      var q := query(WhereClause(filters)).value;
      && |hits| == (if |q.ids| == 0 then 0 else |q.ids[0]|)
      && forall i :: 0 <= i < |hits| ==>
           hits[i] == Hit(q.ids[0][i], q.documents[0][i], q.distances[0][i], q.metadatas[0][i], hits[i].relevance)
    ensures forall i :: 0 <= i < |hits| ==> hits[i].relevance == DistanceToScore(hits[i].distance)
  {
    match query(WhereClause(filters))
    case None => []
    case Some(q) =>
      if |q.ids| == 0 then []
      else
        seq(|q.ids[0]|, i requires 0 <= i < |q.ids[0]| =>
          Hit(q.ids[0][i], q.documents[0][i], q.distances[0][i], q.metadatas[0][i], DistanceToScore(q.distances[0][i])))
  }

  /** Hits are ranked consistently with their distances: whichever hit is
      closer never has the lower relevance score. */
  lemma SearchScoresConsistent(filters: Option<Metadata>, query: Option<Metadata> -> Option<QueryResponse>, i: nat, j: nat)
    requires query(WhereClause(filters)).Some? ==> Aligned(query(WhereClause(filters)).value)
    requires i < |Search(filters, query)| && j < |Search(filters, query)|
    requires Search(filters, query)[i].distance <= Search(filters, query)[j].distance
    ensures Search(filters, query)[i].relevance >= Search(filters, query)[j].relevance
  {
  }

  // ---------------------------------------------------------------------
  // get_collection_stats

  /** `m.get('doc_id', 'unknown')`. */
  function DocIdOf(m: Metadata): string {
    if "doc_id" in m then m["doc_id"] else "unknown"
  }

  /** The set of document ids of the records. */
  function DocIdSet(store: seq<Record>): (ids: set<string>)
    ensures |ids| <= |store|
    ensures forall i :: 0 <= i < |store| ==> DocIdOf(store[i].metadata) in ids
    ensures forall d :: d in ids ==> exists i :: 0 <= i < |store| && DocIdOf(store[i].metadata) == d
  {
    if store == [] then {}
    else
      var rest := DocIdSet(store[1..]);
      assert forall i :: 1 <= i < |store| ==> store[i] == store[1..][i - 1];
      {DocIdOf(store[0].metadata)} + rest
  }

  datatype Stats = Stats(totalChunks: nat, uniqueDocs: nat)

  /** `get_collection_stats`: the record count, and the number of distinct
      document ids, which is 0 when the store is empty or the metadata fetch
      (`fetched == false`) fails. */
  function CollectionStats(store: seq<Record>, fetched: bool): (st: Stats)
    ensures st.totalChunks == |store|
    ensures st.uniqueDocs <= st.totalChunks
    ensures st.uniqueDocs == 0 <==> store == [] || !fetched
    ensures store != [] && fetched ==> st.uniqueDocs == |DocIdSet(store)|
  {
    if |store| > 0 && fetched then
      assert DocIdOf(store[0].metadata) in DocIdSet(store);
      Stats(|store|, |DocIdSet(store)|)
    else Stats(|store|, 0)
  }

  // ---------------------------------------------------------------------
  // delete_document

  /** Chroma's `where={"doc_id": doc_id}` on one record. */
  predicate HasDoc(r: Record, docId: string) {
    "doc_id" in r.metadata && r.metadata["doc_id"] == docId
  }

  /** `collection.get(where={"doc_id": doc_id})['ids']`, in store order. */
  function MatchingIds(store: seq<Record>, docId: string): (ids: seq<string>)
    ensures |ids| <= |store|
    ensures forall i :: 0 <= i < |store| && HasDoc(store[i], docId) ==> store[i].id in ids
    ensures forall x :: x in ids ==> exists i :: 0 <= i < |store| && HasDoc(store[i], docId) && store[i].id == x
  {
    if store == [] then []
    else
      var rest := MatchingIds(store[1..], docId);
      assert forall i :: 1 <= i < |store| ==> store[i] == store[1..][i - 1];
      (if HasDoc(store[0], docId) then [store[0].id] else []) + rest
  }

  /** `collection.delete(ids=ids)`: every record whose id is listed goes. */
  function RemoveIds(store: seq<Record>, ids: seq<string>): (r: seq<Record>)
    ensures |r| <= |store|
    ensures forall x :: x in r ==> x in store && x.id !in ids
    ensures forall x :: x in store && x.id !in ids ==> x in r
  {
    if store == [] then []
    else (if store[0].id in ids then [] else [store[0]]) + RemoveIds(store[1..], ids)
  }

  /** The records of other documents, in order. */
  function OtherDocs(store: seq<Record>, docId: string): seq<Record> {
    if store == [] then []
    else (if HasDoc(store[0], docId) then [] else [store[0]]) + OtherDocs(store[1..], docId)
  }

  datatype Deleted = Deleted(found: bool, store: seq<Record>)

  /** `delete_document`; `ok == false` stands for an exception from the store,
      which leaves it as it was. */
  function DeleteDocument(store: seq<Record>, docId: string, ok: bool): (d: Deleted)
    ensures d.found <==> ok && exists i :: 0 <= i < |store| && HasDoc(store[i], docId)
    ensures !d.found ==> d.store == store
    ensures ok ==> forall x :: x in d.store ==> !HasDoc(x, docId)
    ensures forall x :: x in d.store ==> x in store
  {
    if !ok then Deleted(false, store)
    else
      var ids := MatchingIds(store, docId);
      if |ids| > 0 then
        assert ids[0] in ids;
        Deleted(true, RemoveIds(store, ids))
      else Deleted(false, store)
  }

  /** Ids are unique in a Chroma collection. */
  predicate UniqueIds(store: seq<Record>) {
    forall i, j :: 0 <= i < j < |store| ==> store[i].id != store[j].id
  }

  /** Removing ids that are exactly those of the document's records leaves
      the other records, in order. */
  lemma {:induction false} RemoveExactly(store: seq<Record>, ids: seq<string>, docId: string)
    requires forall i :: 0 <= i < |store| ==> (store[i].id in ids <==> HasDoc(store[i], docId))
    ensures RemoveIds(store, ids) == OtherDocs(store, docId)
  {
    if store != [] {
      assert store[0].id in ids <==> HasDoc(store[0], docId);
      forall i | 0 <= i < |store[1..]|
        ensures store[1..][i].id in ids <==> HasDoc(store[1..][i], docId)
      {
        assert store[1..][i] == store[i + 1];
      }
      RemoveExactly(store[1..], ids, docId);
    }
  }

  /** With unique ids, deleting a document removes exactly its records and
      keeps every other record, in order. */
  lemma DeleteKeepsOthers(store: seq<Record>, docId: string)
    requires UniqueIds(store)
    ensures DeleteDocument(store, docId, true).store == OtherDocs(store, docId)
  {
    var ids := MatchingIds(store, docId);
    forall i | 0 <= i < |store|
      ensures store[i].id in ids <==> HasDoc(store[i], docId)
    {
      if store[i].id in ids {
        var j :| 0 <= j < |store| && HasDoc(store[j], docId) && store[j].id == store[i].id;
        assert i == j;
      }
    }
    RemoveExactly(store, ids, docId);
    if |ids| == 0 {
      OtherDocsNone(store, docId);
    }
  }

  lemma {:induction false} OtherDocsNone(store: seq<Record>, docId: string)
    requires forall i :: 0 <= i < |store| ==> !HasDoc(store[i], docId)
    ensures OtherDocs(store, docId) == store
  {
    if store != [] {
      assert !HasDoc(store[0], docId);
      forall i | 0 <= i < |store[1..]| ensures !HasDoc(store[1..][i], docId) {
        assert store[1..][i] == store[i + 1];
      }
      OtherDocsNone(store[1..], docId);
    }
  }
}
