/** Indexing documents into the in-memory vector store, chunk by chunk. */
module Indexer {
  import opened Prelude
  import opened Chunker
  import opened ContentHash
  import Decimal

  type Vector = seq<real>

  datatype Stored = Stored(chunk: Chunk, vector: Vector)

  type Store = map<string, Stored>

  /******* The store *******/

  function Upserted(store: Store, chunks: seq<Chunk>, vectors: seq<Vector>): Store
    requires |chunks| == |vectors|
  {
    if chunks == [] then store
    else Upserted(store, Init(chunks), Init(vectors))[Last(chunks).id := Stored(Last(chunks), Last(vectors))]
  }

  function WithoutDocument(store: Store, documentId: string): Store {
    map c | c in store && store[c].chunk.documentId != documentId :: store[c]
  }

  class InMemoryVectorStoreAdapter {
    var store: Store

    constructor ()
      ensures store == map[]
    {
      store := map[];
    }

    /** False where the source raises ValueError; nothing is stored then. */
    method Upsert(chunks: seq<Chunk>, vectors: seq<Vector>) returns (ok: bool)
      modifies this
      ensures ok == (|chunks| == |vectors|)
      ensures store == if |chunks| == |vectors| then Upserted(old(store), chunks, vectors) else old(store)
    {
      if |chunks| != |vectors| {
        return false;
      }
      for i := 0 to |chunks|
        invariant store == Upserted(old(store), chunks[..i], vectors[..i])
      {
        store := store[chunks[i].id := Stored(chunks[i], vectors[i])];
        assert Init(chunks[..i + 1]) == chunks[..i] && Init(vectors[..i + 1]) == vectors[..i];
      }
      assert chunks[..|chunks|] == chunks && vectors[..|vectors|] == vectors;
      return true;
    }

    method DeleteByDocument(documentId: string)
      modifies this
      ensures store == WithoutDocument(old(store), documentId)
    {
      var toDelete := set c | c in store && store[c].chunk.documentId == documentId;
      while toDelete != {}
        invariant store.Keys <= old(store).Keys && forall c :: c in store ==> store[c] == old(store)[c]
        invariant forall c :: c in old(store) && old(store)[c].chunk.documentId != documentId ==> c in store
        invariant forall c :: c in toDelete <==> c in store && store[c].chunk.documentId == documentId
      {
        var c :| c in toDelete;
        store := store - {c};
        toDelete := toDelete - {c};
      }
    }
  }

  /******* The service *******/

  datatype Setting = Setting(cfg: ChunkingConfig, digest: string -> string)

  /** What the service remembers: the content hash per document, and the store. */
  datatype Index = Index(hashes: map<string, string>, store: Store)

  datatype Outcome = Returned(chunks: seq<Chunk>) | IndexingError

  /** embedded is the embedding gateway's answer for this call, None when it raises. */
  datatype Op =
    | IndexDoc(document: Document, force: bool, embedded: Option<seq<Vector>>)
    | DeleteDoc(documentId: string)

  function HashOf(setting: Setting, document: Document): string {
    setting.digest(HashInput(document.text, document.metadata))
  }

  predicate Unchanged(setting: Setting, index: Index, document: Document) {
    document.id in index.hashes && index.hashes[document.id] == HashOf(setting, document)
  }

  function IndexStep(setting: Setting, index: Index, document: Document, force: bool,
                     embedded: Option<seq<Vector>>): (Index, Outcome)
    requires setting.cfg.Valid()
  {
    var chunks := ChunksOf(document, setting.cfg);
    var hashes := index.hashes[document.id := HashOf(setting, document)];
    if !force && Unchanged(setting, index, document) then (index, Returned([]))
    else if chunks == [] then (Index(hashes, WithoutDocument(index.store, document.id)), Returned([]))
    else if embedded.None? || |embedded.value| != |chunks| then (index, IndexingError)
    else (Index(hashes, Upserted(index.store, chunks, embedded.value)), Returned(chunks))
  }

  function DeleteStep(index: Index, documentId: string): Index {
    Index(index.hashes - {documentId}, WithoutDocument(index.store, documentId))
  }

  class IndexingService {
    const chunker: DeterministicChunker
    const vectorStore: InMemoryVectorStoreAdapter
    const digest: string -> string
    var documentHashes: map<string, string>

    constructor (chunker: DeterministicChunker, vectorStore: InMemoryVectorStoreAdapter, digest: string -> string)
      ensures this.chunker == chunker && this.vectorStore == vectorStore && this.digest == digest
      ensures documentHashes == map[]
    {
      this.chunker, this.vectorStore, this.digest := chunker, vectorStore, digest;
      documentHashes := map[];
    }

    ghost function View(): Index
      reads this, vectorStore
    {
      Index(documentHashes, vectorStore.store)
    }

    ghost function Settings(): Setting {
      Setting(chunker.config, digest)
    }

    method IndexDocument(document: Document, force: bool, embedded: Option<seq<Vector>>) returns (outcome: Outcome)
      requires chunker.config.Valid()
      modifies this, vectorStore
      ensures (View(), outcome) == IndexStep(Settings(), old(View()), document, force, embedded)
    {
      var contentHash := digest(HashInput(document.text, document.metadata));
      if !force && document.id in documentHashes && documentHashes[document.id] == contentHash {
        return Returned([]);
      }
      var chunks := chunker.ChunkDocument(document);
      if chunks == [] {
        vectorStore.DeleteByDocument(document.id);
        documentHashes := documentHashes[document.id := contentHash];
        return Returned([]);
      }
      if embedded.None? || |embedded.value| != |chunks| {
        return IndexingError;
      }
      var ok := vectorStore.Upsert(chunks, embedded.value);
      documentHashes := documentHashes[document.id := contentHash];
      return Returned(chunks);
    }

    method DeleteDocument(documentId: string)
      modifies this, vectorStore
      ensures View() == DeleteStep(old(View()), documentId)
    {
      vectorStore.DeleteByDocument(documentId);
      documentHashes := documentHashes - {documentId};
    }
  }

  /******* Runs *******/

  function Step(setting: Setting, index: Index, op: Op): Index
    requires setting.cfg.Valid()
  {
    match op
    case IndexDoc(document, force, embedded) => IndexStep(setting, index, document, force, embedded).0
    case DeleteDoc(documentId) => DeleteStep(index, documentId)
  }

  function Run(setting: Setting, ops: seq<Op>): Index
    requires setting.cfg.Valid()
  {
    if ops == [] then Index(map[], map[]) else Step(setting, Run(setting, Init(ops)), Last(ops))
  }

  /** The operation is one that really indexes the document: neither skipped nor failed. */
  predicate TakesEffect(setting: Setting, index: Index, op: Op)
    requires setting.cfg.Valid()
  {
    && op.IndexDoc?
    && (op.force || !Unchanged(setting, index, op.document))
    && (|| ChunksOf(op.document, setting.cfg) == []
        || (op.embedded.Some? && |op.embedded.value| == |ChunksOf(op.document, setting.cfg)|))
  }

  function Zipped(chunks: seq<Chunk>, vectors: seq<Vector>): (stored: seq<Stored>)
    requires |chunks| == |vectors|
    ensures |stored| == |chunks| && forall i :: 0 <= i < |chunks| ==> stored[i] == Stored(chunks[i], vectors[i])
  {
    seq(|chunks|, i requires 0 <= i < |chunks| => Stored(chunks[i], vectors[i]))
  }

  /** The chunk lists indexed for a document since it was last wiped, oldest first. A document is wiped by deleting it
      and by indexing it with the empty text. */
  function History(setting: Setting, ops: seq<Op>, id: string): seq<seq<Stored>>
    requires setting.cfg.Valid()
  {
    if ops == [] then []
    else
      var before, op := History(setting, Init(ops), id), Last(ops);
      if op.DeleteDoc? then (if op.documentId == id then [] else before)
      else if op.document.id != id || !TakesEffect(setting, Run(setting, Init(ops)), op) then before
      else
        var chunks := ChunksOf(op.document, setting.cfg);
        if chunks == [] then [] else before + [Zipped(chunks, op.embedded.value)]
  }

  /** The k-th entry of the latest list that has one. */
  function Expected(history: seq<seq<Stored>>, k: nat): Option<Stored> {
    if history == [] then None
    else if k < |Last(history)| then Some(Last(history)[k])
    else Expected(Init(history), k)
  }

  function StoredAt(store: Store, id: string, k: nat): Option<Stored> {
    if ChunkId(id, k) in store then Some(store[ChunkId(id, k)]) else None
  }

  /** Every entry sits under the identifier its own chunk makes. */
  ghost predicate WellKeyed(store: Store) {
    forall c :: c in store ==> c == ChunkId(store[c].chunk.documentId, store[c].chunk.index)
  }

  /******* One step *******/

  /** A colon lies before any tail of digits. */
  lemma ColonBeforeDigits(whole: string, p: nat, digits: string)
    requires p < |whole| && whole[p] == ':' && |digits| <= |whole|
    requires whole[|whole| - |digits|..] == digits && Decimal.AllDigits(digits)
    ensures p < |whole| - |digits|
  {
    forall q | |whole| - |digits| <= q < |whole| ensures Decimal.IsDigit(whole[q]) {
      assert whole[q] == digits[q - (|whole| - |digits|)];
    }
  }

  /** Chunk identifiers never collide, whatever colons and digits the document identifiers contain. */
  lemma ChunkIdInjective(id: string, k: nat, id': string, k': nat)
    requires ChunkId(id, k) == ChunkId(id', k')
    ensures id == id' && k == k'
  {
    var whole, d, d' := ChunkId(id, k), Decimal.Print(k), Decimal.Print(k');
    Decimal.PrintIsCanonical(k);
    Decimal.PrintIsCanonical(k');
    assert whole[|whole| - |d|..] == d && whole[|whole| - |d'|..] == d';
    ColonBeforeDigits(whole, |id|, d');
    ColonBeforeDigits(whole, |id'|, d);
    Decimal.PrintInjective(k, k');
    assert whole[..|id|] == id && whole[..|id'|] == id';
  }

  ghost predicate ChunksOfDocument(documentId: string, chunks: seq<Chunk>) {
    forall i :: 0 <= i < |chunks| ==>
      chunks[i].documentId == documentId && chunks[i].index == i && chunks[i].id == ChunkId(documentId, i)
  }

  lemma {:induction false} UpsertedAt(store: Store, documentId: string, chunks: seq<Chunk>, vectors: seq<Vector>,
                                      id: string, k: nat)
    requires |chunks| == |vectors| && ChunksOfDocument(documentId, chunks)
    ensures StoredAt(Upserted(store, chunks, vectors), id, k) ==
              if id == documentId && k < |chunks| then Some(Stored(chunks[k], vectors[k])) else StoredAt(store, id, k)
  {
    if chunks != [] {
      UpsertedAt(store, documentId, Init(chunks), Init(vectors), id, k);
      if ChunkId(id, k) == Last(chunks).id {
        ChunkIdInjective(id, k, documentId, |chunks| - 1);
      }
    }
  }

  lemma {:induction false} UpsertedWellKeyed(store: Store, documentId: string, chunks: seq<Chunk>, vectors: seq<Vector>)
    requires |chunks| == |vectors| && ChunksOfDocument(documentId, chunks) && WellKeyed(store)
    ensures WellKeyed(Upserted(store, chunks, vectors))
  {
    if chunks != [] {
      UpsertedWellKeyed(store, documentId, Init(chunks), Init(vectors));
    }
  }

  lemma WithoutDocumentAt(store: Store, documentId: string, id: string, k: nat)
    requires WellKeyed(store)
    ensures StoredAt(WithoutDocument(store, documentId), id, k) ==
              if id == documentId then None else StoredAt(store, id, k)
    ensures WellKeyed(WithoutDocument(store, documentId))
  {
    if ChunkId(id, k) in store {
      var chunk := store[ChunkId(id, k)].chunk;
      ChunkIdInjective(id, k, chunk.documentId, chunk.index);
    }
  }

  lemma ChunksAreOfDocument(setting: Setting, document: Document)
    requires setting.cfg.Valid()
    ensures ChunksOfDocument(document.id, ChunksOf(document, setting.cfg))
  {
    ChunksAreNumberedWindows(document, setting.cfg);
  }

  /******* Every run *******/

  lemma {:induction false} RunWellKeyed(setting: Setting, ops: seq<Op>)
    requires setting.cfg.Valid()
    ensures WellKeyed(Run(setting, ops).store)
  {
    if ops != [] {
      RunWellKeyed(setting, Init(ops));
      var store, op := Run(setting, Init(ops)).store, Last(ops);
      if op.IndexDoc? {
        ChunksAreOfDocument(setting, op.document);
        if TakesEffect(setting, Run(setting, Init(ops)), op) && ChunksOf(op.document, setting.cfg) != [] {
          UpsertedWellKeyed(store, op.document.id, ChunksOf(op.document, setting.cfg), op.embedded.value);
        }
      }
    }
  }

  /** What an indexing step does to chunk k of a document. */
  lemma StoredAfterIndexing(setting: Setting, before: Index, op: Op, id: string, k: nat)
    requires setting.cfg.Valid() && WellKeyed(before.store) && op.IndexDoc?
    ensures
      var chunks, stored := ChunksOf(op.document, setting.cfg), StoredAt(before.store, id, k);
      StoredAt(Step(setting, before, op).store, id, k) ==
        if op.document.id != id || !TakesEffect(setting, before, op) then stored
        else if chunks == [] then None
        else if k < |chunks| then Some(Stored(chunks[k], op.embedded.value[k]))
        else stored
  {
    ChunksAreOfDocument(setting, op.document);
    WithoutDocumentAt(before.store, op.document.id, id, k);
    var chunks := ChunksOf(op.document, setting.cfg);
    if TakesEffect(setting, before, op) && chunks != [] {
      UpsertedAt(before.store, op.document.id, chunks, op.embedded.value, id, k);
    }
  }

  /** After any run, what is stored as chunk k of a document is chunk k of the latest text indexed since the document
      was wiped that has more than k chunks, if there is one. */
  lemma {:induction false} StoreIsHistory(setting: Setting, ops: seq<Op>, id: string, k: nat)
    requires setting.cfg.Valid()
    ensures StoredAt(Run(setting, ops).store, id, k) == Expected(History(setting, ops, id), k)
  {
    if ops != [] {
      StoreIsHistory(setting, Init(ops), id, k);
      RunWellKeyed(setting, Init(ops));
      var before, op := Run(setting, Init(ops)), Last(ops);
      match op
      case DeleteDoc(documentId) =>
        WithoutDocumentAt(before.store, documentId, id, k);
      case IndexDoc(_, _, _) =>
        StoredAfterIndexing(setting, before, op, id, k);
    }
  }

  /** Every key in the store is the identifier of a chunk of some document's history. */
  lemma NothingElseIsStored(setting: Setting, ops: seq<Op>, c: string)
    requires setting.cfg.Valid() && c in Run(setting, ops).store
    ensures exists id, k ::
            c == ChunkId(id, k) && Expected(History(setting, ops, id), k) == Some(Run(setting, ops).store[c])
  {
    RunWellKeyed(setting, ops);
    var chunk := Run(setting, ops).store[c].chunk;
    StoreIsHistory(setting, ops, chunk.documentId, chunk.index);
  }

  /** The document a service would call the current one: the last that took effect and was not deleted since. */
  function LastIndexed(setting: Setting, ops: seq<Op>, id: string): Option<Document>
    requires setting.cfg.Valid()
  {
    if ops == [] then None
    else
      var before, op := LastIndexed(setting, Init(ops), id), Last(ops);
      if op.DeleteDoc? then (if op.documentId == id then None else before)
      else if op.document.id == id && TakesEffect(setting, Run(setting, Init(ops)), op) then Some(op.document)
      else before
  }

  /** The hash kept for a document is that of its last text, if it has one. */
  ghost predicate KeepsHashOf(setting: Setting, hashes: map<string, string>, id: string, last: Option<Document>) {
    match last
    case None => id !in hashes
    case Some(document) => document.id == id && id in hashes && hashes[id] == HashOf(setting, document)
  }

  lemma StepKeepsHash(setting: Setting, index: Index, op: Op, id: string, last: Option<Document>)
    requires setting.cfg.Valid() && KeepsHashOf(setting, index.hashes, id, last)
    ensures
      var now := if op.DeleteDoc? then (if op.documentId == id then None else last)
                 else if op.document.id == id && TakesEffect(setting, index, op) then Some(op.document)
                 else last;
      KeepsHashOf(setting, Step(setting, index, op).hashes, id, now)
  {
  }

  /** After any run the hash kept for a document is that of the last text that took effect. */
  lemma {:induction false} HashesAreCurrent(setting: Setting, ops: seq<Op>, id: string)
    requires setting.cfg.Valid()
    ensures KeepsHashOf(setting, Run(setting, ops).hashes, id, LastIndexed(setting, ops, id))
  {
    if ops != [] {
      HashesAreCurrent(setting, Init(ops), id);
      StepKeepsHash(setting, Run(setting, Init(ops)), Last(ops), id, LastIndexed(setting, Init(ops), id));
    }
  }

  /** Every chunk of the last text that took effect is stored under its own number. */
  lemma {:induction false} CurrentChunksAreStored(setting: Setting, ops: seq<Op>, id: string, k: nat)
    requires setting.cfg.Valid() && LastIndexed(setting, ops, id).Some?
    requires k < |ChunksOf(LastIndexed(setting, ops, id).value, setting.cfg)|
    ensures
      var stored := StoredAt(Run(setting, ops).store, id, k);
      stored.Some? && stored.value.chunk == ChunksOf(LastIndexed(setting, ops, id).value, setting.cfg)[k]
  {
    LatestOfHistory(setting, ops, id);
    StoreIsHistory(setting, ops, id, k);
  }

  ghost predicate HoldsChunks(stored: seq<Stored>, chunks: seq<Chunk>) {
    |stored| == |chunks| && forall i :: 0 <= i < |chunks| ==> stored[i].chunk == chunks[i]
  }

  lemma {:induction false} LatestOfHistory(setting: Setting, ops: seq<Op>, id: string)
    requires setting.cfg.Valid()
    ensures
      var history := History(setting, ops, id);
      match LastIndexed(setting, ops, id)
      case None => history == []
      case Some(document) =>
        var chunks := ChunksOf(document, setting.cfg);
        if chunks == [] then history == [] else history != [] && HoldsChunks(Last(history), chunks)
  {
    if ops != [] {
      LatestOfHistory(setting, Init(ops), id);
    }
  }

  /** What indexing answers: nothing for the empty text and when it skips; an error, with nothing changed, when the
      embedding gateway raised or gave another number of vectors than there are chunks; else the chunks. */
  lemma WhatIndexingReturns(setting: Setting, ops: seq<Op>, document: Document, force: bool,
                            embedded: Option<seq<Vector>>)
    requires setting.cfg.Valid()
    ensures
      var before := Run(setting, ops);
      var (after, outcome) := IndexStep(setting, before, document, force, embedded);
      var skips := !force && Unchanged(setting, before, document);
      && (outcome == IndexingError <==>
          !skips && document.text != "" &&
            (embedded == None || |embedded.value| != |Windows(document.text, setting.cfg)|))
      && (outcome.Returned? ==>
            if skips || document.text == "" then outcome.chunks == []
            else outcome.chunks != [] && outcome.chunks == ChunksOf(document, setting.cfg))
      && (skips || outcome == IndexingError ==> after == before)
  {
    ChunksAreNumberedWindows(document, setting.cfg);
    WindowCount(document.text, setting.cfg);
    assert document.text != "" ==> |ChunksOf(document, setting.cfg)| >= 1;
  }

  /******* Stale chunks *******/

  /** The store holds exactly these chunks of the document. */
  ghost predicate HoldsExactly(store: Store, id: string, chunks: seq<Chunk>) {
    forall k: nat ::
      if k < |chunks| then StoredAt(store, id, k).Some? && StoredAt(store, id, k).value.chunk == chunks[k]
      else StoredAt(store, id, k).None?
  }

  lemma {:induction false} ExpectedNoneIff(history: seq<seq<Stored>>, k: nat)
    ensures Expected(history, k).None? <==> forall i :: 0 <= i < |history| ==> |history[i]| <= k
  {
    if history != [] {
      ExpectedNoneIff(Init(history), k);
      assert forall i :: 0 <= i < |history| - 1 ==> Init(history)[i] == history[i];
      assert Last(history) == history[|history| - 1];
    }
  }

  /** The store holds exactly the chunks of the last text that took effect if and only if no earlier text since the
      document was wiped had more of them; otherwise the surplus chunks of the longer text are still there. */
  lemma ExactIffNeverShrank(setting: Setting, ops: seq<Op>, id: string)
    requires setting.cfg.Valid() && LastIndexed(setting, ops, id).Some?
    ensures
      var chunks, history := ChunksOf(LastIndexed(setting, ops, id).value, setting.cfg), History(setting, ops, id);
      HoldsExactly(Run(setting, ops).store, id, chunks) <==> forall i :: 0 <= i < |history| ==> |history[i]| <= |chunks|
  {
    var chunks, history := ChunksOf(LastIndexed(setting, ops, id).value, setting.cfg), History(setting, ops, id);
    var store := Run(setting, ops).store;
    StoreIsHistory(setting, ops, id, |chunks|);
    ExpectedNoneIff(history, |chunks|);
    if forall i :: 0 <= i < |history| ==> |history[i]| <= |chunks| {
      forall k: nat
        ensures if k < |chunks| then StoredAt(store, id, k).Some? && StoredAt(store, id, k).value.chunk == chunks[k]
                else StoredAt(store, id, k).None?
      {
        if k < |chunks| {
          CurrentChunksAreStored(setting, ops, id, k);
        } else {
          StoreIsHistory(setting, ops, id, k);
          ExpectedNoneIff(history, k);
        }
      }
    } else {
      assert StoredAt(store, id, |chunks|).Some?;
    }
  }

  /** After a delete nothing of the document is left, whatever happened before. */
  lemma DeleteLeavesNone(setting: Setting, ops: seq<Op>, id: string, c: string)
    requires setting.cfg.Valid()
    ensures
      var after := Run(setting, ops + [DeleteDoc(id)]);
      id !in after.hashes && (c in after.store ==> after.store[c].chunk.documentId != id) &&
      (forall k: nat :: StoredAt(after.store, id, k).None?)
  {
    var all := ops + [DeleteDoc(id)];
    assert Init(all) == ops && Last(all) == DeleteDoc(id);
    forall k: nat ensures StoredAt(Run(setting, all).store, id, k).None? {
      StoreIsHistory(setting, all, id, k);
    }
  }

  function Subject(op: Op): string {
    match op
    case IndexDoc(document, _, _) => document.id
    case DeleteDoc(documentId) => documentId
  }

  /** An operation on one document never touches another's entries or hash. */
  lemma OthersUntouched(setting: Setting, ops: seq<Op>, op: Op, id: string, k: nat)
    requires setting.cfg.Valid() && id != Subject(op)
    ensures
      var before, after := Run(setting, ops), Run(setting, ops + [op]);
      StoredAt(after.store, id, k) == StoredAt(before.store, id, k) &&
      (id in after.hashes <==> id in before.hashes) && (id in before.hashes ==> after.hashes[id] == before.hashes[id])
  {
    assert Init(ops + [op]) == ops && Last(ops + [op]) == op;
    StoreIsHistory(setting, ops, id, k);
    StoreIsHistory(setting, ops + [op], id, k);
  }

  /******* Skipping *******/

  ghost predicate Injective(digest: string -> string) {
    forall a, b :: digest(a) == digest(b) ==> a == b
  }

  /** A document is skipped exactly when it and the last text that took effect have equal normalised text and metadata,
      or one of them has no metadata and its text goes on, after the other's, with the other's metadata. */
  lemma SkippedIffSameContent(setting: Setting, ops: seq<Op>, document: Document)
    requires setting.cfg.Valid() && Injective(setting.digest)
    ensures
      var last := LastIndexed(setting, ops, document.id);
      Unchanged(setting, Run(setting, ops), document) <==>
        && last.Some?
        && Alike(Normalise(last.value.text), last.value.metadata, Normalise(document.text), document.metadata)
  {
    HashesAreCurrent(setting, ops, document.id);
    var last := LastIndexed(setting, ops, document.id);
    if last.Some? {
      HashInputsEqualIff(last.value.text, last.value.metadata, document.text, document.metadata);
    }
  }

  /** Texts in normal form are compared as they are: with metadata in both or in neither, an edit anywhere in text or
      metadata is never taken for unchanged. */
  lemma EditsAreSeen(setting: Setting, ops: seq<Op>, document: Document)
    requires setting.cfg.Valid() && Injective(setting.digest) && LastIndexed(setting, ops, document.id).Some?
    requires NormalForm(document.text) && NormalForm(LastIndexed(setting, ops, document.id).value.text)
    requires document.metadata.Some? <==> LastIndexed(setting, ops, document.id).value.metadata.Some?
    ensures
      var last := LastIndexed(setting, ops, document.id).value;
      Unchanged(setting, Run(setting, ops), document) <==>
        last.text == document.text && last.metadata == document.metadata
  {
    SkippedIffSameContent(setting, ops, document);
    NormalFormIsFixed(document.text);
    NormalFormIsFixed(LastIndexed(setting, ops, document.id).value.text);
  }
}
