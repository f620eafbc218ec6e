/** Cutting a document into overlapping windows of characters. */
module Chunker {
  import opened JsonText
  import opened Prelude
  import Decimal

  datatype Document = Document(id: string, text: string, metadata: Option<Members>)

  datatype Chunk = Chunk(id: string, documentId: string, index: nat, text: string, metadata: Option<Members>)

  datatype ChunkingConfig = ChunkingConfig(chunkSize: nat, overlap: nat)
  {
    predicate Valid() {
      chunkSize > 0 && overlap < chunkSize
    }
  }

  function Min(a: nat, b: nat): nat {
    if a <= b then a else b
  }

  function ChunkId(documentId: string, index: nat): string {
    documentId + ":" + Decimal.Print(index)
  }

  /** The windows of a text from position start on. */
  function WindowsFrom(text: string, cfg: ChunkingConfig, start: nat): (windows: seq<string>)
    requires cfg.Valid() && start <= |text|
    decreases |text| - start
  {
    if start == |text| then []
    else
      var end := Min(start + cfg.chunkSize, |text|);
      [text[start..end]] +
      if end == |text| then [] else WindowsFrom(text, cfg, start + (cfg.chunkSize - cfg.overlap))
  }

  function Windows(text: string, cfg: ChunkingConfig): seq<string>
    requires cfg.Valid()
  {
    WindowsFrom(text, cfg, 0)
  }

  function ChunkAt(document: Document, index: nat, text: string): Chunk {
    Chunk(ChunkId(document.id, index), document.id, index, text, document.metadata)
  }

  /** The chunks of a document from position start on, numbered from index on. */
  function ChunksFrom(document: Document, cfg: ChunkingConfig, start: nat, index: nat): (chunks: seq<Chunk>)
    requires cfg.Valid() && start <= |document.text|
    decreases |document.text| - start
  {
    if start == |document.text| then []
    else
      var end := Min(start + cfg.chunkSize, |document.text|);
      [ChunkAt(document, index, document.text[start..end])] +
      if end == |document.text| then []
      else ChunksFrom(document, cfg, start + (cfg.chunkSize - cfg.overlap), index + 1)
  }

  function ChunksOf(document: Document, cfg: ChunkingConfig): seq<Chunk>
    requires cfg.Valid()
  {
    ChunksFrom(document, cfg, 0, 0)
  }

  /** The chunks are the windows, numbered from index on. */
  ghost predicate Numbered(document: Document, index: nat, chunks: seq<Chunk>, windows: seq<string>) {
    && |chunks| == |windows|
    && forall i :: 0 <= i < |windows| ==> chunks[i] == ChunkAt(document, index + i, windows[i])
  }

  lemma NumberedCons(document: Document, index: nat, text: string, chunks: seq<Chunk>, windows: seq<string>)
    requires Numbered(document, index + 1, chunks, windows)
    ensures Numbered(document, index, [ChunkAt(document, index, text)] + chunks, [text] + windows)
  {
    forall i | 0 <= i < |windows| + 1
      ensures ([ChunkAt(document, index, text)] + chunks)[i] == ChunkAt(document, index + i, ([text] + windows)[i])
    {
      if i > 0 {
        assert chunks[i - 1] == ChunkAt(document, index + 1 + (i - 1), windows[i - 1]);
      }
    }
  }

  lemma WindowsStep(text: string, cfg: ChunkingConfig, start: nat)
    requires cfg.Valid() && start + cfg.chunkSize < |text|
    ensures WindowsFrom(text, cfg, start) ==
            [text[start..start + cfg.chunkSize]] + WindowsFrom(text, cfg, start + (cfg.chunkSize - cfg.overlap))
  {
  }

  lemma ChunksStep(document: Document, cfg: ChunkingConfig, start: nat, index: nat)
    requires cfg.Valid() && start + cfg.chunkSize < |document.text|
    ensures ChunksFrom(document, cfg, start, index) ==
            [ChunkAt(document, index, document.text[start..start + cfg.chunkSize])] +
              ChunksFrom(document, cfg, start + (cfg.chunkSize - cfg.overlap), index + 1)
  {
  }

  lemma {:induction false} ChunksAreNumberedFrom(document: Document, cfg: ChunkingConfig, start: nat, index: nat)
    requires cfg.Valid() && start <= |document.text|
    ensures Numbered(document, index, ChunksFrom(document, cfg, start, index), WindowsFrom(document.text, cfg, start))
    decreases |document.text| - start
  {
    if start < |document.text| {
      var end := Min(start + cfg.chunkSize, |document.text|);
      if end < |document.text| {
        var next := start + (cfg.chunkSize - cfg.overlap);
        ChunksAreNumberedFrom(document, cfg, next, index + 1);
        WindowsStep(document.text, cfg, start);
        ChunksStep(document, cfg, start, index);
        NumberedCons(document, index, text := document.text[start..end],
                     chunks := ChunksFrom(document, cfg, next, index + 1),
                     windows := WindowsFrom(document.text, cfg, next));
      }
    }
  }

  /** Chunk i carries the number i, the document's identity and metadata, and exactly the i-th window of its text. */
  lemma ChunksAreNumberedWindows(document: Document, cfg: ChunkingConfig)
    requires cfg.Valid()
    ensures |ChunksOf(document, cfg)| == |Windows(document.text, cfg)|
    ensures forall i :: 0 <= i < |Windows(document.text, cfg)| ==>
              var chunk := ChunksOf(document, cfg)[i];
              && chunk.id == document.id + ":" + Decimal.Print(i) && chunk.index == i
              && chunk.documentId == document.id && chunk.metadata == document.metadata
              && chunk.text == Windows(document.text, cfg)[i]
  {
    ChunksAreNumberedFrom(document, cfg, 0, 0);
    assert Numbered(document, 0, ChunksOf(document, cfg), Windows(document.text, cfg));
  }

  /** The chunks so far, and then those from the present position on. */
  function Continued(document: Document, cfg: ChunkingConfig, chunks: seq<Chunk>, start: nat, index: nat): seq<Chunk>
    requires cfg.Valid() && start < |document.text|
    decreases |document.text| - start
  {
    var end := Min(start + cfg.chunkSize, |document.text|);
    var more := chunks + [ChunkAt(document, index, document.text[start..end])];
    if end == |document.text| then more
    else Continued(document, cfg, more, start + (cfg.chunkSize - cfg.overlap), index + 1)
  }

  lemma {:induction false} ContinuedIsConcat(document: Document, cfg: ChunkingConfig, chunks: seq<Chunk>, start: nat,
                                             index: nat)
    requires cfg.Valid() && start < |document.text|
    ensures Continued(document, cfg, chunks, start, index) == chunks + ChunksFrom(document, cfg, start, index)
    decreases |document.text| - start
  {
    var end, next := Min(start + cfg.chunkSize, |document.text|), start + (cfg.chunkSize - cfg.overlap);
    var chunk := ChunkAt(document, index, document.text[start..end]);
    if end == |document.text| {
      assert ChunksFrom(document, cfg, start, index) == [chunk];
    } else {
      ContinuedIsConcat(document, cfg, chunks + [chunk], next, index + 1);
      Regrouped(chunks, [chunk], ChunksFrom(document, cfg, next, index + 1));
    }
  }

  class DeterministicChunker {
    const config: ChunkingConfig

    constructor (config: ChunkingConfig)
      requires config.Valid()
      ensures this.config == config
    {
      this.config := config;
    }

    method ChunkDocument(document: Document) returns (chunks: seq<Chunk>)
      requires config.Valid()
      ensures chunks == ChunksOf(document, config)
    {
      var text := document.text;
      if |text| == 0 {
        return [];
      }
      chunks := [];
      var step := if 1 >= config.chunkSize - config.overlap then 1 else config.chunkSize - config.overlap;
      var start, index := 0, 0;
      ghost var all := ChunksOf(document, config);
      assert Continued(document, config, chunks, start, index) == all by {
        ContinuedIsConcat(document, config, [], 0, 0);
        assert [] + all == all;
      }
      while start < |text|
        invariant start < |text| && Continued(document, config, chunks, start, index) == all
      {
        var end := Min(start + config.chunkSize, |text|);
        var chunk := Chunk(ChunkId(document.id, index), document.id, index, text[start..end], document.metadata);
        chunks := chunks + [chunk];
        index := index + 1;
        if end >= |text| {
          break;
        }
        start := start + step;
      }
    }
  }

  lemma FirstWindow(text: string, cfg: ChunkingConfig, start: nat)
    requires cfg.Valid() && start < |text|
    ensures
      var windows := WindowsFrom(text, cfg, start);
      windows != [] && windows[0] == text[start..Min(start + cfg.chunkSize, |text|)]
  {
  }

  /** Where chunk k begins. */
  function StartOf(cfg: ChunkingConfig, k: nat): nat
    requires cfg.Valid()
  {
    if k == 0 then 0 else StartOf(cfg, k - 1) + (cfg.chunkSize - cfg.overlap)
  }

  lemma {:induction false} StartIsProduct(cfg: ChunkingConfig, k: nat)
    requires cfg.Valid()
    ensures StartOf(cfg, k) == k * (cfg.chunkSize - cfg.overlap)
  {
    if k > 0 {
      StartIsProduct(cfg, k - 1);
    }
  }

  /** Window k begins k steps into the text and is as long as the chunk size, or up to the end of the text. */
  lemma {:induction false} WindowFromIs(text: string, cfg: ChunkingConfig, start: nat, k: nat, from: nat, end: nat)
    requires cfg.Valid() && start <= |text| && k < |WindowsFrom(text, cfg, start)|
    requires from == start + StartOf(cfg, k) && end == Min(from + cfg.chunkSize, |text|)
    ensures from < end && WindowsFrom(text, cfg, start)[k] == text[from..end]
    decreases k
  {
    if k == 0 {
      FirstWindow(text, cfg, start);
    } else {
      WindowsStep(text, cfg, start);
      WindowFromIs(text, cfg, start + (cfg.chunkSize - cfg.overlap), k - 1, from, end);
    }
  }

  /** Chunk i holds the characters from i * (size - overlap) on, size of them or as many as there are. */
  lemma ChunkTextIs(document: Document, cfg: ChunkingConfig, i: nat)
    requires cfg.Valid() && i < |ChunksOf(document, cfg)|
    ensures StartOf(cfg, i) == i * (cfg.chunkSize - cfg.overlap)
    ensures
      var from := StartOf(cfg, i);
      from < |document.text| &&
      ChunksOf(document, cfg)[i].text == document.text[from..Min(from + cfg.chunkSize, |document.text|)]
  {
    StartIsProduct(cfg, i);
    ChunksAreNumberedWindows(document, cfg);
    var from := StartOf(cfg, i);
    WindowFromIs(document.text, cfg, 0, i, from, Min(from + cfg.chunkSize, |document.text|));
  }

  /******* Nothing is lost *******/

  /** The later windows without what they repeat, one after the other. */
  function NewParts(windows: seq<string>, overlap: nat): string {
    if windows == [] then []
    else (if overlap <= |windows[0]| then windows[0][overlap..] else []) + NewParts(windows[1..], overlap)
  }

  lemma AfterOverlap(window: string, parts: string, whole: string, overlap: nat)
    requires overlap <= |window| && window + parts == whole
    ensures window[overlap..] + parts == whole[overlap..]
  {
  }

  lemma {:induction false} ReassembledFrom(text: string, cfg: ChunkingConfig, start: nat)
    requires cfg.Valid() && start < |text|
    ensures
      var windows := WindowsFrom(text, cfg, start);
      && windows != [] && windows[0] == text[start..Min(start + cfg.chunkSize, |text|)]
      && windows[0] + NewParts(windows[1..], cfg.overlap) == text[start..]
    decreases |text| - start
  {
    var end := Min(start + cfg.chunkSize, |text|);
    var windows := WindowsFrom(text, cfg, start);
    if end == |text| {
      assert text[start..end] == text[start..] && [text[start..]] + [] == [text[start..]];
      assert text[start..] + [] == text[start..];
    } else {
      var next := start + (cfg.chunkSize - cfg.overlap);
      ReassembledFrom(text, cfg, next);
      var later := WindowsFrom(text, cfg, next);
      assert windows == [text[start..end]] + later by {
        WindowsStep(text, cfg, start);
      }
      assert windows[1..] == later;
      AfterOverlap(later[0], NewParts(later[1..], cfg.overlap), text[next..], cfg.overlap);
      assert NewParts(later, cfg.overlap) == text[next..][cfg.overlap..];
      assert text[next..][cfg.overlap..] == text[end..];
      assert text[start..] == text[start..end] + text[end..];
    }
  }

  /** The first window followed by the new parts of the later ones is exactly the text. */
  lemma Reassembles(text: string, cfg: ChunkingConfig)
    requires cfg.Valid() && text != []
    ensures
      var windows := Windows(text, cfg);
      windows != [] && windows[0] + NewParts(windows[1..], cfg.overlap) == text
  {
    ReassembledFrom(text, cfg, 0);
  }

  /******* How many windows *******/

  function CeilDiv(a: nat, b: nat): nat
    requires b > 0
  {
    (a + b - 1) / b
  }

  lemma ProductAtLeast(q: nat, b: nat)
    requires q >= 1
    ensures q * b >= b
  {
    assert q * b == (q - 1) * b + b;
  }

  lemma QuotientIs(x: nat, b: nat, q: nat, r: nat)
    requires r < b && x == q * b + r
    ensures x / b == q
  {
    var q', r' := x / b, x % b;
    assert x == q' * b + r';
    assert (q' - q) * b == q' * b - q * b;
    assert (q - q') * b == q * b - q' * b;
    if q < q' {
      ProductAtLeast(q' - q, b);
    } else if q' < q {
      ProductAtLeast(q - q', b);
    }
  }

  lemma CeilDivStep(a: nat, b: nat)
    requires b > 0
    ensures CeilDiv(a + b, b) == CeilDiv(a, b) + 1
  {
    var x := a + b - 1;
    var q, r := x / b, x % b;
    assert x == q * b + r;
    assert (q + 1) * b == q * b + b;
    QuotientIs(x + b, b, q + 1, r);
  }

  lemma CeilDivSmall(a: nat, b: nat)
    requires a <= b && b > 0
    ensures CeilDiv(a, b) == if a == 0 then 0 else 1
  {
    QuotientIs(a + b - 1, b, if a == 0 then 0 else 1, if a == 0 then b - 1 else a - 1);
  }

  lemma {:induction false} WindowCountFrom(text: string, cfg: ChunkingConfig, start: nat)
    requires cfg.Valid() && start < |text|
    ensures
      var left := |text| - start;
      |WindowsFrom(text, cfg, start)| ==
        1 + CeilDiv(if left > cfg.chunkSize then left - cfg.chunkSize else 0, cfg.chunkSize - cfg.overlap)
    decreases |text| - start
  {
    var step, left := cfg.chunkSize - cfg.overlap, |text| - start;
    if left <= cfg.chunkSize {
      CeilDivSmall(0, step);
    } else {
      WindowCountFrom(text, cfg, start + step);
      if left - step > cfg.chunkSize {
        CeilDivStep(left - step - cfg.chunkSize, step);
      } else {
        CeilDivSmall(left - cfg.chunkSize, step);
        CeilDivSmall(0, step);
      }
    }
  }

  /** A non-empty text gives 1 + ceil(max(0, length - size) / (size - overlap)) windows, the empty one none. */
  lemma WindowCount(text: string, cfg: ChunkingConfig)
    requires cfg.Valid()
    ensures |Windows(text, cfg)| ==
              if text == [] then 0
              else
                1 + CeilDiv(if |text| > cfg.chunkSize then |text| - cfg.chunkSize else 0, cfg.chunkSize - cfg.overlap)
  {
    if text != [] {
      WindowCountFrom(text, cfg, 0);
    }
  }

  /******* Nothing short is split *******/

  /** Window k holds the characters i .. i + n of the text, and says where. */
  ghost predicate Holds(text: string, windows: seq<string>, k: nat, at: nat, i: nat, n: nat) {
    && i + n <= |text| && k < |windows| && at + n <= |windows[k]|
    && windows[k][at..at + n] == text[i..i + n]
  }

  lemma HoldsLater(text: string, first: string, later: seq<string>, k: nat, at: nat, i: nat, n: nat)
    requires Holds(text, later, k, at, i, n)
    ensures Holds(text, [first] + later, k + 1, at, i, n)
  {
    assert ([first] + later)[k + 1] == later[k];
  }

  lemma WithinWindow(text: string, start: nat, end: nat, i: nat, n: nat)
    requires start <= i && i + n <= end <= |text|
    ensures text[start..end][i - start..i - start + n] == text[i..i + n]
  {
    var window, at := text[start..end], i - start;
    var part, stretch := window[at..at + n], text[i..i + n];
    forall j | 0 <= j < n
      ensures part[j] == stretch[j]
    {
      assert part[j] == window[at + j] == text[start + (at + j)];
    }
  }

  lemma {:induction false} HeldFrom(text: string, cfg: ChunkingConfig, start: nat, i: nat, n: nat)
    returns (k: nat, at: nat)
    requires cfg.Valid() && start < |text| && start <= i && i + n <= |text| && n <= cfg.overlap + 1
    ensures Holds(text, WindowsFrom(text, cfg, start), k, at, i, n)
    decreases |text| - start
  {
    var end := Min(start + cfg.chunkSize, |text|);
    if i + n <= end {
      k, at := 0, i - start;
      WithinWindow(text, start, end, i, n);
      FirstWindow(text, cfg, start);
    } else {
      var next := start + (cfg.chunkSize - cfg.overlap);
      var k', at' := HeldFrom(text, cfg, next, i, n);
      k, at := k' + 1, at';
      WindowsStep(text, cfg, start);
      HoldsLater(text, text[start..end], WindowsFrom(text, cfg, next), k', at', i, n);
    }
  }

  /** Every stretch of at most overlap + 1 characters lies inside a single window. */
  lemma ShortStretchesAreWhole(text: string, cfg: ChunkingConfig, i: nat, n: nat)
    requires cfg.Valid() && i + n <= |text| && n <= cfg.overlap + 1 && text != []
    ensures exists k, at :: Holds(text, Windows(text, cfg), k, at, i, n)
  {
    var k, at := HeldFrom(text, cfg, 0, i, n);
    assert Holds(text, Windows(text, cfg), k, at, i, n);
  }
}
