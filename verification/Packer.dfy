/** The decode packer of the in-process embedder: texts are packed in order into chunks that
    one encoder call can hold, and every row is read back for its own text. */
module Packer {
  import opened Arithmetic
  import opened Options

  const MIN_N_CTX: nat := 64

  type Tokens = seq<int>
  type Row = seq<real>

  datatype Failure =
    | InputTooLong(tokens: nat, nCtx: nat, index: Option<nat>)
    | Backend(what: string)

  datatype Outcome<+T> = Ok(value: T) | Err(error: Failure)

  // ---------------------------------------------------------------- the floors

  datatype Config = Config(streams: nat, nCtx: nat, seqMax: nat, nBatch: nat, nUbatch: nat)

  /** What the encoder needs: a chunk of `nCtx` tokens fits one physical batch. */
  predicate Safe(c: Config)
  {
    c.streams >= 1 && c.seqMax >= 1 && MIN_N_CTX <= c.nCtx <= c.nUbatch <= c.nBatch
  }

  function WithFloors(streams: nat, nCtx: nat, seqMax: nat, nBatch: nat, nUbatch: nat): (c: Config)
    ensures Safe(c)
    ensures Safe(Config(streams, nCtx, seqMax, nBatch, nUbatch)) ==> c == Config(streams, nCtx, seqMax, nBatch, nUbatch)
  {
    var ctx := Max(nCtx, MIN_N_CTX);
    var batch := Max(nBatch, ctx);
    Config(Max(streams, 1), ctx, Max(seqMax, 1), batch, Min(Max(nUbatch, ctx), batch))
  }

  /** No setting is raised further than safety asks, and only the physical batch is lowered. */
  lemma FloorsAreLeast(streams: nat, nCtx: nat, seqMax: nat, nBatch: nat, nUbatch: nat, other: Config)
    requires Safe(other) && other.streams >= streams && other.nCtx >= nCtx && other.seqMax >= seqMax
    requires other.nBatch >= nBatch && (other.nUbatch >= nUbatch || other.nUbatch == other.nBatch)
    ensures var c := WithFloors(streams, nCtx, seqMax, nBatch, nUbatch);
            && c.streams <= other.streams && c.nCtx <= other.nCtx && c.seqMax <= other.seqMax
            && c.nBatch <= other.nBatch && c.nUbatch <= other.nUbatch
  {}

  // ---------------------------------------------------------------- greedy chunks

  /** What a text counts for: at least one. */
  function Weight(tokens: Tokens): nat
  {
    Max(|tokens|, 1)
  }

  function Weights(texts: seq<Tokens>, from: nat, to: nat): nat
    requires from <= to <= |texts|
  {
    if from == to then 0 else Weights(texts, from, to - 1) + Weight(texts[to - 1])
  }

  /** The tokens an encoder call receives for `texts[from..to]`. */
  function Total(texts: seq<Tokens>, from: nat, to: nat): nat
    requires from <= to <= |texts|
  {
    if from == to then 0 else Total(texts, from, to - 1) + |texts[to - 1]|
  }

  /** The share of the context one of `seqMax` sequences can count on. */
  function PerSequence(c: Config): nat
  {
    c.nCtx / Max(c.seqMax, 1)
  }

  /** A chunk from `start` must close at `end`. */
  predicate Closes(c: Config, texts: seq<Tokens>, start: nat, end: nat)
    requires start < end <= |texts|
  {
    || end == |texts|
    || (end == start + 1 && Weight(texts[start]) > PerSequence(c))
    || end - start >= c.seqMax
    || Weights(texts, start, end) + Weight(texts[end]) > c.nCtx
  }

  /** The chunk from `start` is as long as it can be. */
  ghost predicate Greedy(c: Config, texts: seq<Tokens>, start: nat, end: nat)
  {
    && start < end <= |texts| && Closes(c, texts, start, end)
    && forall e :: start < e < end ==> !Closes(c, texts, start, e)
  }

  ghost predicate AllFit(c: Config, texts: seq<Tokens>)
  {
    forall i :: 0 <= i < |texts| ==> |texts[i]| <= c.nCtx
  }

  /** One greedy chunk. */
  method PackChunk(c: Config, texts: seq<Tokens>, start: nat) returns (end: nat)
    requires Safe(c) && start < |texts|
    ensures Greedy(c, texts, start, end)
  {
    end := start;
    var weight := 0;
    while end < |texts|
      invariant start <= end <= |texts| && weight == Weights(texts, start, end)
      invariant forall e :: start < e < end ==> !Closes(c, texts, start, e)
      invariant end > start ==> end == |texts| || !(end == start + 1 && Weight(texts[start]) > PerSequence(c))
    {
      var next := Weight(texts[end]);
      var seqs := end - start;
      if seqs == 0 && next > PerSequence(c) {
        end := end + 1;
        break;
      }
      if seqs >= c.seqMax { break; }
      if seqs > 0 && weight + next > c.nCtx { break; }
      weight, end := weight + next, end + 1;
    }
  }

  /** There is one greedy chunk from each start. */
  lemma GreedyIsUnique(c: Config, texts: seq<Tokens>, start: nat, a: nat, b: nat)
    requires Greedy(c, texts, start, a) && Greedy(c, texts, start, b)
    ensures a == b
  {}

  lemma {:induction false} GreedyFits(c: Config, texts: seq<Tokens>, start: nat, end: nat, e: nat)
    requires Safe(c) && AllFit(c, texts) && Greedy(c, texts, start, end) && start < e <= end
    ensures Weights(texts, start, e) <= c.nCtx && e - start <= c.seqMax
  {
    if e > start + 1 {
      GreedyFits(c, texts, start, end, e - 1);
      assert !Closes(c, texts, start, e - 1);
    } else {
      assert Weights(texts, start, start) == 0;
    }
  }

  lemma {:induction false} TotalIsBelowWeights(texts: seq<Tokens>, from: nat, to: nat)
    requires from <= to <= |texts|
    ensures Total(texts, from, to) <= Weights(texts, from, to)
  {
    if from < to { TotalIsBelowWeights(texts, from, to - 1); }
  }

  /** The encoder's condition holds for every greedy chunk, whatever the texts. */
  lemma ChunkIsSafe(c: Config, texts: seq<Tokens>, start: nat, end: nat)
    requires Safe(c) && AllFit(c, texts) && Greedy(c, texts, start, end)
    ensures end - start <= c.seqMax && Total(texts, start, end) <= c.nCtx <= c.nUbatch <= c.nBatch
  {
    GreedyFits(c, texts, start, end, end);
    TotalIsBelowWeights(texts, start, end);
  }

  /** A text is above a sequence's share exactly when `seqMax` of its length overflow the context. */
  lemma OverShareIff(c: Config, weight: nat)
    requires Safe(c)
    ensures weight > PerSequence(c) <==> weight * c.seqMax > c.nCtx
  {
    QuotientIff(c.nCtx, c.seqMax, weight);
  }

  lemma QuotientIff(n: nat, d: nat, w: nat)
    requires d > 0
    ensures w > n / d <==> w * d > n
  {
    var q := n / d;
    assert q * d <= n < q * d + d;
    if w > q {
      ProductGrows(q + 1, w, d);
      assert (q + 1) * d == q * d + d;
    } else {
      ProductGrows(w, q, d);
    }
  }

  lemma ProductGrows(a: nat, b: nat, d: nat)
    requires a <= b
    ensures a * d <= b * d
  {}

  /** A chunk closes for a reason: the texts are used up, it holds as many sequences as it may,
      the next text would not fit the context any more, or its one text is above its share. */
  lemma ChunkIsFull(c: Config, texts: seq<Tokens>, start: nat, end: nat)
    requires Safe(c) && AllFit(c, texts) && Greedy(c, texts, start, end)
    ensures || end == |texts|
            || end - start == c.seqMax
            || Weights(texts, start, end) <= c.nCtx < Weights(texts, start, end) + Max(|texts[end]|, 1)
            || (end == start + 1 && Max(|texts[start]|, 1) * c.seqMax > c.nCtx)
    ensures end > start + 1 ==> Max(|texts[start]|, 1) * c.seqMax <= c.nCtx
  {
    GreedyFits(c, texts, start, end, end);
    OverShareIff(c, Weight(texts[start]));
    if end > start + 1 { assert !Closes(c, texts, start, start + 1); }
  }

  /** Of a chunk that holds a text longer than a sequence's share, that text is alone in it
      exactly when it comes first. */
  lemma LongTextAloneInChunkIff(c: Config, texts: seq<Tokens>, start: nat, end: nat, i: nat)
    requires Safe(c) && Greedy(c, texts, start, end) && start <= i < end && Weight(texts[i]) > PerSequence(c)
    ensures end == start + 1 <==> i == start
  {
    assert start + 1 < end ==> !Closes(c, texts, start, start + 1);
  }

  // ---------------------------------------------------------------- the whole batch

  datatype Span = Span(start: nat, end: nat)

  /** The chunks up to `next`: in order, with no gap, each one greedy. */
  ghost predicate PackedTo(c: Config, texts: seq<Tokens>, spans: seq<Span>, next: nat)
  {
    && next <= |texts|
    && (if spans == [] then next == 0 else spans[0].start == 0 && spans[|spans| - 1].end == next)
    && (forall k :: 0 <= k < |spans| ==> Greedy(c, texts, spans[k].start, spans[k].end))
    && (forall k :: 0 <= k < |spans| - 1 ==> spans[k].end == spans[k + 1].start)
  }

  /** What is read back for sequence `p` of call number `k`. */
  type Reader = (nat, seq<Tokens>, nat) -> Outcome<Row>

  /** Whether call number `k` of the encoder fails on this chunk, and how. */
  type Encoder = (nat, seq<Tokens>) -> Option<string>

  /** The sequences handed to the encoder for one chunk. */
  function Chunk(texts: seq<Tokens>, span: Span): seq<Tokens>
    requires span.start <= span.end <= |texts|
  {
    texts[span.start..span.end]
  }

  /** Row `p` of chunk `k` is what the encoder gave for it. */
  ghost predicate RowsRead(read: Reader, texts: seq<Tokens>, spans: seq<Span>, k: nat, rows: seq<Row>)
    requires k < |spans| && spans[k].start <= spans[k].end <= |texts|
  {
    forall p :: spans[k].start <= p < spans[k].end && p < |rows| ==>
      read(k, Chunk(texts, spans[k]), p - spans[k].start) == Ok(rows[p])
  }

  ghost predicate AllRowsRead(read: Reader, texts: seq<Tokens>, spans: seq<Span>, rows: seq<Row>)
  {
    forall k :: 0 <= k < |spans| && spans[k].start <= spans[k].end <= |texts| ==> RowsRead(read, texts, spans, k, rows)
  }

  /** Tokenises up front; the first text that cannot be tokenised, or is longer than the
      context, refuses the whole batch. */
  method TokenizeAll(c: Config, tokenize: string -> Outcome<Tokens>, texts: seq<string>)
    returns (r: Outcome<seq<Tokens>>)
    ensures r.Ok? <==> forall i :: 0 <= i < |texts| ==> Acceptable(c, tokenize, texts[i])
    ensures r.Ok? ==> AllFit(c, r.value) && |r.value| == |texts|
    ensures r.Ok? ==> forall i :: 0 <= i < |texts| ==> tokenize(texts[i]) == Ok(r.value[i])
    ensures r.Err? ==> exists i: nat :: Refused(c, tokenize, texts, i, r.error)
  {
    var tokenized: seq<Tokens>, i := [], 0;
    while i < |texts|
      invariant 0 <= i <= |texts| && |tokenized| == i && AllFit(c, tokenized)
      invariant forall j :: 0 <= j < i ==> Acceptable(c, tokenize, texts[j]) && tokenize(texts[j]) == Ok(tokenized[j])
    {
      var got := tokenize(texts[i]);
      if got.Err? || |got.value| > c.nCtx {
        var error := if got.Err? then got.error else InputTooLong(|got.value|, c.nCtx, Some(i));
        assert Refused(c, tokenize, texts, i, error);
        return Err(error);
      }
      tokenized, i := tokenized + [got.value], i + 1;
    }
    r := Ok(tokenized);
  }

  predicate Acceptable(c: Config, tokenize: string -> Outcome<Tokens>, text: string)
  {
    tokenize(text).Ok? && |tokenize(text).value| <= c.nCtx
  }

  /** Text `i` is the first that cannot be embedded, and the error says why: what the tokenizer
      said, or how long the text is, and which one. */
  ghost predicate Refused(c: Config, tokenize: string -> Outcome<Tokens>, texts: seq<string>, i: nat, error: Failure)
  {
    && i < |texts| && (forall j :: 0 <= j < i ==> Acceptable(c, tokenize, texts[j]))
    && match tokenize(texts[i])
       case Err(why) => error == why
       case Ok(tokens) => |tokens| > c.nCtx && error == InputTooLong(|tokens|, c.nCtx, Some(i))
  }

  /** One encoder call and the rows of its chunk. Every call meets the encoder's condition. */
  method DecodeChunk(c: Config, encode: Encoder, read: Reader, texts: seq<Tokens>, k: nat, span: Span)
      returns (r: Outcome<seq<Row>>)
    requires Safe(c) && span.start < span.end <= |texts|
    requires span.end - span.start <= c.seqMax && Total(texts, span.start, span.end) <= c.nUbatch
    ensures r.Ok? ==> encode(k, Chunk(texts, span)) == None && |r.value| == span.end - span.start
    ensures r.Ok? ==> forall p :: 0 <= p < |r.value| ==> read(k, Chunk(texts, span), p) == Ok(r.value[p])
    ensures r.Err? ==> DecodeFails(encode, read, k, Chunk(texts, span), r.error)
  {
    var chunk := Chunk(texts, span);
    var failed := encode(k, chunk);
    if failed.Some? { return Err(Backend(failed.value)); }
    var rows, p := [], 0;
    while p < |chunk|
      invariant 0 <= p <= |chunk| && |rows| == p
      invariant forall j :: 0 <= j < p ==> read(k, chunk, j) == Ok(rows[j])
    {
      var got := read(k, chunk, p);
      if got.Err? { return Err(got.error); }
      rows, p := rows + [got.value], p + 1;
    }
    r := Ok(rows);
  }

  ghost predicate DecodeFails(encode: Encoder, read: Reader, k: nat, chunk: seq<Tokens>, error: Failure)
  {
    match encode(k, chunk)
    case Some(what) => error == Backend(what)
    case None => exists p: nat :: p < |chunk| && read(k, chunk, p) == Err(error)
  }

  /** Embeds a batch on one context. `spans` are the chunks that were sent to the encoder. */
  method Embed(c: Config, tokenize: string -> Outcome<Tokens>, encode: Encoder, read: Reader, texts: seq<string>)
      returns (r: Outcome<seq<Row>>, tokenized: seq<Tokens>, spans: seq<Span>)
    requires Safe(c)
    ensures (exists i :: 0 <= i < |texts| && !Acceptable(c, tokenize, texts[i])) ==>
      && spans == [] && r.Err?
      && exists i: nat :: Refused(c, tokenize, texts, i, r.error)
    ensures (forall i :: 0 <= i < |texts| ==> Acceptable(c, tokenize, texts[i])) ==>
      && |tokenized| == |texts| && AllFit(c, tokenized)
      && (forall i :: 0 <= i < |texts| ==> tokenize(texts[i]) == Ok(tokenized[i]))
    ensures r.Ok? ==> |r.value| == |texts| == |tokenized| && PackedTo(c, tokenized, spans, |texts|)
    ensures r.Ok? ==> AllRowsRead(read, tokenized, spans, r.value)
    ensures r.Err? && (forall i :: 0 <= i < |texts| ==> Acceptable(c, tokenize, texts[i])) ==>
      && spans != []
      && PackedTo(c, tokenized, spans, spans[|spans| - 1].end)
      && DecodeFails(encode, read, |spans| - 1, Chunk(tokenized, spans[|spans| - 1]), r.error)
  {
    tokenized, spans := [], [];
    var checked := TokenizeAll(c, tokenize, texts);
    if checked.Err? { return Err(checked.error), [], []; }
    tokenized := checked.value;
    var out: seq<Row>, idx := [], 0;
    while idx < |tokenized|
      invariant PackedTo(c, tokenized, spans, idx) && |out| == idx
      invariant AllRowsRead(read, tokenized, spans, out)
    {
      var end := PackChunk(c, tokenized, idx);
      ChunkIsSafe(c, tokenized, idx, end);
      var span := Span(idx, end);
      PackedOneMore(c, tokenized, spans, span);
      var rows := DecodeChunk(c, encode, read, tokenized, |spans|, span);
      if rows.Err? { return Err(rows.error), tokenized, spans + [span]; }
      ReadOneMore(c, read, tokenized, spans, span, out, rows.value);
      spans, out, idx := spans + [span], out + rows.value, end;
    }
    r := Ok(out);
  }

  lemma PackedOneMore(c: Config, texts: seq<Tokens>, spans: seq<Span>, span: Span)
    requires PackedTo(c, texts, spans, span.start) && Greedy(c, texts, span.start, span.end)
    ensures PackedTo(c, texts, spans + [span], span.end)
  {}

  lemma {:induction false} SpansEndBefore(c: Config, texts: seq<Tokens>, spans: seq<Span>, next: nat, k: nat)
    requires PackedTo(c, texts, spans, next) && k < |spans|
    ensures spans[k].start < spans[k].end <= next
    decreases |spans| - k
  {
    if k + 1 < |spans| { SpansEndBefore(c, texts, spans, next, k + 1); }
  }

  lemma ReadOneMore(c: Config, read: Reader, texts: seq<Tokens>, spans: seq<Span>, span: Span, out: seq<Row>,
                    rows: seq<Row>)
    requires PackedTo(c, texts, spans, span.start) && Greedy(c, texts, span.start, span.end)
    requires |out| == span.start && |rows| == span.end - span.start && AllRowsRead(read, texts, spans, out)
    requires forall p :: 0 <= p < |rows| ==> read(|spans|, Chunk(texts, span), p) == Ok(rows[p])
    ensures AllRowsRead(read, texts, spans + [span], out + rows)
  {
    forall k | 0 <= k < |spans| + 1 && (spans + [span])[k].start <= (spans + [span])[k].end <= |texts|
      ensures RowsRead(read, texts, spans + [span], k, out + rows) {
      if k < |spans| {
        SpansEndBefore(c, texts, spans, span.start, k);
        assert RowsRead(read, texts, spans, k, out);
      }
    }
  }

  // ---------------------------------------------------------------- there is one packing

  lemma {:induction false} SpansAgree(c: Config, texts: seq<Tokens>, a: seq<Span>, b: seq<Span>, next: nat, k: nat)
    requires PackedTo(c, texts, a, next) && PackedTo(c, texts, b, next) && k < |a| && k < |b|
    ensures a[k] == b[k]
  {
    if k > 0 {
      SpansAgree(c, texts, a, b, next, k - 1);
      assert a[k - 1].end == a[k].start && b[k - 1].end == b[k].start;
    }
    GreedyIsUnique(c, texts, a[k].start, a[k].end, b[k].end);
  }

  lemma NoFewerSpans(c: Config, texts: seq<Tokens>, a: seq<Span>, b: seq<Span>, next: nat)
    requires PackedTo(c, texts, a, next) && PackedTo(c, texts, b, next)
    ensures |a| >= |b|
  {
    if |a| < |b| {
      if a != [] { SpansAgree(c, texts, a, b, next, |a| - 1); }
      SpansEndBefore(c, texts, b, next, |a|);
    }
  }

  /** The texts and the configuration determine the chunks. */
  lemma PackingIsUnique(c: Config, texts: seq<Tokens>, a: seq<Span>, b: seq<Span>, next: nat)
    requires PackedTo(c, texts, a, next) && PackedTo(c, texts, b, next)
    ensures a == b
  {
    NoFewerSpans(c, texts, a, b, next);
    NoFewerSpans(c, texts, b, a, next);
    forall k | 0 <= k < |a| ensures a[k] == b[k] {
      SpansAgree(c, texts, a, b, next, k);
    }
  }

  /** Where the chunk that text `i` falls in opens. */
  function OpenedAt(c: Config, texts: seq<Tokens>, i: nat): (s: nat)
    requires i < |texts|
    ensures s <= i
  {
    if i == 0 then 0
    else
      var s := OpenedAt(c, texts, i - 1);
      if Closes(c, texts, s, i) then i else s
  }

  lemma {:induction false} ChunkOpensThere(c: Config, texts: seq<Tokens>, spans: seq<Span>, next: nat, k: nat, i: nat)
    requires PackedTo(c, texts, spans, next) && k < |spans| && spans[k].start <= i < spans[k].end <= |texts|
    ensures spans[k].start == OpenedAt(c, texts, i)
    decreases i
  {
    var span := spans[k];
    assert Greedy(c, texts, span.start, span.end);
    if span.start < i {
      ChunkOpensThere(c, texts, spans, next, k, i - 1);
    } else if k > 0 {
      assert spans[k - 1].end == i && Greedy(c, texts, spans[k - 1].start, i);
      ChunkOpensThere(c, texts, spans, next, k - 1, i - 1);
    }
  }

  /** Text `i` has an encoder call to itself. */
  ghost predicate Alone(spans: seq<Span>, i: nat)
  {
    exists k :: 0 <= k < |spans| && spans[k] == Span(i, i + 1)
  }

  /** A text longer than a sequence's share is encoded alone exactly when it is the first of
      the batch, or the chunk of the text before it must close in front of it. */
  lemma LongTextAloneIff(c: Config, texts: seq<Tokens>, spans: seq<Span>, i: nat)
    requires Safe(c) && PackedTo(c, texts, spans, |texts|) && i < |texts| && Weight(texts[i]) > PerSequence(c)
    ensures Alone(spans, i) <==> i == 0 || Closes(c, texts, OpenedAt(c, texts, i - 1), i)
  {
    var k := FindSpan(c, texts, spans, |texts|, i);
    assert Greedy(c, texts, spans[k].start, spans[k].end);
    ChunkOpensThere(c, texts, spans, |texts|, k, i);
    LongTextAloneInChunkIff(c, texts, spans[k].start, spans[k].end, i);
    if Alone(spans, i) {
      var j :| 0 <= j < |spans| && spans[j] == Span(i, i + 1);
      assert j == k;
    }
  }

  /** So it need not be: behind one short text, with room in the context, a long one never is. */
  lemma LongTextMayShare(c: Config, texts: seq<Tokens>, spans: seq<Span>)
    requires Safe(c) && c.seqMax >= 2 && |texts| >= 2 && PackedTo(c, texts, spans, |texts|)
    requires Weight(texts[0]) <= PerSequence(c) < Weight(texts[1]) && Weight(texts[0]) + Weight(texts[1]) <= c.nCtx
    ensures !Alone(spans, 1)
  {
    assert Weights(texts, 0, 0) == 0 && Weights(texts, 0, 1) == Weight(texts[0]);
    LongTextAloneIff(c, texts, spans, 1);
  }

  // ---------------------------------------------------------------- what a packing means

  /** Every text is in exactly one chunk, and its row is the one the encoder gave for its
      own tokens at its own place in that chunk. */
  lemma {:induction false} RowBelongsToText(c: Config, read: Reader, texts: seq<Tokens>, spans: seq<Span>, next: nat,
                                            rows: seq<Row>, i: nat) returns (k: nat, p: nat)
    requires PackedTo(c, texts, spans, next) && AllRowsRead(read, texts, spans, rows) && i < next <= |rows|
    ensures k < |spans| && spans[k].start <= i < spans[k].end <= |texts| && p == i - spans[k].start
    ensures Chunk(texts, spans[k])[p] == texts[i]
    ensures read(k, Chunk(texts, spans[k]), p) == Ok(rows[i])
    ensures forall k' :: 0 <= k' < |spans| && spans[k'].start <= i < spans[k'].end ==> k' == k
  {
    k := FindSpan(c, texts, spans, next, i);
    p := i - spans[k].start;
    assert Greedy(c, texts, spans[k].start, spans[k].end);
    assert RowsRead(read, texts, spans, k, rows);
  }

  lemma {:induction false} FindSpan(c: Config, texts: seq<Tokens>, spans: seq<Span>, next: nat, i: nat) returns (k: nat)
    requires PackedTo(c, texts, spans, next) && i < next
    ensures k < |spans| && spans[k].start <= i < spans[k].end
    ensures forall k' :: 0 <= k' < |spans| && spans[k'].start <= i < spans[k'].end ==> k' == k
  {
    var init, last := spans[..|spans| - 1], spans[|spans| - 1];
    assert PackedTo(c, texts, init, last.start);
    if i >= last.start {
      k := |spans| - 1;
      forall k' | 0 <= k' < |spans| - 1 ensures spans[k'].end <= i {
        SpansEndBefore(c, texts, init, last.start, k');
      }
    } else {
      k := FindSpan(c, texts, init, last.start, i);
    }
  }

  /** From any constructor arguments: every call the encoder gets holds at least one and at
      most `seqMax` sequences, and no more tokens than its physical batch. */
  lemma EveryCallIsSafe(streams: nat, nCtx: nat, seqMax: nat, nBatch: nat, nUbatch: nat, texts: seq<Tokens>,
                        spans: seq<Span>, next: nat, k: nat)
    requires var c := WithFloors(streams, nCtx, seqMax, nBatch, nUbatch);
             AllFit(c, texts) && PackedTo(c, texts, spans, next) && k < |spans|
    ensures var c := WithFloors(streams, nCtx, seqMax, nBatch, nUbatch);
            && spans[k].start < spans[k].end <= |texts| && spans[k].end - spans[k].start <= c.seqMax
            && Total(texts, spans[k].start, spans[k].end) <= c.nCtx <= c.nUbatch <= c.nBatch
  {
    ChunkIsSafe(WithFloors(streams, nCtx, seqMax, nBatch, nUbatch), texts, spans[k].start, spans[k].end);
  }
}
