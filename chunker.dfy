/** `chunk_text`: split a text on whitespace and yield overlapping windows of
    `window` tokens, the start advancing by `window - overlap` tokens until it
    reaches the number of tokens. */
module Chunker {
  import opened Text

  const DefaultWindow: nat := 250
  const DefaultOverlap: nat := 50

  /** How far the start index advances between two chunks. */
  function Stride(window: nat, overlap: nat): nat
    requires overlap < window
  {
    window - overlap
  }

  /** `k` strides from the beginning: `k * stride`, written as the loop
      reaches it, one addition per iteration. */
  function Offset(k: nat, stride: nat): nat {
    if k == 0 then 0 else Offset(k - 1, stride) + stride
  }

  lemma {:induction false} OffsetIsProduct(k: nat, stride: nat)
    ensures Offset(k, stride) == k * stride
  {
    if k > 0 {
      OffsetIsProduct(k - 1, stride);
      assert k * stride == (k - 1) * stride + stride;
    }
  }

  /** Offsets grow strictly with `k` for a positive stride. */
  lemma {:induction false} OffsetMonotone(a: nat, b: nat, stride: nat)
    requires stride > 0
    requires a < b
    ensures Offset(a, stride) + stride <= Offset(b, stride)
  {
    if a + 1 < b {
      OffsetMonotone(a, b - 1, stride);
    }
  }

  /** The number of chunks for `n` tokens, `ceil(n / stride)`: the fewest
      strides that reach `n`. */
  function ChunkCount(n: nat, stride: nat): (c: nat)
    requires stride > 0
    ensures n <= Offset(c, stride)
    ensures c == 0 || Offset(c - 1, stride) < n
  {
    var c := (n + stride - 1) / stride;
    OffsetIsProduct(c, stride);
    assert n + stride - 1 == c * stride + (n + stride - 1) % stride;
    if c == 0 then c
    else
      OffsetIsProduct(c - 1, stride);
      assert (c - 1) * stride == c * stride - stride;
      c
  }

  /** Chunk `k` exists exactly when its start index is below the token count. */
  lemma ChunkExists(n: nat, stride: nat, k: nat)
    requires stride > 0
    ensures k < ChunkCount(n, stride) <==> Offset(k, stride) < n
  {
    var c := ChunkCount(n, stride);
    if k + 1 < c {
      OffsetMonotone(k, c - 1, stride);
    } else if c < k {
      OffsetMonotone(c, k, stride);
    }
  }

  /** The ceiling is the only count with the two bounds of `ChunkCount`. */
  lemma ChunkCountUnique(n: nat, stride: nat, c: nat)
    requires stride > 0
    requires n <= Offset(c, stride)
    requires c == 0 || Offset(c - 1, stride) < n
    ensures c == ChunkCount(n, stride)
  {
    ChunkExists(n, stride, c);
    if c > 0 {
      ChunkExists(n, stride, c - 1);
    }
  }

  /** Index of the first token of chunk `k`. */
  function ChunkStart(window: nat, overlap: nat, k: nat): nat
    requires overlap < window
  {
    Offset(k, Stride(window, overlap))
  }

  /** One past the index of the last token of chunk `k`: Python's slice end,
      cut at the number of tokens `n`. */
  function ChunkEnd(n: nat, window: nat, overlap: nat, k: nat): nat
    requires overlap < window
  {
    var e := ChunkStart(window, overlap, k) + window;
    if e < n then e else n
  }

  /** The tokens of chunk `k`, `tokens[k*stride : k*stride + window]`. */
  function ChunkTokens(tokens: seq<string>, window: nat, overlap: nat, k: nat): (ts: seq<string>)
    requires overlap < window
    requires k < ChunkCount(|tokens|, Stride(window, overlap))
    ensures ChunkStart(window, overlap, k) < ChunkEnd(|tokens|, window, overlap, k)
    ensures |ts| == ChunkEnd(|tokens|, window, overlap, k) - ChunkStart(window, overlap, k)
    ensures forall i :: 0 <= i < |ts| ==> ts[i] == tokens[ChunkStart(window, overlap, k) + i]
  {
    ChunkExists(|tokens|, Stride(window, overlap), k);
    tokens[ChunkStart(window, overlap, k)..ChunkEnd(|tokens|, window, overlap, k)]
  }

  /** The text yielded for chunk `k`: its tokens joined by single spaces. */
  function ChunkAt(text: string, window: nat, overlap: nat, k: nat): string
    requires overlap < window
    requires k < ChunkCount(|Split(text)|, Stride(window, overlap))
  {
    Join(ChunkTokens(Split(text), window, overlap, k))
  }

  /** The generator, run to completion: the chunks in the order they are yielded. */
  method ChunkText(text: string, window: nat, overlap: nat) returns (chunks: seq<string>)
    requires overlap < window
    ensures |chunks| == ChunkCount(|Split(text)|, Stride(window, overlap))
    ensures forall k :: 0 <= k < |chunks| ==> chunks[k] == ChunkAt(text, window, overlap, k)
  {
    var tokens := Split(text);
    var stride := window - overlap;
    chunks := [];
    var i := 0;
    while i < |tokens|
      invariant i == Offset(|chunks|, stride)
      invariant |chunks| == 0 || Offset(|chunks| - 1, stride) < |tokens|
      invariant forall k :: 0 <= k < |chunks| ==>
        k < ChunkCount(|tokens|, stride) && chunks[k] == ChunkAt(text, window, overlap, k)
    {
      ChunkExists(|tokens|, stride, |chunks|);
      var end := if i + window < |tokens| then i + window else |tokens|;
      chunks := chunks + [Join(tokens[i..end])];
      i := i + stride;
    }
    ChunkCountUnique(|tokens|, stride, |chunks|);
  }

  /** Every chunk holds between 1 and `window` tokens, exactly `window` when
      the window fits inside the text; chunk start indices strictly increase. */
  lemma ChunkSize(tokens: seq<string>, window: nat, overlap: nat, k: nat)
    requires overlap < window
    requires k < ChunkCount(|tokens|, Stride(window, overlap))
    ensures 1 <= |ChunkTokens(tokens, window, overlap, k)| <= window
    ensures |ChunkTokens(tokens, window, overlap, k)| == window
        <==> ChunkStart(window, overlap, k) + window <= |tokens|
    ensures ChunkStart(window, overlap, k) < ChunkStart(window, overlap, k + 1)
  {
  }

  /** The chunk that covers token `j`: every token lies in some chunk, at the
      position its index says. */
  function CoveringChunk(tokens: seq<string>, window: nat, overlap: nat, j: nat): (k: nat)
    requires overlap < window
    requires j < |tokens|
    ensures k < ChunkCount(|tokens|, Stride(window, overlap))
    ensures ChunkStart(window, overlap, k) <= j < ChunkEnd(|tokens|, window, overlap, k)
    ensures ChunkTokens(tokens, window, overlap, k)[j - ChunkStart(window, overlap, k)] == tokens[j]
  {
    var stride := Stride(window, overlap);
    var k := j / stride;
    assert Offset(k, stride) <= j < Offset(k, stride) + stride by {
      OffsetIsProduct(k, stride);
    }
    ChunkExists(|tokens|, stride, k);
    k
  }

  /** Chunks `k` and `k + 1` share exactly the tokens from the start of chunk
      `k + 1` to the end of chunk `k`: `min(overlap, n - (k+1)*stride)` of
      them, which is `overlap` whenever chunk `k` is full. */
  lemma ConsecutiveOverlap(tokens: seq<string>, window: nat, overlap: nat, k: nat)
    requires overlap < window
    requires k + 1 < ChunkCount(|tokens|, Stride(window, overlap))
    ensures ChunkStart(window, overlap, k) < ChunkStart(window, overlap, k + 1) < |tokens|
    ensures ChunkEnd(|tokens|, window, overlap, k) <= ChunkEnd(|tokens|, window, overlap, k + 1)
    ensures var n, next := |tokens|, ChunkStart(window, overlap, k + 1);
      ChunkEnd(n, window, overlap, k) - next == (if overlap < n - next then overlap else n - next)
    ensures ChunkStart(window, overlap, k) + window <= |tokens| ==>
      ChunkEnd(|tokens|, window, overlap, k) - ChunkStart(window, overlap, k + 1) == overlap
    ensures var next := ChunkStart(window, overlap, k + 1);
      ChunkTokens(tokens, window, overlap, k)[next - ChunkStart(window, overlap, k)..]
        == ChunkTokens(tokens, window, overlap, k + 1)[..ChunkEnd(|tokens|, window, overlap, k) - next]
  {
    var n := |tokens|;
    var s0, s1 := ChunkStart(window, overlap, k), ChunkStart(window, overlap, k + 1);
    assert s1 < n by {
      ChunkExists(n, Stride(window, overlap), k + 1);
    }
    SliceOverlap(tokens, s0, ChunkEnd(n, window, overlap, k), s1, ChunkEnd(n, window, overlap, k + 1));
  }

  /** The tail of one slice from `c` on is the head of a later slice starting at `c`. */
  lemma SliceOverlap(tokens: seq<string>, a: nat, b: nat, c: nat, d: nat)
    requires a <= c <= b <= d <= |tokens|
    ensures tokens[a..b][c - a..] == tokens[c..d][..b - c]
  {
  }

  /** When at most `overlap` tokens remain after the start of chunk `k + 1`,
      that chunk is the tail of chunk `k` and adds no new token. */
  lemma TailInsidePredecessor(tokens: seq<string>, window: nat, overlap: nat, k: nat)
    requires overlap < window
    requires k + 1 < ChunkCount(|tokens|, Stride(window, overlap))
    requires |tokens| - ChunkStart(window, overlap, k + 1) <= overlap
    ensures ChunkStart(window, overlap, k + 1) == ChunkStart(window, overlap, k) + Stride(window, overlap) < |tokens|
    ensures ChunkEnd(|tokens|, window, overlap, k) == ChunkEnd(|tokens|, window, overlap, k + 1) == |tokens|
    ensures ChunkTokens(tokens, window, overlap, k + 1)
      == ChunkTokens(tokens, window, overlap, k)[Stride(window, overlap)..]
  {
    ChunkExists(|tokens|, Stride(window, overlap), k + 1);
  }

  /** With 240 tokens and the default window and overlap there are two chunks,
      and the second lies wholly inside the first. */
  lemma ShortTailExample(tokens: seq<string>)
    requires |tokens| == 240
    ensures ChunkCount(|tokens|, Stride(DefaultWindow, DefaultOverlap)) == 2
    ensures ChunkTokens(tokens, DefaultWindow, DefaultOverlap, 0) == tokens
    ensures ChunkTokens(tokens, DefaultWindow, DefaultOverlap, 1) == tokens[200..]
  {
    ChunkCountUnique(240, 200, 2);
  }

  /** With 300 tokens and the default window and overlap: chunk 0 is
      `tokens[0:250]`, chunk 1 is `tokens[200:300]`, and there is no third. */
  lemma ThreeHundredTokensExample(tokens: seq<string>)
    requires |tokens| == 300
    ensures ChunkCount(|tokens|, Stride(DefaultWindow, DefaultOverlap)) == 2
    ensures ChunkTokens(tokens, DefaultWindow, DefaultOverlap, 0) == tokens[..250]
    ensures ChunkTokens(tokens, DefaultWindow, DefaultOverlap, 1) == tokens[200..]
  {
    ChunkCountUnique(300, 200, 2);
  }

  /** Splitting a yielded chunk on whitespace gives back exactly its tokens. */
  lemma SplitChunk(text: string, window: nat, overlap: nat, k: nat)
    requires overlap < window
    requires k < ChunkCount(|Split(text)|, Stride(window, overlap))
    ensures Split(ChunkAt(text, window, overlap, k)) == ChunkTokens(Split(text), window, overlap, k)
  {
    var ts := ChunkTokens(Split(text), window, overlap, k);
    assert forall m :: 0 <= m < |ts| ==> IsWord(ts[m]);
    SplitJoin(ts);
  }

  /** A text without tokens yields no chunk. */
  lemma {:induction false} NoTokensNoChunks(text: string, window: nat, overlap: nat)
    requires overlap < window
    requires forall i :: 0 <= i < |text| ==> IsSpace(text[i])
    ensures ChunkCount(|Split(text)|, Stride(window, overlap)) == 0
  {
    SplitSkipsSpaces(text, |text|);
  }

  /** The loop index `i` of `chunk_text` as written, after `steps` passes:
      it starts at 0 and each pass adds `window - overlap`, with no check
      that this step is positive. */
  function IndexAfter(steps: nat, window: int, overlap: int): int {
    if steps == 0 then 0 else IndexAfter(steps - 1, window, overlap) + (window - overlap)
  }

  /** When `overlap >= window` the index never rises above 0, so on a text
      with at least one token the loop condition `i < len(tokens)` holds
      after every pass and the generator never finishes. */
  lemma {:induction false} StalledWithoutProgress(n: nat, window: int, overlap: int, steps: nat)
    requires overlap >= window
    requires n > 0
    ensures IndexAfter(steps, window, overlap) <= 0 < n
  {
    if steps > 0 {
      StalledWithoutProgress(n, window, overlap, steps - 1);
    }
  }

  /** With a positive step the same index is the chunk start `Offset`. */
  lemma {:induction false} IndexAfterIsOffset(steps: nat, window: nat, overlap: nat)
    requires overlap < window
    ensures IndexAfter(steps, window, overlap) == Offset(steps, Stride(window, overlap))
  {
    if steps > 0 {
      IndexAfterIsOffset(steps - 1, window, overlap);
    }
  }
}
