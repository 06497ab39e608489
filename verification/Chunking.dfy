/** Splitting an article into overlapping chunks for search loses no text and cuts no short phrase everywhere. */
module Chunking {
  import JsText

  function Min(a: nat, b: nat): nat {
    if a < b then a else b
  }

  /** Chunk k is the stretch of the text from starts[k] on; each next chunk begins overlap characters before the end of the last. */
  ghost predicate IsChunking(text: string, chunks: seq<string>, starts: seq<nat>, size: nat, overlap: nat) {
    && |starts| == |chunks| > 0
    && starts[0] == 0
    && (forall k :: 0 <= k < |starts| ==> starts[k] < |text| && chunks[k] == text[starts[k]..Min(starts[k] + size, |text|)])
    && (forall k :: 0 <= k < |starts| - 1 ==> starts[k] + size < |text| && starts[k + 1] == starts[k] + size - overlap)
    && starts[|starts| - 1] + size >= |text|
  }

  /** The chunks taken so far leave the next one to begin at start. */
  ghost predicate Partway(text: string, chunks: seq<string>, starts: seq<nat>, start: nat, size: nat, overlap: nat) {
    && |starts| == |chunks| && start < |text|
    && (starts == [] ==> start == 0)
    && (starts != [] ==> starts[0] == 0 && start == starts[|starts| - 1] + size - overlap)
    && (forall k :: 0 <= k < |starts| ==> starts[k] + size < |text| && chunks[k] == text[starts[k]..Min(starts[k] + size, |text|)])
    && (forall k :: 0 <= k < |starts| - 1 ==> starts[k + 1] == starts[k] + size - overlap)
  }

  /** A chunk that reaches the end of the text is the last. */
  lemma LastChunk(text: string, chunks: seq<string>, starts: seq<nat>, start: nat, size: nat, overlap: nat)
    requires overlap < size && Partway(text, chunks, starts, start, size, overlap) && start + size >= |text|
    ensures IsChunking(text, chunks + [text[start..Min(start + size, |text|)]], starts + [start], size, overlap)
  {
    var s := starts + [start];
    assert forall k :: 0 <= k < |starts| ==> s[k] == starts[k];
    forall k | 0 <= k < |s| - 1 ensures s[k + 1] == s[k] + size - overlap {
      if k + 1 < |starts| { assert s[k + 1] == starts[k + 1]; }
    }
  }

  /** After any other chunk there are more to come. */
  lemma NextChunk(text: string, chunks: seq<string>, starts: seq<nat>, start: nat, size: nat, overlap: nat)
    requires overlap < size && Partway(text, chunks, starts, start, size, overlap) && start + size < |text|
    ensures Partway(text, chunks + [text[start..start + size]], starts + [start], start + size - overlap, size, overlap)
  {
    var s := starts + [start];
    assert forall k :: 0 <= k < |starts| ==> s[k] == starts[k];
    forall k | 0 <= k < |s| - 1 ensures s[k + 1] == s[k] + size - overlap {
      if k + 1 < |starts| { assert s[k + 1] == starts[k + 1]; }
    }
  }

  method ChunkBody(body: string, chunkSize: nat, overlap: nat) returns (chunks: seq<string>, ghost starts: seq<nat>)
    requires overlap < chunkSize
    ensures JsText.Trim(body) == [] ==> chunks == []
    ensures JsText.Trim(body) != [] ==> IsChunking(JsText.Trim(body), chunks, starts, chunkSize, overlap)
  {
    var trimmed := JsText.Trim(body);
    chunks, starts := [], [];
    if trimmed == [] { return; }
    if |trimmed| <= chunkSize {
      assert trimmed[0..|trimmed|] == trimmed;
      return [trimmed], [0];
    }
    var start := 0;
    while start < |trimmed|
      invariant Partway(trimmed, chunks, starts, start, chunkSize, overlap)
      decreases |trimmed| - start
    {
      var end := Min(start + chunkSize, |trimmed|);
      if end < |trimmed| {
        NextChunk(trimmed, chunks, starts, start, chunkSize, overlap);
      } else {
        LastChunk(trimmed, chunks, starts, start, chunkSize, overlap);
      }
      chunks, starts := chunks + [trimmed[start..end]], starts + [start];
      if end >= |trimmed| { break; }
      start := if end < overlap then 0 else end - overlap;
    }
  }

  /** The step from one chunk to the next moves forward exactly when the overlap is smaller than the chunk. */
  lemma AdvancesExactlyBelowChunkSize(start: nat, size: nat, overlap: nat)
    ensures var next := if start + size < overlap then 0 else start + size - overlap;
            next > start <==> overlap < size
  {
  }

  // ---- What a chunking keeps ----

  /** Every chunk is non-empty and no longer than asked. */
  lemma ChunksFit(text: string, chunks: seq<string>, starts: seq<nat>, size: nat, overlap: nat)
    requires overlap < size && IsChunking(text, chunks, starts, size, overlap)
    ensures forall k :: 0 <= k < |chunks| ==> 0 < |chunks[k]| <= size
    ensures forall k :: 0 < k < |chunks| ==> |chunks[k]| > overlap
  {
    forall k | 0 < k < |chunks| ensures |chunks[k]| > overlap {
      assert starts[(k - 1) + 1] == starts[k - 1] + size - overlap;
    }
  }

  /** The first n chunks glued together, each later one without its first overlap characters. */
  function Glue(chunks: seq<string>, overlap: nat, n: nat): string
    requires n <= |chunks| && forall k :: 0 < k < |chunks| ==> |chunks[k]| >= overlap
  {
    if n == 0 then []
    else if n == 1 then chunks[0]
    else Glue(chunks, overlap, n - 1) + chunks[n - 1][overlap..]
  }

  lemma {:induction false} GlueReaches(text: string, chunks: seq<string>, starts: seq<nat>, size: nat, overlap: nat, n: nat)
    requires overlap < size && IsChunking(text, chunks, starts, size, overlap) && 0 < n <= |chunks|
    requires forall k :: 0 < k < |chunks| ==> |chunks[k]| >= overlap
    ensures Glue(chunks, overlap, n) == text[..Min(starts[n - 1] + size, |text|)]
    decreases n
  {
    if n > 1 {
      GlueReaches(text, chunks, starts, size, overlap, n - 1);
      assert starts[(n - 2) + 1] == starts[n - 2] + size - overlap;
      var s, e := starts[n - 1], Min(starts[n - 1] + size, |text|);
      assert chunks[n - 1][overlap..] == text[s + overlap..e];
      assert text[..s + overlap] + text[s + overlap..e] == text[..e];
    }
  }

  /** Dropping the overlap of every later chunk rebuilds the whole text. */
  lemma ChunksRebuildText(text: string, chunks: seq<string>, starts: seq<nat>, size: nat, overlap: nat)
    requires overlap < size && IsChunking(text, chunks, starts, size, overlap)
    ensures (forall k :: 0 < k < |chunks| ==> |chunks[k]| >= overlap) && Glue(chunks, overlap, |chunks|) == text
  {
    ChunksFit(text, chunks, starts, size, overlap);
    GlueReaches(text, chunks, starts, size, overlap, |chunks|);
  }

  predicate Contains(chunk: string, phrase: string) {
    exists j :: 0 <= j <= |chunk| && phrase <= chunk[j..]
  }

  /** The last chunk that starts at or before a position. */
  lemma {:induction false} LastStart(starts: seq<nat>, i: nat, n: nat) returns (k: nat)
    requires 0 < n <= |starts| && starts[0] <= i
    ensures k < n && starts[k] <= i && (k + 1 < n ==> starts[k + 1] > i)
    decreases n
  {
    if starts[n - 1] <= i {
      k := n - 1;
    } else {
      k := LastStart(starts, i, n - 1);
    }
  }

  /** The n characters from position i on lie inside the stretch of some chunk. */
  predicate Survives(chunks: seq<string>, starts: seq<nat>, i: nat, n: nat) {
    exists k :: 0 <= k < |chunks| && k < |starts| && starts[k] <= i && i + n <= starts[k] + |chunks[k]|
  }

  /** A surviving phrase is found in a chunk. */
  lemma SurvivingPhraseIsFound(text: string, chunks: seq<string>, starts: seq<nat>, size: nat, overlap: nat, i: nat, n: nat)
    requires IsChunking(text, chunks, starts, size, overlap) && i + n <= |text| && Survives(chunks, starts, i, n)
    ensures exists k :: 0 <= k < |chunks| && Contains(chunks[k], text[i..i + n])
  {
    var k :| 0 <= k < |chunks| && starts[k] <= i && i + n <= starts[k] + |chunks[k]|;
    var j := i - starts[k];
    ChunkIsStretch(text, chunks, starts, size, overlap, k);
    SliceOfSlice(text, starts[k], |chunks[k]|, j, n);
    ContainsAt(chunks[k], j, text[i..i + n]);
  }

  lemma ChunkIsStretch(text: string, chunks: seq<string>, starts: seq<nat>, size: nat, overlap: nat, k: nat)
    requires IsChunking(text, chunks, starts, size, overlap) && k < |chunks|
    ensures starts[k] + |chunks[k]| <= |text| && chunks[k] == text[starts[k]..starts[k] + |chunks[k]|]
  {
  }

  lemma ContainsAt(chunk: string, j: nat, phrase: string)
    requires j <= |chunk| && phrase <= chunk[j..]
    ensures Contains(chunk, phrase)
  {
  }

  lemma SliceOfSlice(text: string, start: nat, size: nat, j: nat, n: nat)
    requires start + size <= |text| && j + n <= size
    ensures text[start + j..start + j + n] <= text[start..start + size][j..]
  {
    assert text[start..start + size][j..] == text[start + j..start + size];
    assert text[start + j..start + size][..n] == text[start + j..start + j + n];
  }

  lemma {:induction false} LaterStartsAreLater(starts: seq<nat>, step: nat, k: nat)
    requires (forall j :: 0 <= j < |starts| - 1 ==> starts[j + 1] == starts[j] + step) && 0 < k < |starts|
    ensures starts[k] >= starts[0] + step
  {
    assert starts[(k - 1) + 1] == starts[k - 1] + step;
    if k > 1 {
      LaterStartsAreLater(starts, step, k - 1);
    }
  }

  lemma ShortPhraseSurvives(text: string, chunks: seq<string>, starts: seq<nat>, size: nat, overlap: nat, i: nat, n: nat)
    requires overlap < size && IsChunking(text, chunks, starts, size, overlap) && i + n <= |text|
    requires |chunks| == 1 || n <= overlap + 1
    ensures Survives(chunks, starts, i, n)
  {
    var k := LastStart(starts, i, |starts|);
    if k + 1 < |starts| {
      assert starts[k + 1] == starts[k] + size - overlap;
      assert |chunks[k]| == size;
    } else {
      assert |chunks[k]| == |text| - starts[k];
    }
    assert starts[k] <= i && i + n <= starts[k] + |chunks[k]|;
  }

  /** The window that the first chunk cuts off and the later ones begin behind. */
  function CutAt(text: string, size: nat, overlap: nat, n: nat): nat
    requires overlap < size && n <= |text|
  {
    Min(size - overlap - 1, |text| - n)
  }

  lemma LongPhraseIsCut(text: string, chunks: seq<string>, starts: seq<nat>, size: nat, overlap: nat, n: nat)
    requires overlap < size && IsChunking(text, chunks, starts, size, overlap)
    requires |chunks| > 1 && overlap + 1 < n <= |text|
    ensures !Survives(chunks, starts, CutAt(text, size, overlap, n), n)
  {
    var i := CutAt(text, size, overlap, n);
    forall k | 0 <= k < |chunks| ensures starts[k] > i || i + n > starts[k] + |chunks[k]| {
      if k > 0 { LaterStartsAreLater(starts, size - overlap, k); }
    }
  }

  /** Every phrase of n characters survives, wherever it stands, exactly when there is one chunk or n is at most overlap + 1. */
  lemma PhrasesSurviveExactly(text: string, chunks: seq<string>, starts: seq<nat>, size: nat, overlap: nat, n: nat)
    requires overlap < size && IsChunking(text, chunks, starts, size, overlap) && n <= |text|
    ensures (forall i: nat :: i + n <= |text| ==> Survives(chunks, starts, i, n)) <==> |chunks| == 1 || n <= overlap + 1
  {
    if |chunks| == 1 || n <= overlap + 1 {
      forall i: nat | i + n <= |text| ensures Survives(chunks, starts, i, n) {
        ShortPhraseSurvives(text, chunks, starts, size, overlap, i, n);
      }
    } else {
      LongPhraseIsCut(text, chunks, starts, size, overlap, n);
      assert CutAt(text, size, overlap, n) + n <= |text|;
    }
  }

  predicate NoCharacterTwice(text: string) {
    forall i, j :: 0 <= i < j < |text| ==> text[i] != text[j]
  }

  /** In a text without repeated characters a phrase is found in a chunk only where it survives. */
  lemma FoundPhraseSurvives(text: string, chunks: seq<string>, starts: seq<nat>, size: nat, overlap: nat, i: nat, n: nat)
    requires IsChunking(text, chunks, starts, size, overlap) && NoCharacterTwice(text) && n > 0 && i + n <= |text|
    requires exists k :: 0 <= k < |chunks| && Contains(chunks[k], text[i..i + n])
    ensures Survives(chunks, starts, i, n)
  {
    var phrase := text[i..i + n];
    var k :| 0 <= k < |chunks| && Contains(chunks[k], phrase);
    var j :| 0 <= j <= |chunks[k]| && phrase <= chunks[k][j..];
    assert text[i] == phrase[0] == chunks[k][j..][0] == chunks[k][j] == text[starts[k] + j];
    assert starts[k] + j == i;
  }

  /** So no search can be promised more: in such a text, cut into two chunks or more, a phrase one character longer is found in none. */
  lemma LongerPhrasesAreLost(text: string, chunks: seq<string>, starts: seq<nat>, size: nat, overlap: nat, n: nat)
    requires overlap < size && IsChunking(text, chunks, starts, size, overlap) && NoCharacterTwice(text)
    requires |chunks| > 1 && overlap + 1 < n <= |text|
    ensures var i := CutAt(text, size, overlap, n); forall k :: 0 <= k < |chunks| ==> !Contains(chunks[k], text[i..i + n])
  {
    var i := CutAt(text, size, overlap, n);
    LongPhraseIsCut(text, chunks, starts, size, overlap, n);
    if exists k :: 0 <= k < |chunks| && Contains(chunks[k], text[i..i + n]) {
      FoundPhraseSurvives(text, chunks, starts, size, overlap, i, n);
    }
  }

  /** Every phrase of up to overlap + 1 characters is found whole in some chunk. */
  lemma ShortPhrasesSurvive(text: string, chunks: seq<string>, starts: seq<nat>, size: nat, overlap: nat, i: nat, n: nat)
    requires overlap < size && IsChunking(text, chunks, starts, size, overlap)
    requires i + n <= |text| && n <= overlap + 1
    ensures exists k :: 0 <= k < |chunks| && Contains(chunks[k], text[i..i + n])
  {
    ShortPhraseSurvives(text, chunks, starts, size, overlap, i, n);
    SurvivingPhraseIsFound(text, chunks, starts, size, overlap, i, n);
  }
}
