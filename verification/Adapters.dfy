/** `per_chunk`: a stream filter made of a step with state and an optional flush. */
module Adapters {
  import opened Text

  /** What the filter yields from a state on: an output for each chunk, then the flushed one. */
  function PerChunk<C, S, O>(process: (C, S) -> (O, S), flush: Option<S -> O>, state: S, chunks: seq<C>)
    : (pieces: seq<O>)
    ensures |pieces| == |chunks| + if flush.Some? then 1 else 0
  {
    if chunks == [] then
      if flush.Some? then [flush.value(state)] else []
    else
      var (output, next) := process(chunks[0], state);
      [output] + PerChunk(process, flush, next, chunks[1..])
  }

  function StateAfter<C, S, O>(process: (C, S) -> (O, S), state: S, chunks: seq<C>): S {
    if chunks == [] then state else StateAfter(process, process(chunks[0], state).1, chunks[1..])
  }

  /** What has been yielded depends on the chunks so far, what comes on the state they left. */
  lemma {:induction false} PerChunkSplits<C, S, O>(process: (C, S) -> (O, S), flush: Option<S -> O>, state: S,
                                                   a: seq<C>, b: seq<C>)
    ensures PerChunk(process, flush, state, a + b)
         == PerChunk(process, None, state, a) + PerChunk(process, flush, StateAfter(process, state, a), b)
    ensures StateAfter(process, state, a + b) == StateAfter(process, StateAfter(process, state, a), b)
    decreases a
  {
    if a == [] {
      assert a + b == b;
    } else {
      assert (a + b)[0] == a[0] && (a + b)[1..] == a[1..] + b;
      var (output, next) := process(a[0], state);
      PerChunkSplits(process, flush, next, a[1..], b);
      var later := StateAfter(process, next, a[1..]);
      Assoc([output], PerChunk(process, None, next, a[1..]), PerChunk(process, flush, later, b));
    }
  }

  lemma OneChunk<C, S, O>(process: (C, S) -> (O, S), state: S, chunk: C)
    ensures PerChunk(process, None, state, [chunk]) == [process(chunk, state).0]
    ensures StateAfter(process, state, [chunk]) == process(chunk, state).1
  {
    assert [chunk][1..] == [];
    var (output, next) := process(chunk, state);
    assert PerChunk(process, None, next, []) == [];
  }

  lemma NextChunk<C, S, O>(process: (C, S) -> (O, S), state: S, chunks: seq<C>, n: nat)
    requires n < |chunks|
    ensures var (output, next) := process(chunks[n], StateAfter(process, state, chunks[..n]));
            && PerChunk(process, None, state, chunks[..n + 1]) == PerChunk(process, None, state, chunks[..n]) + [output]
            && StateAfter(process, state, chunks[..n + 1]) == next
  {
    hide PerChunk, StateAfter;
    assert chunks[..n + 1] == chunks[..n] + [chunks[n]];
    PerChunkSplits(process, None, state, chunks[..n], [chunks[n]]);
    OneChunk(process, StateAfter(process, state, chunks[..n]), chunks[n]);
  }

  lemma FlushLast<C, S, O>(process: (C, S) -> (O, S), flush: Option<S -> O>, state: S, chunks: seq<C>)
    ensures PerChunk(process, flush, state, chunks)
         == PerChunk(process, None, state, chunks)
            + if flush.Some? then [flush.value(StateAfter(process, state, chunks))] else []
  {
    assert chunks + [] == chunks;
    PerChunkSplits(process, flush, state, chunks, []);
  }

  /** `stream_filter`: each stream starts from the state it is given. */
  method StreamFilter<C, S, O>(process: (C, S) -> (O, S), flush: Option<S -> O>, state: S, chunks: seq<C>)
    returns (pieces: seq<O>)
    ensures pieces == PerChunk(process, flush, state, chunks)
  {
    hide PerChunk, StateAfter;
    var current := state;
    pieces := [];
    Begins(process, state);
    for n := 0 to |chunks|
      invariant pieces == PerChunk(process, None, state, chunks[..n])
      invariant current == StateAfter(process, state, chunks[..n])
    {
      NextChunk(process, state, chunks, n);
      var (output, next) := process(chunks[n], current);
      pieces, current := pieces + [output], next;
    }
    assert chunks[..|chunks|] == chunks;
    FlushLast(process, flush, state, chunks);
    if flush.Some? {
      pieces := pieces + [flush.value(current)];
    }
  }

  lemma Begins<C, S, O>(process: (C, S) -> (O, S), state: S)
    ensures PerChunk(process, None, state, []) == [] && StateAfter(process, state, []) == state
  {
  }
}
