/**
  The streaming redactors. `HoldBack` keeps a window of text back between chunks and
  is proved to compute `Redact` of the joined input on every chunking; `DesignA`
  redacts each chunk alone and is characterised exactly.
 */
module Streaming {
  import opened Text
  import opened Redactor
  import opened Adapters

  /** What the source holds back: the longest tail that could still begin a key. */
  const WINDOW: nat := KEY_LENGTH - 1

  // ----- what one call of the filter does, as a function of its buffer -----

  datatype Emission = Emission(out: string, keep: nat)

  /** Scan from `from` and emit while the scan stands before `safe`. */
  function Emit(buf: string, from: nat, safe: int): (e: Emission)
    requires from <= |buf| && safe <= |buf|
    ensures from <= e.keep <= |buf| && safe <= e.keep
    decreases |buf| - from
  {
    if from >= safe then Emission("", from)
    else
      var e := Emit(buf, Next(buf, from), safe);
      e.(out := Piece(buf, from) + e.out)
  }

  /** A stream so far: everything emitted and the text held back. */
  datatype Progress = Progress(out: string, held: string)

  function Step(window: nat, p: Progress, chunk: string): Progress {
    var buf := p.held + chunk;
    var e := Emit(buf, 0, |buf| - window);
    Progress(p.out + e.out, buf[e.keep..])
  }

  function Feed(window: nat, p: Progress, chunks: seq<string>): Progress
    decreases chunks
  {
    if chunks == [] then p else Feed(window, Step(window, p, chunks[0]), chunks[1..])
  }

  const FRESH := Progress("", "")

  /** The whole stream: every chunk, then the flush. */
  function Streamed(window: nat, chunks: seq<string>): string {
    var p := Feed(window, FRESH, chunks);
    p.out + Redact(p.held)
  }

  // ----- emitting early never changes the whole-input result -----

  /** The scan of `c + t` takes the same step as the scan of `c`, unless a key leaves `c`. */
  lemma SameStep(c: string, t: string, from: nat)
    requires from < |c|
    requires KeyAt(c + t, from) ==> from + KEY_LENGTH <= |c|
    ensures KeyAt(c + t, from) == KeyAt(c, from)
    ensures Piece(c + t, from) == Piece(c, from) && Next(c + t, from) == Next(c, from)
  {
    assert forall i :: 0 <= i < |c| ==> (c + t)[i] == c[i];
  }

  lemma {:induction false} EmitIsPrefixOfRedact(buf: string, from: nat, safe: int, t: string)
    requires from <= |buf| && safe <= |buf| - WINDOW
    ensures var e := Emit(buf, from, safe);
            RedactFrom(buf + t, from) == e.out + RedactFrom(buf + t, e.keep)
    decreases |buf| - from
  {
    if from < safe {
      SameStep(buf, t, from);
      EmitIsPrefixOfRedact(buf, Next(buf, from), safe, t);
    }
  }

  /** One step never changes the redaction of everything still to come. */
  lemma StepKeepsRedaction(window: nat, p: Progress, chunk: string, rest: string)
    requires window >= WINDOW
    ensures var q := Step(window, p, chunk);
            q.out + Redact(q.held + rest) == p.out + Redact(p.held + chunk + rest)
  {
    hide Emit, RedactFrom;
    var buf := p.held + chunk;
    var e := Emit(buf, 0, |buf| - window);
    EmitIsPrefixOfRedact(buf, 0, |buf| - window, rest);
    RedactSuffix(buf + rest, e.keep);
    assert (buf + rest)[e.keep..] == buf[e.keep..] + rest;
    Assoc(p.out, e.out, Redact(buf[e.keep..] + rest));
  }

  /**
    After any chunks, whatever text `t` follows: the output so far, then the
    redaction of the held text and `t`, is the redaction of the whole input.
   */
  lemma {:induction false} FeedKeepsRedaction(window: nat, p: Progress, chunks: seq<string>, t: string)
    requires window >= WINDOW
    ensures var q := Feed(window, p, chunks);
            q.out + Redact(q.held + t) == p.out + Redact(p.held + Join(chunks) + t)
    decreases chunks
  {
    if chunks == [] {
      assert p.held + Join<char>([]) + t == p.held + t;
    } else {
      var later := Join(chunks[1..]);
      var q := Step(window, p, chunks[0]);
      StepKeepsRedaction(window, p, chunks[0], later + t);
      FeedKeepsRedaction(window, q, chunks[1..], t);
      Assoc(q.held, later, t);
      Assoc(p.held, chunks[0], later + t);
      Assoc(chunks[0], later, t);
      Assoc(p.held, Join(chunks), t);
    }
  }

  /** Every chunking gives what filtering the joined input gives. */
  lemma StreamedIsRedact(window: nat, chunks: seq<string>)
    requires window >= WINDOW
    ensures Streamed(window, chunks) == Redact(Join(chunks))
  {
    var q := Feed(window, FRESH, chunks);
    FeedKeepsRedaction(window, FRESH, chunks, "");
    assert q.held + "" == q.held;
    assert "" + Join(chunks) + "" == Join(chunks);
  }

  /** What has gone out is a prefix of the redaction of the input so far plus any continuation. */
  lemma EmittedIsPrefix(chunks: seq<string>, t: string)
    ensures var q := Feed(WINDOW, FRESH, chunks);
            q.out <= Redact(Join(chunks) + t)
  {
    hide Redact, Join, Feed;
    var q := Feed(WINDOW, FRESH, chunks);
    FeedKeepsRedaction(WINDOW, FRESH, chunks, t);
    assert "" + Join(chunks) + t == Join(chunks) + t;
    assert "" + Redact(Join(chunks) + t) == Redact(Join(chunks) + t);
    assert q.out + Redact(q.held + t) == Redact(Join(chunks) + t);
  }

  lemma {:induction false} HeldIsBounded(window: nat, p: Progress, chunks: seq<string>)
    requires |p.held| <= window
    ensures |Feed(window, p, chunks).held| <= window
    decreases chunks
  {
    if chunks != [] {
      HeldIsBounded(window, Step(window, p, chunks[0]), chunks[1..]);
    }
  }

  // ----- the window is the least one -----

  const KEY_EXAMPLE := "sk-AbCd1234"

  lemma ShortWindowLeaks(window: nat)
    requires window < WINDOW
    ensures var chunks := [KEY_EXAMPLE[..WINDOW], KEY_EXAMPLE[WINDOW..]];
            Streamed(window, chunks) != Redact(Join(chunks))
  {
    var head, tail := KEY_EXAMPLE[..WINDOW], KEY_EXAMPLE[WINDOW..];
    var chunks := [head, tail];
    assert Join([tail]) == tail + Join([]);
    assert Join(chunks) == head + Join([tail]) == KEY_EXAMPLE;
    assert KeyAt(KEY_EXAMPLE, 0);
    assert Redact(KEY_EXAMPLE)[0] == '[';
    var p := Step(window, FRESH, head);
    assert "" + head == head;
    assert Emit(head, 0, WINDOW - window).out[0] == 's';
    assert p.out[0] == 's';
    assert chunks[1..] == [tail];
    assert Feed(window, FRESH, chunks) == Feed(window, p, [tail]);
    FeedExtendsOutput(window, p, [tail]);
  }

  lemma {:induction false} FeedExtendsOutput(window: nat, p: Progress, chunks: seq<string>)
    ensures p.out <= Feed(window, p, chunks).out
    decreases chunks
  {
    if chunks != [] {
      FeedExtendsOutput(window, Step(window, p, chunks[0]), chunks[1..]);
    }
  }

  /** Ten characters is the least window that is correct on every chunking. */
  lemma WindowIsLeast(window: nat)
    ensures (forall chunks: seq<string> :: Streamed(window, chunks) == Redact(Join(chunks)))
            <==> window >= 10
  {
    if window >= WINDOW {
      forall chunks: seq<string> ensures Streamed(window, chunks) == Redact(Join(chunks)) {
        StreamedIsRedact(window, chunks);
      }
    } else {
      ShortWindowLeaks(window);
    }
  }

  // ----- the filter as the source runs it: a buffer updated chunk by chunk -----

  /** What `Emit` does up to the first match, or up to `safe` when no match comes first. */
  ghost predicate SkipsToMatch(buf: string, from: nat, safe: int)
    requires from <= |buf| && safe <= |buf|
  {
    var starts := ScanFrom(buf, from);
    if starts == [] || starts[0] >= safe then
      var keep := if from > safe then from else safe;
      Emit(buf, from, safe) == Emission(buf[from..keep], keep)
    else
      var e := Emit(buf, starts[0] + KEY_LENGTH, safe);
      Emit(buf, from, safe) == e.(out := buf[from..starts[0]] + (MASK + e.out))
  }

  lemma {:induction false} EmitSkipsToMatch(buf: string, from: nat, safe: int)
    requires from <= |buf| && safe <= |buf|
    ensures SkipsToMatch(buf, from, safe)
    decreases |buf| - from
  {
    hide KeyAt;
    if from < safe && KeyAt(buf, from) {
      EmitMatch(buf, from, safe);
    } else if from < safe {
      EmitSkipsToMatch(buf, from + 1, safe);
      SkipOne(buf, from, safe);
    }
  }

  lemma SkipOne(buf: string, from: nat, safe: int)
    requires from < safe <= |buf| && !KeyAt(buf, from)
    requires ScanFrom(buf, from) == ScanFrom(buf, from + 1) && SkipsToMatch(buf, from + 1, safe)
    ensures SkipsToMatch(buf, from, safe)
  {
    hide Emit, ScanFrom;
    var starts := ScanFrom(buf, from);
    if starts == [] || starts[0] >= safe {
      assert buf[from + 1..safe] + "" == buf[from + 1..safe];
      EmitOne(buf, from, safe, safe, "");
      assert buf[from..safe] + "" == buf[from..safe];
    } else {
      EmitOne(buf, from, safe, starts[0], MASK + Emit(buf, starts[0] + KEY_LENGTH, safe).out);
    }
  }

  lemma EmitMatch(buf: string, from: nat, safe: int)
    requires from < safe <= |buf| && KeyAt(buf, from)
    ensures ScanFrom(buf, from) == [from] + ScanFrom(buf, from + KEY_LENGTH)
    ensures var e := Emit(buf, from + KEY_LENGTH, safe);
            Emit(buf, from, safe) == e.(out := buf[from..from] + (MASK + e.out))
  {
    hide IsAlnum;
    var later := MASK + Emit(buf, from + KEY_LENGTH, safe).out;
    assert buf[from..from] + later == later;
  }

  lemma EmitOne(buf: string, from: nat, safe: int, stop: int, later: string)
    requires from < stop <= safe <= |buf| && !KeyAt(buf, from)
    requires Emit(buf, from + 1, safe).out == buf[from + 1..stop] + later
    ensures Emit(buf, from, safe) == Emission(buf[from..stop] + later, Emit(buf, from + 1, safe).keep)
  {
    hide KeyAt;
    SliceCons(buf, from, stop);
    Assoc([buf[from]], buf[from + 1..stop], later);
  }

  lemma JoinMasked(out: seq<string>, gap: string, rest: string)
    ensures Join(out + [gap] + [MASK]) + rest == Join(out) + (gap + (MASK + rest))
  {
    JoinSnoc(out, gap);
    JoinSnoc(out + [gap], MASK);
    Assoc(Join(out) + gap, MASK, rest);
    Assoc(Join(out), gap, MASK + rest);
  }

  class HoldBack {
    const window: nat
    var buffer: string

    /** A fresh state: nothing buffered yet. */
    constructor (window: nat)
      ensures this.window == window && buffer == ""
    {
      this.window := window;
      buffer := "";
    }

    /** One chunk in, the text that is safe to emit out. */
    method Process(chunk: string) returns (output: string)
      modifies this
      ensures Progress(output, buffer) == Step(window, Progress("", old(buffer)), chunk)
    {
      hide Emit, ScanFrom, KeyAt;
      var joined := buffer + chunk;
      var safe := |joined| - window;
      var out: seq<string>, emitted: nat := [], 0;
      var matches := Scan(joined);
      var i := 0;
      while i < |matches|
        invariant 0 <= i <= |matches| && emitted <= |joined|
        invariant matches[i..] == ScanFrom(joined, emitted)
        invariant var e := Emit(joined, emitted, safe);
                  Emit(joined, 0, safe) == e.(out := Join(out) + e.out)
      {
        EmitSkipsToMatch(joined, emitted, safe);
        var start := matches[i];
        assert start == matches[i..][0];
        MatchesAfterFirst(joined, emitted);
        if start >= safe {
          break;
        }
        var gap := joined[emitted..start];
        JoinMasked(out, gap, Emit(joined, start + KEY_LENGTH, safe).out);
        assert matches[i + 1..] == matches[i..][1..];
        out := out + [gap] + [MASK];
        emitted := start + KEY_LENGTH;
        i := i + 1;
      }
      EmitSkipsToMatch(joined, emitted, safe);
      var keepFrom := if emitted > safe then emitted else safe;
      JoinSnoc(out, joined[emitted..keepFrom]);
      out := out + [joined[emitted..keepFrom]];
      buffer := joined[keepFrom..];
      output := Join(out);
    }

    /** End of stream: what was held back, redacted. */
    method Flush() returns (output: string)
      modifies this
      ensures output == Redact(old(buffer)) && buffer == ""
    {
      output := Redact(buffer);
      buffer := "";
    }
  }

  lemma {:induction false} MatchesAfterFirst(s: string, from: nat)
    requires from <= |s|
    ensures var starts := ScanFrom(s, from);
            starts != [] ==>
              starts[0] + KEY_LENGTH <= |s| && starts[1..] == ScanFrom(s, starts[0] + KEY_LENGTH)
    decreases |s| - from
  {
    if from < |s| && !KeyAt(s, from) {
      MatchesAfterFirst(s, from + 1);
    }
  }

  // ----- the filter built from them by `per_chunk` -----

  /** `Process` as a function: the output, and the buffer it leaves. */
  function ProcessStep(chunk: string, buffer: string): (string, string) {
    var p := Step(WINDOW, Progress("", buffer), chunk);
    (p.out, p.held)
  }

  /** `hold_back`: an output piece per chunk, then the flushed one. */
  function HoldBackPieces(chunks: seq<string>): seq<string> {
    PerChunk(ProcessStep, Some(Redact), "", chunks)
  }

  lemma {:induction false} FeedFrom(window: nat, p: Progress, chunks: seq<string>)
    ensures var q := Feed(window, Progress("", p.held), chunks);
            Feed(window, p, chunks) == Progress(p.out + q.out, q.held)
    decreases chunks
  {
    hide Emit;
    if chunks == [] {
      assert p.out + "" == p.out;
    } else {
      var first := Step(window, Progress("", p.held), chunks[0]);
      var rest := Feed(window, Progress("", first.held), chunks[1..]);
      StepFrom(window, p, chunks[0]);
      FeedFrom(window, Progress(p.out + first.out, first.held), chunks[1..]);
      FeedFrom(window, first, chunks[1..]);
      Assoc(p.out, first.out, rest.out);
    }
  }

  lemma StepFrom(window: nat, p: Progress, chunk: string)
    ensures var q := Step(window, Progress("", p.held), chunk);
            Step(window, p, chunk) == Progress(p.out + q.out, q.held)
  {
    hide Emit;
    assert forall e: string :: "" + e == e;
  }

  /** The pieces join to what the stream has emitted, and the state is the text held back. */
  lemma {:induction false} PiecesAreFeed(chunks: seq<string>, buffer: string)
    ensures Progress(Join(PerChunk(ProcessStep, None, buffer, chunks)), StateAfter(ProcessStep, buffer, chunks))
         == Feed(WINDOW, Progress("", buffer), chunks)
    decreases chunks
  {
    hide Step;
    if chunks != [] {
      var first := Step(WINDOW, Progress("", buffer), chunks[0]);
      PiecesAreFeed(chunks[1..], first.held);
      FeedFrom(WINDOW, first, chunks[1..]);
    }
  }

  /** On every chunking the pieces join to the redaction of the joined input. */
  lemma HoldBackIsRedact(chunks: seq<string>)
    ensures Join(HoldBackPieces(chunks)) == Redact(Join(chunks))
  {
    hide PerChunk, StateAfter, Feed, Join, Redact, Step;
    var pieces, held := PerChunk(ProcessStep, None, "", chunks), StateAfter(ProcessStep, "", chunks);
    PiecesAreFeed(chunks, "");
    FlushLast(ProcessStep, Some(Redact), "", chunks);
    JoinSnoc(pieces, Redact(held));
    StreamedIsRedact(WINDOW, chunks);
  }

  /** The first `n` pieces are safe to have sent, whatever comes after chunk `n`. */
  lemma PiecesArePrefix(chunks: seq<string>, n: nat, t: string)
    requires n <= |chunks|
    ensures Join(HoldBackPieces(chunks)[..n]) <= Redact(Join(chunks[..n]) + t)
  {
    hide PerChunk, StateAfter, Feed, Join, Redact, Step;
    var first := PerChunk(ProcessStep, None, "", chunks[..n]);
    assert chunks == chunks[..n] + chunks[n..];
    PerChunkSplits(ProcessStep, Some(Redact), "", chunks[..n], chunks[n..]);
    assert |first| == n && HoldBackPieces(chunks)[..n] == first;
    PiecesAreFeed(chunks[..n], "");
    EmittedIsPrefix(chunks[..n], t);
  }

  /**
    One stream through the stateful filter, from a fresh state. The loop is that of
    `Adapters.StreamFilter`, which takes its step as a function and so cannot call the
    methods that change the filter's buffer.
   */
  method RunHoldBack(chunks: seq<string>) returns (pieces: seq<string>)
    ensures pieces == HoldBackPieces(chunks)
    ensures Join(pieces) == Redact(Join(chunks))
    ensures forall n, t: string :: 0 <= n <= |chunks| ==> Join(pieces[..n]) <= Redact(Join(chunks[..n]) + t)
  {
    hide PerChunk, StateAfter, Feed, Join, Redact, Step;
    var current := new HoldBack(WINDOW);
    pieces := [];
    Begins(ProcessStep, "");
    for n := 0 to |chunks|
      invariant fresh(current) && current.window == WINDOW
      invariant pieces == PerChunk(ProcessStep, None, "", chunks[..n])
      invariant current.buffer == StateAfter(ProcessStep, "", chunks[..n])
    {
      NextChunk(ProcessStep, "", chunks, n);
      var piece := current.Process(chunks[n]);
      pieces := pieces + [piece];
    }
    assert chunks[..|chunks|] == chunks;
    FlushLast(ProcessStep, Some(Redact), "", chunks);
    var last := current.Flush();
    pieces := pieces + [last];
    HoldBackIsRedact(chunks);
    forall n, t: string | 0 <= n <= |chunks| ensures Join(pieces[..n]) <= Redact(Join(chunks[..n]) + t) {
      PiecesArePrefix(chunks, n, t);
    }
  }

  // ----- redacting each chunk alone -----

  function RedactEach(chunks: seq<string>): seq<string> {
    seq(|chunks|, i requires 0 <= i < |chunks| => Redact(chunks[i]))
  }

  /** A key the scan from `from` chooses begins before `cut` and ends after it. */
  ghost predicate KeyStraddles(s: string, from: nat, cut: nat)
    requires from <= |s|
  {
    exists q :: q in ScanFrom(s, from) && q < cut < q + KEY_LENGTH
  }

  /** Some chosen key of the joined text is cut by a chunk boundary. */
  ghost predicate SomeKeyIsCut(chunks: seq<string>) {
    exists i :: 0 < i < |chunks| && KeyStraddles(Join(chunks), 0, |Join(chunks[..i])|)
  }

  function Shifted(starts: seq<nat>, offset: nat): seq<nat> {
    seq(|starts|, i requires 0 <= i < |starts| => offset + starts[i])
  }

  lemma ShiftedCons(first: nat, rest: seq<nat>, offset: nat)
    ensures Shifted([], offset) == []
    ensures Shifted([first] + rest, offset) == [offset + first] + Shifted(rest, offset)
  {
  }

  lemma {:induction false} ScanShift(a: string, b: string, from: nat)
    requires from <= |b|
    ensures ScanFrom(a + b, |a| + from) == Shifted(ScanFrom(b, from), |a|)
    decreases |b| - from
  {
    hide KeyAt, Shifted;
    ShiftedCons(from, ScanFrom(b, if from < |b| then Next(b, from) else from), |a|);
    if from < |b| {
      KeyFits(b, from);
      KeyAtShift(a, b, from);
      ScanShift(a, b, Next(b, from));
    }
  }

  lemma StraddleStep(s: string, from: nat, cut: nat)
    requires from < |s|
    ensures KeyStraddles(s, from, cut)
            <==> (KeyAt(s, from) && from < cut < from + KEY_LENGTH) || KeyStraddles(s, Next(s, from), cut)
  {
    var here, later := ScanFrom(s, from), ScanFrom(s, Next(s, from));
    assert forall q :: q in here <==> (KeyAt(s, from) && q == from) || q in later;
    if KeyAt(s, from) && from < cut < from + KEY_LENGTH {
      assert from in here;
    } else if KeyStraddles(s, Next(s, from), cut) {
      var q :| q in later && q < cut < q + KEY_LENGTH;
      assert q in here;
    }
  }

  /** Without a straddling key the scan of `c + t` is the scan of `c` and then that of `t`. */
  lemma {:induction false} ScansSynchronise(c: string, t: string, from: nat)
    requires from <= |c| && !KeyStraddles(c + t, from, |c|)
    ensures RedactFrom(c + t, from) == RedactFrom(c, from) + Redact(t)
    ensures ScanFrom(c + t, from) == ScanFrom(c, from) + ScanFrom(c + t, |c|)
    decreases |c| - from
  {
    hide KeyAt, KeyStraddles, Piece;
    if from == |c| {
      RedactShift(c, t, 0);
    } else {
      KeyFits(c, from);
      StraddleStep(c + t, from, |c|);
      SameStep(c, t, from);
      ScansSynchronise(c, t, Next(c, from));
    }
  }

  lemma CutKeyShows(c: string, t: string, from: nat, x: string)
    requires from < |c| < from + KEY_LENGTH && KeyAt(c + t, from)
    ensures RedactFrom(c + t, from) != RedactFrom(c, from) + x
  {
    assert RedactFrom(c + t, from)[0] == '[';
    assert (c + t)[from] == c[from];
    assert (RedactFrom(c, from) + x)[0] == 's';
  }

  /** With one, the whole result and any result that starts with `Redact(c)` part at its mask. */
  lemma {:induction false} StraddleDiffers(c: string, t: string, from: nat, x: string)
    requires from <= |c| && KeyStraddles(c + t, from, |c|)
    ensures RedactFrom(c + t, from) != RedactFrom(c, from) + x
    decreases |c| - from
  {
    StraddleStep(c + t, from, |c|);
    if KeyAt(c + t, from) && from + KEY_LENGTH > |c| {
      CutKeyShows(c, t, from, x);
    } else {
      SameStep(c, t, from);
      StraddleDiffers(c, t, Next(c, from), x);
      DifferLater(c, t, from, x);
    }
  }

  lemma DifferLater(c: string, t: string, from: nat, x: string)
    requires from < |c| && Piece(c + t, from) == Piece(c, from) && Next(c + t, from) == Next(c, from)
    requires RedactFrom(c + t, Next(c, from)) != RedactFrom(c, Next(c, from)) + x
    ensures RedactFrom(c + t, from) != RedactFrom(c, from) + x
  {
    hide Piece, Next;
    var head, next := Piece(c, from), Next(c, from);
    var whole, local := RedactFrom(c + t, next), RedactFrom(c, next) + x;
    Assoc(head, RedactFrom(c, next), x);
    assert (head + whole)[|head|..] == whole && (head + local)[|head|..] == local;
  }

  lemma JoinOne(chunks: seq<string>)
    requires chunks != []
    ensures Join(chunks[..1]) == chunks[0]
  {
    assert chunks[..1] == [chunks[0]];
    JoinSnoc([], chunks[0]);
  }

  lemma CutsShift(c: string, rest: seq<string>)
    requires !KeyStraddles(c + Join(rest), 0, |c|)
    ensures SomeKeyIsCut([c] + rest) <==> SomeKeyIsCut(rest)
  {
    hide KeyStraddles;
    var t, chunks := Join(rest), [c] + rest;
    assert chunks[1..] == rest && Join(chunks) == c + t;
    forall i | 0 < i < |rest|
      ensures KeyStraddles(c + t, 0, |Join(chunks[..i + 1])|) <==> KeyStraddles(t, 0, |Join(rest[..i])|)
    {
      CutShift(c, t, |Join(rest[..i])|);
      assert chunks[..i + 1] == [c] + rest[..i];
      assert ([c] + rest[..i])[1..] == rest[..i];
    }
    if SomeKeyIsCut(chunks) {
      var i :| 0 < i < |chunks| && KeyStraddles(c + t, 0, |Join(chunks[..i])|);
      JoinOne(chunks);
      assert KeyStraddles(t, 0, |Join(rest[..i - 1])|);
    }
    if SomeKeyIsCut(rest) {
      var i :| 0 < i < |rest| && KeyStraddles(t, 0, |Join(rest[..i])|);
      assert KeyStraddles(c + t, 0, |Join(chunks[..i + 1])|);
    }
  }

  lemma CutShift(c: string, t: string, cut: nat)
    requires !KeyStraddles(c + t, 0, |c|)
    ensures KeyStraddles(c + t, 0, |c| + cut) <==> KeyStraddles(t, 0, cut)
  {
    hide KeyAt, ScanFrom, RedactFrom, Shifted, Join;
    var first, later, all := Scan(c), Scan(t), Scan(c + t);
    ScansSynchronise(c, t, 0);
    ScanShift(c, t, 0);
    MemberOfShifted(first, later, |c|);
    forall q | q in first ensures q + KEY_LENGTH <= |c| {
      KeyFits(c, q);
    }
    if KeyStraddles(t, 0, cut) {
      var q :| q in later && q < cut < q + KEY_LENGTH;
      assert |c| + q in all;
    }
  }

  lemma MemberOfShifted(first: seq<nat>, later: seq<nat>, offset: nat)
    ensures forall q :: q in first + Shifted(later, offset) <==> q in first || (q >= offset && q - offset in later)
    ensures forall q :: q in later ==> offset + q in Shifted(later, offset)
  {
    var shifted := Shifted(later, offset);
    forall q | q in later ensures offset + q in shifted {
      var i :| 0 <= i < |later| && later[i] == q;
      assert shifted[i] == offset + q;
    }
  }

  /** Chunk-local redaction is right exactly when no chosen key is cut by a boundary. */
  lemma {:induction false} DesignAIffNoKeyIsCut(chunks: seq<string>)
    ensures Join(RedactEach(chunks)) == Redact(Join(chunks)) <==> !SomeKeyIsCut(chunks)
    decreases chunks
  {
    if chunks != [] {
      var c, rest := chunks[0], chunks[1..];
      var t := Join(rest);
      assert RedactEach(chunks)[1..] == RedactEach(rest);
      assert chunks == [c] + rest;
      if KeyStraddles(c + t, 0, |c|) {
        StraddleDiffers(c, t, 0, Join(RedactEach(rest)));
        assert rest == [] ==> |c + t| == |c|;
        JoinOne(chunks);
      } else {
        ScansSynchronise(c, t, 0);
        CutsShift(c, rest);
        DesignAIffNoKeyIsCut(rest);
        var head, local, whole := Redact(c), Join(RedactEach(rest)), Redact(t);
        assert (head + local)[|head|..] == local && (head + whole)[|head|..] == whole;
      }
    }
  }

  /** `design_a`: each chunk is redacted alone. */
  method DesignA(chunks: seq<string>) returns (pieces: seq<string>)
    ensures pieces == RedactEach(chunks)
    ensures Join(pieces) == Redact(Join(chunks)) <==> !SomeKeyIsCut(chunks)
  {
    pieces := [];
    for n := 0 to |chunks|
      invariant pieces == RedactEach(chunks[..n])
    {
      pieces := pieces + [Redact(chunks[n])];
    }
    assert chunks[..|chunks|] == chunks;
    DesignAIffNoKeyIsCut(chunks);
  }
}
