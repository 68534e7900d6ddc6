/**
  The resource URI normaliser: decode until nothing changes, refuse what could be a
  traversal. URIs are the bytes of their UTF-8 encoding.
 */
module ResourceUri {
  import opened Text

  type Byte = b: int | 0 <= b < 256

  const PERCENT: Byte := 0x25
  const DOT: Byte := 0x2E
  const SLASH: Byte := 0x2F
  const BACKSLASH: Byte := 0x5C

  /** Decoding rounds before a URI that keeps changing is refused. */
  const MAX_DECODE_ROUNDS := 4

  // ----- percent-decoding -----

  predicate IsHex(b: Byte) {
    0x30 <= b <= 0x39 || 0x41 <= b <= 0x46 || 0x61 <= b <= 0x66
  }

  function HexValue(b: Byte): (v: int)
    requires IsHex(b)
    ensures 0 <= v < 16
  {
    if b <= 0x39 then b - 0x30 else if b <= 0x46 then b - 0x41 + 10 else b - 0x61 + 10
  }

  /** A percent sign and two hexadecimal digits begin at `i`. */
  predicate EscapeAt(s: seq<Byte>, i: nat) {
    i + 2 < |s| && s[i] == PERCENT && IsHex(s[i + 1]) && IsHex(s[i + 2])
  }

  function Decoded(hi: Byte, lo: Byte): Byte
    requires IsHex(hi) && IsHex(lo)
  {
    16 * HexValue(hi) + HexValue(lo)
  }

  /** `unquote`: each escape becomes its byte; a stray percent sign stays. */
  function Unquote(s: seq<Byte>): (r: seq<Byte>)
    ensures |r| <= |s|
  {
    if s == [] then []
    else if EscapeAt(s, 0) then [Decoded(s[1], s[2])] + Unquote(s[3..])
    else [s[0]] + Unquote(s[1..])
  }

  /** `s` percent-decoded `k` times. */
  function Decodings(s: seq<Byte>, k: nat): seq<Byte> {
    if k == 0 then s else Unquote(Decodings(s, k - 1))
  }

  predicate HasEscape(s: seq<Byte>) {
    exists i :: 0 <= i < |s| && EscapeAt(s, i)
  }

  lemma {:induction false} UnquoteFixpointIff(s: seq<Byte>)
    ensures Unquote(s) == s <==> !HasEscape(s)
    ensures Unquote(s) != s ==> |Unquote(s)| <= |s| - 2
  {
    hide IsHex, Decoded;
    if s != [] {
      if EscapeAt(s, 0) {
        assert |Unquote(s)| == 1 + |Unquote(s[3..])| <= |s| - 2;
      } else {
        UnquoteFixpointIff(s[1..]);
        assert s == [s[0]] + s[1..] && Unquote(s)[1..] == Unquote(s[1..]);
        EscapeInTail(s);
      }
    }
  }

  lemma EscapeInTail(s: seq<Byte>)
    requires s != [] && !EscapeAt(s, 0)
    ensures HasEscape(s) <==> HasEscape(s[1..])
  {
    hide IsHex;
    if HasEscape(s) {
      var i :| 0 <= i < |s| && EscapeAt(s, i);
      assert EscapeAt(s[1..], i - 1);
    }
    if HasEscape(s[1..]) {
      var i :| 0 <= i < |s[1..]| && EscapeAt(s[1..], i);
      assert EscapeAt(s, i + 1);
    }
  }

  // ----- what the normaliser refuses -----

  /** `%2f` or `%5c`, in either case, at `i`. */
  predicate SeparatorEscapeAt(s: seq<Byte>, i: nat) {
    && EscapeAt(s, i)
    && (Decoded(s[i + 1], s[i + 2]) == SLASH || Decoded(s[i + 1], s[i + 2]) == BACKSLASH)
  }

  predicate HasSeparatorEscape(s: seq<Byte>) {
    exists i :: 0 <= i < |s| && SeparatorEscapeAt(s, i)
  }

  predicate IsUnprintable(b: Byte) {
    b == BACKSLASH || b < 0x20 || b == 0x7F
  }

  predicate HasUnprintable(s: seq<Byte>) {
    exists i :: 0 <= i < |s| && IsUnprintable(s[i])
  }

  /** `split("/")`. */
  function Segments(s: seq<Byte>): (r: seq<seq<Byte>>)
    ensures r != []
  {
    if s == [] then [[]]
    else
      var rest := Segments(s[1..]);
      if s[0] == SLASH then [[]] + rest else [[s[0]] + rest[0]] + rest[1..]
  }

  predicate IsDots(segment: seq<Byte>) {
    segment == [DOT] || segment == [DOT, DOT]
  }

  predicate HasDotSegment(s: seq<Byte>) {
    exists i :: 0 <= i < |Segments(s)| && IsDots(Segments(s)[i])
  }

  /** Nothing an upstream could read as a traversal or a separator. */
  predicate Safe(s: seq<Byte>) {
    !HasSeparatorEscape(s) && !HasUnprintable(s) && !HasDotSegment(s)
  }

  // ----- decoding neither moves nor hides a segment -----

  function UnquoteEach(segments: seq<seq<Byte>>): seq<seq<Byte>> {
    seq(|segments|, i requires 0 <= i < |segments| => Unquote(segments[i]))
  }

  /** The first segment ends before any slash, and escapes never reach across one. */
  lemma {:induction false} FirstSegmentIsPrefix(s: seq<Byte>)
    ensures var first := Segments(s)[0];
            && |first| <= |s| && first == s[..|first|]
            && (|first| < |s| ==> s[|first|] == SLASH)
  {
    if s != [] && s[0] != SLASH {
      FirstSegmentIsPrefix(s[1..]);
      assert s == [s[0]] + s[1..];
    }
  }

  lemma EscapeStaysInSegment(s: seq<Byte>)
    ensures EscapeAt(s, 0) <==> EscapeAt(Segments(s)[0], 0)
  {
    FirstSegmentIsPrefix(s);
    var first := Segments(s)[0];
    if EscapeAt(s, 0) {
      assert |first| >= 3;
    }
  }

  lemma NoSeparatorLater(s: seq<Byte>, n: nat)
    requires n <= |s| && !HasSeparatorEscape(s)
    ensures !HasSeparatorEscape(s[n..])
  {
    hide IsHex, Decoded;
    forall i | 0 <= i < |s[n..]| ensures !SeparatorEscapeAt(s[n..], i) {
      assert !SeparatorEscapeAt(s, n + i);
    }
  }

  /** Without an encoded separator, decoding a URI decodes each of its segments in place. */
  lemma {:induction false} SegmentsCommute(s: seq<Byte>)
    requires !HasSeparatorEscape(s)
    ensures Segments(Unquote(s)) == UnquoteEach(Segments(s))
  {
    if s == [] {
    } else if EscapeAt(s, 0) {
      NoSeparatorLater(s, 3);
      SegmentsCommute(s[3..]);
      assert SeparatorEscapeAt(s, 0) <==> Decoded(s[1], s[2]) == SLASH || Decoded(s[1], s[2]) == BACKSLASH;
      EscapeSegments(s);
      var rest := Segments(Unquote(s[3..]));
      assert Segments(Unquote(s)) == [[Decoded(s[1], s[2])] + rest[0]] + rest[1..];
    } else {
      NoSeparatorLater(s, 1);
      SegmentsCommute(s[1..]);
      PlainSegments(s);
    }
  }

  lemma {:induction false} SegmentsAfter(prefix: seq<Byte>, tail: seq<Byte>)
    requires SLASH !in prefix
    ensures Segments(prefix + tail) == [prefix + Segments(tail)[0]] + Segments(tail)[1..]
    decreases prefix
  {
    if prefix == [] {
      assert prefix + tail == tail && prefix + Segments(tail)[0] == Segments(tail)[0];
      assert Segments(tail) == [Segments(tail)[0]] + Segments(tail)[1..];
    } else {
      assert (prefix + tail)[0] == prefix[0] && (prefix + tail)[1..] == prefix[1..] + tail;
      SegmentsAfter(prefix[1..], tail);
      Assoc([prefix[0]], prefix[1..], Segments(tail)[0]);
      assert [prefix[0]] + prefix[1..] == prefix;
    }
  }

  lemma EscapeIsPlain(s: seq<Byte>)
    requires EscapeAt(s, 0)
    ensures SLASH !in s[..3]
  {
  }

  lemma EscapeHead(s: seq<Byte>, rest: seq<Byte>)
    requires EscapeAt(s, 0)
    ensures Unquote(s[..3] + rest) == [Decoded(s[1], s[2])] + Unquote(rest)
  {
    hide IsHex, Decoded;
    var first := s[..3] + rest;
    assert first[0] == s[0] && first[1] == s[1] && first[2] == s[2];
    assert EscapeAt(first, 0) && first[3..] == rest;
  }

  lemma EscapeSegments(s: seq<Byte>)
    requires EscapeAt(s, 0)
    ensures var rest := Segments(s[3..]);
            && Segments(s) == [s[..3] + rest[0]] + rest[1..]
            && UnquoteEach(Segments(s)) == [[Decoded(s[1], s[2])] + Unquote(rest[0])] + UnquoteEach(rest)[1..]
  {
    hide Segments, Unquote, UnquoteEach, Decoded, IsHex;
    var rest := Segments(s[3..]);
    EscapeIsPlain(s);
    assert s == s[..3] + s[3..];
    SegmentsAfter(s[..3], s[3..]);
    EscapeHead(s, rest[0]);
    EachHead(s[..3] + rest[0], rest);
  }

  lemma PlainHead(b: Byte, tail: seq<Byte>)
    requires !EscapeAt([b] + tail, 0)
    ensures Unquote([b] + tail) == [b] + Unquote(tail)
  {
  }

  lemma EachEmptyFirst(rest: seq<seq<Byte>>)
    ensures UnquoteEach([[]] + rest) == [[]] + UnquoteEach(rest)
  {
  }

  lemma EachHead(first: seq<Byte>, rest: seq<seq<Byte>>)
    requires rest != []
    ensures UnquoteEach([first] + rest[1..]) == [Unquote(first)] + UnquoteEach(rest)[1..]
    ensures UnquoteEach(rest)[0] == Unquote(rest[0])
  {
    hide Unquote;
  }

  lemma PlainSegments(s: seq<Byte>)
    requires s != [] && !EscapeAt(s, 0)
    ensures var rest := UnquoteEach(Segments(s[1..]));
            UnquoteEach(Segments(s)) == if s[0] == SLASH then [[]] + rest else [[s[0]] + rest[0]] + rest[1..]
  {
    hide EscapeAt, Unquote, UnquoteEach;
    var rest := Segments(s[1..]);
    if s[0] != SLASH {
      EscapeStaysInSegment(s);
      var first := [s[0]] + rest[0];
      assert Segments(s) == [first] + rest[1..] && Segments(s)[0] == first;
      PlainHead(s[0], rest[0]);
      EachHead(first, rest);
    } else {
      EachEmptyFirst(rest);
    }
  }

  /** So a dot segment survives decoding, and a URI whose decoding has none has none itself. */
  lemma DotSegmentSurvives(s: seq<Byte>)
    requires !HasSeparatorEscape(s) && HasDotSegment(s)
    ensures HasDotSegment(Unquote(s))
  {
    SegmentsCommute(s);
    var i :| 0 <= i < |Segments(s)| && IsDots(Segments(s)[i]);
    DotsDecodeToThemselves(Segments(s)[i]);
    assert IsDots(Segments(Unquote(s))[i]);
  }

  lemma DotsDecodeToThemselves(segment: seq<Byte>)
    requires IsDots(segment)
    ensures Unquote(segment) == segment
  {
    UnquoteFixpointIff(segment);
  }

  lemma {:induction false} UnprintableSurvives(s: seq<Byte>)
    requires HasUnprintable(s)
    ensures HasUnprintable(Unquote(s))
  {
    var i :| 0 <= i < |s| && IsUnprintable(s[i]);
    var n := if EscapeAt(s, 0) then 3 else 1;
    if i < n {
      assert Unquote(s)[0] == s[i];
    } else {
      assert IsUnprintable(s[n..][i - n]);
      UnprintableSurvives(s[n..]);
      var j :| 0 <= j < |Unquote(s[n..])| && IsUnprintable(Unquote(s[n..])[j]);
      assert Unquote(s)[j + 1] == Unquote(s[n..])[j];
    }
  }

  /** Safety is inherited backwards through one decoding. */
  lemma SafeBefore(s: seq<Byte>)
    requires !HasSeparatorEscape(s) && Safe(Unquote(s))
    ensures Safe(s)
  {
    hide HasSeparatorEscape, HasUnprintable, HasDotSegment;
    if HasUnprintable(s) {
      UnprintableSurvives(s);
    }
    if HasDotSegment(s) {
      DotSegmentSurvives(s);
    }
  }

  // ----- the normaliser -----

  datatype Outcome = Undecodable | Refused | Normalized(uri: seq<Byte>)

  /** `validText` says which bytes are UTF-8; decoding to anything else raises. */
  function Normalize(current: seq<Byte>, roundsLeft: nat, validText: seq<Byte> -> bool): Outcome
    decreases roundsLeft
  {
    if HasSeparatorEscape(current) then Refused
    else
      var decoded := Unquote(current);
      if !validText(decoded) then Undecodable
      else if decoded == current then
        if HasUnprintable(current) || HasDotSegment(current) then Refused else Normalized(current)
      else if roundsLeft == 0 then Refused
      else Normalize(decoded, roundsLeft - 1, validText)
  }

  /** `_normalized_resource_uri`. */
  method NormalizedResourceUri(uri: seq<Byte>, validText: seq<Byte> -> bool) returns (o: Outcome)
    ensures o == Normalize(uri, 4, validText)
  {
    hide HasSeparatorEscape, Unquote, HasUnprintable, HasDotSegment;
    var current := uri;
    for n := 0 to MAX_DECODE_ROUNDS + 1
      invariant n <= MAX_DECODE_ROUNDS ==>
                  Normalize(uri, MAX_DECODE_ROUNDS, validText) == Normalize(current, MAX_DECODE_ROUNDS - n, validText)
      invariant n > MAX_DECODE_ROUNDS ==> Normalize(uri, MAX_DECODE_ROUNDS, validText) == Refused
    {
      if HasSeparatorEscape(current) {
        return Refused;
      }
      var decoded := Unquote(current);
      if !validText(decoded) {
        return Undecodable;
      }
      if decoded == current {
        if HasUnprintable(current) || HasDotSegment(current) {
          return Refused;
        }
        return Normalized(current);
      }
      current := decoded;
    }
    return Refused;
  }

  lemma {:induction false} DecodingsShift(s: seq<Byte>, k: nat)
    ensures Decodings(Unquote(s), k) == Decodings(s, k + 1)
  {
    if k > 0 {
      DecodingsShift(s, k - 1);
    }
  }

  lemma {:induction false} FixpointStays(s: seq<Byte>, k: nat)
    requires Unquote(s) == s
    ensures Decodings(s, k) == s
  {
    if k > 0 {
      FixpointStays(s, k - 1);
    }
  }

  /**
    An accepted URI is safe however many times anything downstream decodes it, and
    what is returned is its full decoding: no escape is left in it.
   */
  lemma {:induction false} AcceptedIsSafeForever(uri: seq<Byte>, rounds: nat, validText: seq<Byte> -> bool, k: nat)
    requires Normalize(uri, rounds, validText).Normalized?
    ensures Safe(Decodings(uri, k))
    ensures var v := Normalize(uri, rounds, validText).uri;
            Safe(v) && !HasEscape(v) && (k >= rounds ==> Decodings(uri, k) == v)
    decreases rounds, k
  {
    hide HasSeparatorEscape, HasUnprintable, HasDotSegment;
    var decoded := Unquote(uri);
    UnquoteFixpointIff(uri);
    if decoded == uri {
      FixpointStays(uri, k);
    } else {
      AcceptedIsSafeForever(decoded, rounds - 1, validText, if k == 0 then 0 else k - 1);
      if k == 0 {
        SafeBefore(uri);
      } else {
        DecodingsShift(uri, k - 1);
      }
    }
  }

  /** One round finds nothing to refuse and something to decode to. */
  predicate RoundPasses(s: seq<Byte>, validText: seq<Byte> -> bool) {
    !HasSeparatorEscape(s) && validText(Unquote(s))
  }

  /** Every round up to the `k`-th passes, and the `k`-fold decoding is safe and final. */
  ghost predicate SettlesAt(uri: seq<Byte>, k: nat, validText: seq<Byte> -> bool) {
    && RoundsPass(uri, k, validText)
    && Unquote(Decodings(uri, k)) == Decodings(uri, k) && Safe(Decodings(uri, k))
  }

  ghost predicate RoundsPass(uri: seq<Byte>, k: nat, validText: seq<Byte> -> bool) {
    forall j :: 0 <= j <= k ==> RoundPasses(Decodings(uri, j), validText)
  }

  lemma RoundsShift(uri: seq<Byte>, k: nat, validText: seq<Byte> -> bool)
    ensures RoundsPass(uri, k + 1, validText) <==> RoundPasses(uri, validText) && RoundsPass(Unquote(uri), k, validText)
  {
    hide RoundPasses, Unquote;
    if RoundsPass(uri, k + 1, validText) {
      forall j | 0 <= j <= k ensures RoundPasses(Decodings(Unquote(uri), j), validText) {
        DecodingsShift(uri, j);
        assert RoundPasses(Decodings(uri, j + 1), validText);
      }
      assert RoundPasses(Decodings(uri, 0), validText);
    }
    if RoundPasses(uri, validText) && RoundsPass(Unquote(uri), k, validText) {
      forall j | 0 <= j <= k + 1 ensures RoundPasses(Decodings(uri, j), validText) {
        if j > 0 {
          DecodingsShift(uri, j - 1);
          assert RoundPasses(Decodings(Unquote(uri), j - 1), validText);
        }
      }
    }
  }

  lemma {:induction false} SettlesOneLater(uri: seq<Byte>, k: nat, validText: seq<Byte> -> bool)
    ensures SettlesAt(uri, k + 1, validText) <==> RoundPasses(uri, validText) && SettlesAt(Unquote(uri), k, validText)
  {
    hide RoundPasses, RoundsPass, Unquote, Safe, Decodings;
    RoundsShift(uri, k, validText);
    DecodingsShift(uri, k);
  }

  /** Exactly what is accepted: what settles within the rounds allowed, as what it settles to. */
  lemma {:induction false} AcceptedIff(uri: seq<Byte>, rounds: nat, validText: seq<Byte> -> bool, v: seq<Byte>)
    ensures Normalize(uri, rounds, validText) == Normalized(v)
            <==> exists k :: 0 <= k <= rounds && SettlesAt(uri, k, validText) && Decodings(uri, k) == v
    decreases rounds
  {
    hide HasSeparatorEscape, HasUnprintable, HasDotSegment, Unquote;
    var decoded := Unquote(uri);
    assert Decodings(uri, 0) == uri;
    if decoded == uri {
      forall k: nat ensures Decodings(uri, k) == uri {
        FixpointStays(uri, k);
      }
      assert SettlesAt(uri, 0, validText) <==> RoundPasses(uri, validText) && Safe(uri);
      forall k: nat | SettlesAt(uri, k, validText) ensures RoundPasses(uri, validText) {
        assert RoundPasses(Decodings(uri, 0), validText);
      }
    } else if rounds == 0 {
    } else {
      AcceptedIff(decoded, rounds - 1, validText, v);
      AcceptedLater(uri, rounds, validText, v);
    }
  }

  lemma AcceptedLater(uri: seq<Byte>, rounds: nat, validText: seq<Byte> -> bool, v: seq<Byte>)
    requires Unquote(uri) != uri && rounds > 0
    ensures (exists k :: 0 <= k <= rounds && SettlesAt(uri, k, validText) && Decodings(uri, k) == v) <==>
              && RoundPasses(uri, validText)
              && exists k :: 0 <= k <= rounds - 1
                             && SettlesAt(Unquote(uri), k, validText) && Decodings(Unquote(uri), k) == v
  {
    hide RoundPasses, RoundsPass, Unquote, Safe;
    if k :| 0 <= k <= rounds && SettlesAt(uri, k, validText) && Decodings(uri, k) == v {
      assert Decodings(uri, 0) == uri;
      SettlesOneLater(uri, k - 1, validText);
      DecodingsShift(uri, k - 1);
    }
    if RoundPasses(uri, validText) {
      if k :| 0 <= k <= rounds - 1 && SettlesAt(Unquote(uri), k, validText) && Decodings(Unquote(uri), k) == v {
        SettlesOneLater(uri, k, validText);
        DecodingsShift(uri, k);
      }
    }
  }

  // ----- the allow-list check -----

  /** One `.` or `%2e` at `i`, and where it ends. */
  function AfterDot(s: seq<Byte>, i: nat): (end: Option<nat>)
    ensures end.Some? ==> i < end.value <= |s|
  {
    if i < |s| && s[i] == DOT then Some(i + 1)
    else if EscapeAt(s, i) && Decoded(s[i + 1], s[i + 2]) == DOT then Some(i + 3)
    else None
  }

  /** A `..` segment, literal or encoded once, begins at `i`. */
  predicate DotDotAt(s: seq<Byte>, i: nat)
    requires i <= |s|
  {
    && (i == 0 || s[i - 1] == SLASH || s[i - 1] == BACKSLASH)
    && var first := AfterDot(s, i);
       first.Some? &&
       var second := AfterDot(s, first.value);
       second.Some? &&
       var end := second.value;
       end == |s| || (end == |s| - 1 && s[end] == 0x0A)
       || s[end] == SLASH || s[end] == BACKSLASH || s[end] == 0x3F || s[end] == 0x23
  }

  predicate HasDotDot(s: seq<Byte>) {
    exists i :: 0 <= i <= |s| && DotDotAt(s, i)
  }

  /** `allowed_resources`: a list whose entries may be anything, or not a list at all. */
  datatype Patterns = NotAList | Listed(entries: seq<Option<seq<Byte>>>)

  ghost predicate Allowed(uri: seq<Byte>, patterns: Patterns, matches: (seq<Byte>, seq<Byte>) -> bool) {
    patterns.Listed? && exists p :: Some(p) in patterns.entries && p != [] && matches(uri, p)
  }

  /** `_is_resource_forbidden`; `None` is a URI that is not a string. */
  method IsResourceForbidden(uri: Option<seq<Byte>>, patterns: Patterns, validText: seq<Byte> -> bool,
                             matches: (seq<Byte>, seq<Byte>) -> bool)
    returns (forbidden: bool)
    ensures !forbidden <==>
              && uri.Some? && uri.value != [] && !HasDotDot(uri.value)
              && Normalize(uri.value, 4, validText).Normalized?
              && Allowed(Normalize(uri.value, 4, validText).uri, patterns, matches)
    ensures !forbidden ==> forall k: nat :: Safe(Decodings(uri.value, k))
  {
    hide Safe, HasDotDot, Normalize, Decodings;
    if uri == None || uri.value == [] || HasDotDot(uri.value) {
      return true;
    }
    var outcome := NormalizedResourceUri(uri.value, validText);
    if !outcome.Normalized? || patterns.NotAList? {
      return true;
    }
    forall k: nat ensures Safe(Decodings(uri.value, k)) {
      AcceptedIsSafeForever(uri.value, MAX_DECODE_ROUNDS, validText, k);
    }
    for n := 0 to |patterns.entries|
      invariant forall p :: Some(p) in patterns.entries[..n] && p != [] ==> !matches(outcome.uri, p)
    {
      var entry := patterns.entries[n];
      if entry.Some? && entry.value != [] && matches(outcome.uri, entry.value) {
        assert entry in patterns.entries;
        return false;
      }
      assert patterns.entries[..n + 1] == patterns.entries[..n] + [entry];
    }
    assert patterns.entries[..|patterns.entries|] == patterns.entries;
    return true;
  }
}
