/**
  What the normaliser's decisions mean as text: which byte an escape denotes, which texts
  are an encoded separator or an encoded dot, and what an accepted URI cannot hold.
 */
module UriText {
  import opened Text
  import opened ResourceUri

  /** The bytes of an ASCII text. */
  function Bytes(text: string): (bytes: seq<Byte>)
    requires forall i :: 0 <= i < |text| ==> text[i] as int < 256
    ensures |bytes| == |text| && forall i :: 0 <= i < |text| ==> bytes[i] == text[i] as int
  {
    seq(|text|, i requires 0 <= i < |text| => text[i] as int)
  }

  // ----- the byte an escape denotes -----

  const LOWER_DIGITS := "0123456789abcdef"
  const UPPER_DIGITS := "0123456789ABCDEF"

  /** The code of a hexadecimal digit, in either case. */
  function DigitCode(d: nat, upper: bool): (code: Byte)
    requires d < 16
  {
    DigitsAreAscii(d);
    if upper then UPPER_DIGITS[d] as int else LOWER_DIGITS[d] as int
  }

  lemma DigitsAreAscii(d: nat)
    requires d < 16
    ensures |LOWER_DIGITS| == |UPPER_DIGITS| == 16
    ensures LOWER_DIGITS[d] as int == if d < 10 then 48 + d else 97 + d - 10
    ensures UPPER_DIGITS[d] as int == if d < 10 then 48 + d else 65 + d - 10
  {
    LowDigits(d);
    HighDigits(d);
  }

  lemma LowDigits(d: nat)
    requires d < 16
    ensures LOWER_DIGITS[d] as int == if d < 10 then 48 + d else 97 + d - 10
  {
    assert LOWER_DIGITS[0] == '0' && LOWER_DIGITS[1] == '1' && LOWER_DIGITS[2] == '2' && LOWER_DIGITS[3] == '3';
    assert LOWER_DIGITS[4] == '4' && LOWER_DIGITS[5] == '5' && LOWER_DIGITS[6] == '6' && LOWER_DIGITS[7] == '7';
    assert LOWER_DIGITS[8] == '8' && LOWER_DIGITS[9] == '9' && LOWER_DIGITS[10] == 'a' && LOWER_DIGITS[11] == 'b';
    assert LOWER_DIGITS[12] == 'c' && LOWER_DIGITS[13] == 'd' && LOWER_DIGITS[14] == 'e' && LOWER_DIGITS[15] == 'f';
  }

  lemma HighDigits(d: nat)
    requires d < 16
    ensures UPPER_DIGITS[d] as int == if d < 10 then 48 + d else 65 + d - 10
  {
    assert UPPER_DIGITS[0] == '0' && UPPER_DIGITS[1] == '1' && UPPER_DIGITS[2] == '2' && UPPER_DIGITS[3] == '3';
    assert UPPER_DIGITS[4] == '4' && UPPER_DIGITS[5] == '5' && UPPER_DIGITS[6] == '6' && UPPER_DIGITS[7] == '7';
    assert UPPER_DIGITS[8] == '8' && UPPER_DIGITS[9] == '9' && UPPER_DIGITS[10] == 'A' && UPPER_DIGITS[11] == 'B';
    assert UPPER_DIGITS[12] == 'C' && UPPER_DIGITS[13] == 'D' && UPPER_DIGITS[14] == 'E' && UPPER_DIGITS[15] == 'F';
  }

  lemma DigitReads(d: nat, upper: bool)
    requires d < 16
    ensures IsHex(DigitCode(d, upper)) && HexValue(DigitCode(d, upper)) == d
  {
    hide LOWER_DIGITS, UPPER_DIGITS;
    DigitsAreAscii(d);
  }

  /** A byte is a hexadecimal digit exactly when it is the code of one, in either case. */
  lemma HexIff(b: Byte)
    ensures IsHex(b) <==> exists d: nat, upper: bool :: d < 16 && b == DigitCode(d, upper)
  {
    if IsHex(b) {
      var d := HexValue(b);
      DigitsAreAscii(d);
      assert b == DigitCode(d, b <= 0x46);
    }
    forall d: nat, upper: bool | d < 16 ensures IsHex(DigitCode(d, upper)) {
      DigitReads(d, upper);
    }
  }

  /** `%` and the two digits of a byte, each in either case. */
  function Escape(b: Byte, upperHigh: bool, upperLow: bool): seq<Byte> {
    [0x25, DigitCode(b / 16, upperHigh), DigitCode(b % 16, upperLow)]
  }

  /** An escape denotes the byte whose digits it holds, whatever follows. */
  lemma UnquoteEscape(b: Byte, upperHigh: bool, upperLow: bool, tail: seq<Byte>)
    ensures Unquote(Escape(b, upperHigh, upperLow) + tail) == [b] + Unquote(tail)
  {
    hide DigitCode, IsHex, HexValue;
    var s := Escape(b, upperHigh, upperLow) + tail;
    DigitReads(b / 16, upperHigh);
    DigitReads(b % 16, upperLow);
    assert s[0] == 0x25 && s[1] == DigitCode(b / 16, upperHigh) && s[2] == DigitCode(b % 16, upperLow);
    assert s[3..] == tail;
  }

  /** Any other byte, and a percent sign that begins no escape, stands for itself. */
  lemma UnquotePlain(b: Byte, tail: seq<Byte>)
    requires b != 0x25 || |tail| < 2 || !IsHex(tail[0]) || !IsHex(tail[1])
    ensures Unquote([b] + tail) == [b] + Unquote(tail)
  {
    hide IsHex;
    assert ([b] + tail)[1..] == tail;
  }

  /** How one byte is written: as it is, or as an escape. */
  datatype Spelling = AsIs | Escaped(upperHigh: bool, upperLow: bool)

  predicate Spells(s: seq<Byte>, how: seq<Spelling>) {
    |how| == |s| && forall i :: 0 <= i < |s| ==> how[i].AsIs? ==> s[i] != 0x25
  }

  function Quote(s: seq<Byte>, how: seq<Spelling>): seq<Byte>
    requires Spells(s, how)
  {
    if s == [] then []
    else
      (match how[0]
       case AsIs => [s[0]]
       case Escaped(high, low) => Escape(s[0], high, low)) + Quote(s[1..], how[1..])
  }

  /** Decoding gives back every text, however its bytes were written. */
  lemma {:induction false} QuoteThenUnquote(s: seq<Byte>, how: seq<Spelling>)
    requires Spells(s, how)
    ensures Unquote(Quote(s, how)) == s
  {
    hide Unquote, Escape, IsHex;
    if s == [] {
      NothingUnquoted();
    } else {
      QuoteThenUnquote(s[1..], how[1..]);
      var rest := Quote(s[1..], how[1..]);
      match how[0] {
        case AsIs => UnquotePlain(s[0], rest);
        case Escaped(high, low) => UnquoteEscape(s[0], high, low, rest);
      }
      assert s == [s[0]] + s[1..];
    }
  }

  lemma NothingUnquoted()
    ensures Unquote([]) == []
  {
  }

  // ----- encoded separators and dots -----

  /** One of the four texts of an encoded separator stands at `i`. */
  predicate SeparatorTextAt(s: seq<Byte>, i: nat) {
    i + 3 <= |s| && (s[i..i + 3] == Bytes("%2f") || s[i..i + 3] == Bytes("%2F")
                     || s[i..i + 3] == Bytes("%5c") || s[i..i + 3] == Bytes("%5C"))
  }

  /** An encoded separator is one of four texts. */
  lemma SeparatorIff(s: seq<Byte>, i: nat)
    ensures SeparatorEscapeAt(s, i) <==> SeparatorTextAt(s, i)
  {
    if i + 3 <= |s| {
      ThreeBytes(s, i, "%2f");
      ThreeBytes(s, i, "%2F");
      ThreeBytes(s, i, "%5c");
      ThreeBytes(s, i, "%5C");
    }
  }

  lemma ThreeBytes(s: seq<Byte>, i: nat, text: string)
    requires i + 3 <= |s| && |text| == 3 && forall k :: 0 <= k < |text| ==> text[k] as int < 256
    ensures s[i..i + 3] == Bytes(text)
            <==> s[i] == text[0] as int && s[i + 1] == text[1] as int && s[i + 2] == text[2] as int
  {
    var part := s[i..i + 3];
    assert part[0] == s[i] && part[1] == s[i + 1] && part[2] == s[i + 2];
    if s[i] == text[0] as int && s[i + 1] == text[1] as int && s[i + 2] == text[2] as int {
      assert part == Bytes(text);
    }
  }

  /** A dot is written as itself or as one of two escapes. */
  lemma DotIff(s: seq<Byte>, i: nat, end: nat)
    ensures AfterDot(s, i) == Some(end) <==>
              || (i < |s| && s[i] == 0x2E && end == i + 1)
              || (i + 3 <= |s| && (s[i..i + 3] == Bytes("%2e") || s[i..i + 3] == Bytes("%2E")) && end == i + 3)
  {
    if i + 3 <= |s| {
      ThreeBytes(s, i, "%2e");
      ThreeBytes(s, i, "%2E");
    }
  }

  predicate IsDotText(dot: seq<Byte>) {
    dot == Bytes(".") || dot == Bytes("%2e") || dot == Bytes("%2E")
  }

  /** What may stand before and after a `..` segment for the pattern to find it. */
  predicate IsOpen(before: seq<Byte>) {
    before == [] || before[|before| - 1] == 0x2F || before[|before| - 1] == 0x5C
  }

  predicate IsShut(after: seq<Byte>) {
    after == [] || after == [0x0A] || after[0] in Bytes("/\\?#")
  }

  ghost predicate IsDotDotText(s: seq<Byte>, before: seq<Byte>, one: seq<Byte>, two: seq<Byte>, after: seq<Byte>) {
    s == before + one + two + after && IsDotText(one) && IsDotText(two) && IsOpen(before) && IsShut(after)
  }

  lemma DotAt(s: seq<Byte>, i: nat, end: nat)
    requires i <= end <= |s|
    ensures AfterDot(s, i) == Some(end) <==> IsDotText(s[i..end])
  {
    DotIff(s, i, end);
    var one := s[i..end];
    assert end == i + 1 ==> one[0] == s[i];
    assert end == i + 1 && s[i] == 0x2E ==> one == Bytes(".");
    assert |Bytes(".")| == 1 && |Bytes("%2e")| == 3 && |Bytes("%2E")| == 3;
  }

  lemma ShutBytes(b: Byte)
    ensures b in Bytes("/\\?#") <==> b == 0x2F || b == 0x5C || b == 0x3F || b == 0x23
  {
    var shut := Bytes("/\\?#");
    assert |shut| == 4 && shut[0] == 0x2F && shut[1] == 0x5C && shut[2] == 0x3F && shut[3] == 0x23;
  }

  lemma DotDotAtIff(s: seq<Byte>, i: nat)
    requires i <= |s|
    ensures DotDotAt(s, i) <==>
              exists m: nat, end: nat ::
                i <= m <= end <= |s| && IsDotText(s[i..m]) && IsDotText(s[m..end])
                && IsOpen(s[..i]) && IsShut(s[end..])
  {
    hide AfterDot, IsDotText;
    forall m: nat, end: nat | i <= m <= end <= |s|
      ensures AfterDot(s, i) == Some(m) <==> IsDotText(s[i..m])
      ensures AfterDot(s, m) == Some(end) <==> IsDotText(s[m..end])
      ensures IsShut(s[end..]) <==>
                end == |s| || (end == |s| - 1 && s[end] == 0x0A)
                || s[end] == SLASH || s[end] == BACKSLASH || s[end] == 0x3F || s[end] == 0x23
    {
      DotAt(s, i, m);
      DotAt(s, m, end);
      if end < |s| {
        ShutBytes(s[end]);
        assert s[end..][0] == s[end];
        assert end == |s| - 1 ==> s[end..] == [s[end]];
        assert |s[end..]| == |s| - end;
      }
    }
    assert i > 0 ==> s[..i][|s[..i]| - 1] == s[i - 1];
  }

  /** What the first check finds: two dots, each written in any way, as a segment of their own. */
  lemma DotDotIff(s: seq<Byte>)
    ensures HasDotDot(s) <==> exists before, one, two, after :: IsDotDotText(s, before, one, two, after)
  {
    hide IsDotText, IsOpen, IsShut, DotDotAt;
    if HasDotDot(s) {
      var i :| 0 <= i <= |s| && DotDotAt(s, i);
      DotDotAtIff(s, i);
      var m: nat, end: nat :| i <= m <= end <= |s|
        && IsDotText(s[i..m]) && IsDotText(s[m..end]) && IsOpen(s[..i]) && IsShut(s[end..]);
      FourParts(s, i, m, end);
      assert IsDotDotText(s, s[..i], s[i..m], s[m..end], s[end..]);
    }
    if before, one, two, after :| IsDotDotText(s, before, one, two, after) {
      var i, m, end := |before|, |before| + |one|, |before| + |one| + |two|;
      PartsOf(s, before, one, two, after);
      DotDotAtIff(s, i);
    }
  }

  lemma FourParts(s: seq<Byte>, i: nat, m: nat, end: nat)
    requires i <= m <= end <= |s|
    ensures s == s[..i] + s[i..m] + s[m..end] + s[end..]
  {
  }

  lemma PartsOf(s: seq<Byte>, before: seq<Byte>, one: seq<Byte>, two: seq<Byte>, after: seq<Byte>)
    requires s == before + one + two + after
    ensures var i, m, end := |before|, |before| + |one|, |before| + |one| + |two|;
            s[..i] == before && s[i..m] == one && s[m..end] == two && s[end..] == after
  {
  }

  // ----- what an accepted URI cannot hold -----

  /** The segments with a slash between each two. */
  function Slashed(segments: seq<seq<Byte>>): seq<Byte>
    requires segments != []
  {
    if |segments| == 1 then segments[0] else segments[0] + [0x2F] + Slashed(segments[1..])
  }

  /** The segments are the text cut at every slash. */
  lemma {:induction false} SegmentsCut(s: seq<Byte>)
    ensures Slashed(Segments(s)) == s
    ensures forall i :: 0 <= i < |Segments(s)| ==> 0x2F !in Segments(s)[i]
  {
    if s != [] {
      var rest := Segments(s[1..]);
      SegmentsCut(s[1..]);
      assert s == [s[0]] + s[1..];
      if s[0] == 0x2F {
        assert ([[]] + rest)[1..] == rest;
        assert [] + [0x2F] + Slashed(rest) == [0x2F] + Slashed(rest);
      } else {
        GrowFirst(s[0], rest);
        forall i | 0 <= i < |Segments(s)| ensures 0x2F !in Segments(s)[i] {
          assert i > 0 ==> Segments(s)[i] == rest[i];
        }
      }
    }
  }

  lemma GrowFirst(b: Byte, rest: seq<seq<Byte>>)
    requires rest != []
    ensures Slashed([[b] + rest[0]] + rest[1..]) == [b] + Slashed(rest)
  {
    var grown := [[b] + rest[0]] + rest[1..];
    assert grown[1..] == rest[1..];
    if |rest| > 1 {
      assert [b] + rest[0] + [0x2F] + Slashed(rest[1..]) == [b] + (rest[0] + [0x2F] + Slashed(rest[1..]));
    }
  }

  lemma {:induction false} SegmentsJoined(a: seq<Byte>, b: seq<Byte>)
    ensures Segments(a + [0x2F] + b) == Segments(a) + Segments(b)
    decreases a
  {
    if a == [] {
      assert a + [0x2F] + b == [0x2F] + b && ([0x2F] + b)[1..] == b;
    } else {
      assert a + [0x2F] + b == [a[0]] + (a[1..] + [0x2F] + b);
      assert ([a[0]] + (a[1..] + [0x2F] + b))[1..] == a[1..] + [0x2F] + b;
      SegmentsJoined(a[1..], b);
    }
  }

  lemma {:induction false} SlashFree(s: seq<Byte>)
    requires 0x2F !in s
    ensures Segments(s) == [s]
  {
    if s != [] {
      SlashFree(s[1..]);
      assert s == [s[0]] + s[1..];
    }
  }

  /** `part` stands in `s` between slashes or ends. */
  ghost predicate StandsIn(s: seq<Byte>, before: seq<Byte>, part: seq<Byte>, after: seq<Byte>) {
    && s == before + part + after
    && (before == [] || before[|before| - 1] == 0x2F)
    && (after == [] || after[0] == 0x2F)
  }

  lemma {:induction false} SegmentStands(s: seq<Byte>, i: nat) returns (before: seq<Byte>, after: seq<Byte>)
    requires i < |Segments(s)|
    ensures StandsIn(s, before, Segments(s)[i], after) && (before == [] <==> i == 0)
    decreases s
  {
    if s == [] {
      return [], [];
    }
    var rest := Segments(s[1..]);
    assert s == [s[0]] + s[1..];
    if s[0] == 0x2F && i == 0 {
      assert [] + [] + s == s;
      return [], s;
    }
    var k := if s[0] == 0x2F then i - 1 else i;
    before, after := SegmentStands(s[1..], k);
    if s[0] != 0x2F && i == 0 {
      assert Segments(s)[0] == [s[0]] + rest[0];
      assert s == [] + ([s[0]] + rest[0]) + after;
      before := [];
    } else {
      assert Segments(s)[i] == rest[k];
      before := StandsLater(s, before, rest[k], after);
    }
  }

  lemma StandsLater(s: seq<Byte>, before: seq<Byte>, part: seq<Byte>, after: seq<Byte>) returns (longer: seq<Byte>)
    requires s != [] && StandsIn(s[1..], before, part, after)
    requires before == [] ==> s[0] == 0x2F
    ensures StandsIn(s, longer, part, after) && longer != []
  {
    longer := [s[0]] + before;
    assert s == [s[0]] + (before + part + after) == longer + part + after;
  }

  lemma StandingIsSegment(s: seq<Byte>, before: seq<Byte>, part: seq<Byte>, after: seq<Byte>)
    requires StandsIn(s, before, part, after) && 0x2F !in part
    ensures part in Segments(s)
  {
    hide Segments;
    var tail := part + after;
    assert s == before + tail;
    StandingFirst(part, after);
    if before == [] {
      assert s == tail;
    } else {
      var head := before[..|before| - 1];
      assert before == head + [0x2F];
      assert s == head + [0x2F] + tail;
      SegmentsJoined(head, tail);
    }
  }

  lemma StandingFirst(part: seq<Byte>, after: seq<Byte>)
    requires 0x2F !in part && (after == [] || after[0] == 0x2F)
    ensures part in Segments(part + after)
  {
    hide Segments;
    SlashFree(part);
    if after == [] {
      assert part + after == part;
    } else {
      assert after == [0x2F] + after[1..];
      assert part + after == part + [0x2F] + after[1..];
      SegmentsJoined(part, after[1..]);
      assert part in [part];
    }
  }

  /** No `.` or `..` stands between slashes or ends. */
  ghost predicate NoDotsStand(s: seq<Byte>) {
    forall before, part, after :: StandsIn(s, before, part, after) ==> part != [0x2E] && part != [0x2E, 0x2E]
  }

  lemma DotSegmentIff(s: seq<Byte>)
    ensures HasDotSegment(s) <==> !NoDotsStand(s)
  {
    hide Segments, StandsIn;
    if HasDotSegment(s) {
      var i :| 0 <= i < |Segments(s)| && IsDots(Segments(s)[i]);
      var before, after := SegmentStands(s, i);
    }
    if before, part, after :| StandsIn(s, before, part, after) && (part == [0x2E] || part == [0x2E, 0x2E]) {
      StandingIsSegment(s, before, part, after);
      var i :| 0 <= i < |Segments(s)| && Segments(s)[i] == part;
      assert IsDots(Segments(s)[i]);
    }
  }

  ghost predicate NoSeparatorText(s: seq<Byte>) {
    forall i: nat :: !SeparatorTextAt(s, i)
  }

  /**
    Safe text, letter by letter: no control character, no delete, no backslash; no `.` or `..`
    between slashes; none of the four texts of an encoded separator.
   */
  lemma SafeIff(s: seq<Byte>)
    ensures Safe(s) <==>
              && (forall i :: 0 <= i < |s| ==> s[i] >= 0x20 && s[i] != 0x7F && s[i] != 0x5C)
              && NoDotsStand(s)
              && NoSeparatorText(s)
  {
    hide HasDotSegment, NoDotsStand, SeparatorEscapeAt, Bytes;
    DotSegmentIff(s);
    UnprintableIff(s);
    SeparatorTextIff(s);
  }

  lemma UnprintableIff(s: seq<Byte>)
    ensures HasUnprintable(s) <==> exists i :: 0 <= i < |s| && (s[i] < 0x20 || s[i] == 0x7F || s[i] == 0x5C)
  {
    if HasUnprintable(s) {
      var i :| 0 <= i < |s| && IsUnprintable(s[i]);
    }
    if i :| 0 <= i < |s| && (s[i] < 0x20 || s[i] == 0x7F || s[i] == 0x5C) {
      assert IsUnprintable(s[i]);
    }
  }

  lemma SeparatorFits(s: seq<Byte>, i: nat)
    requires SeparatorTextAt(s, i)
    ensures i < |s|
  {
  }

  lemma SeparatorTextIff(s: seq<Byte>)
    ensures HasSeparatorEscape(s) <==> !NoSeparatorText(s)
  {
    hide SeparatorEscapeAt, SeparatorTextAt;
    forall i: nat ensures SeparatorEscapeAt(s, i) <==> SeparatorTextAt(s, i) {
      SeparatorIff(s, i);
    }
    if HasSeparatorEscape(s) {
      var i :| 0 <= i < |s| && SeparatorEscapeAt(s, i);
    }
    if i: nat :| SeparatorTextAt(s, i) {
      SeparatorFits(s, i);
      assert SeparatorEscapeAt(s, i);
    }
  }

  /** The normaliser raises exactly when some round decodes to bytes that are not text, before any refusal. */
  lemma {:induction false} UndecodableIff(uri: seq<Byte>, rounds: nat, validText: seq<Byte> -> bool)
    ensures Normalize(uri, rounds, validText) == Undecodable
            <==> exists j :: 0 <= j <= rounds && RaisesAt(uri, j, validText)
    decreases rounds
  {
    hide HasSeparatorEscape, HasUnprintable, HasDotSegment, Unquote, RaisesAt;
    var decoded := Unquote(uri);
    RaisesNow(uri, validText);
    if decoded == uri {
      forall j: nat | RaisesAt(uri, j, validText) ensures j == 0 {
        RaisesOnceOnly(uri, j, validText);
      }
    } else if rounds > 0 {
      UndecodableIff(decoded, rounds - 1, validText);
      RaisesLater(uri, rounds, validText);
    }
  }

  lemma RaisesNow(uri: seq<Byte>, validText: seq<Byte> -> bool)
    ensures RaisesAt(uri, 0, validText) <==> !HasSeparatorEscape(uri) && !validText(Unquote(uri))
  {
    hide HasSeparatorEscape, Unquote;
    assert Decodings(uri, 0) == uri;
  }

  lemma RaisesOnceOnly(uri: seq<Byte>, j: nat, validText: seq<Byte> -> bool)
    requires Unquote(uri) == uri && RaisesAt(uri, j, validText)
    ensures j == 0
  {
    FixpointStays(uri, j);
    FirstPasses(uri, j, validText);
  }

  lemma FirstPasses(uri: seq<Byte>, j: nat, validText: seq<Byte> -> bool)
    requires RaisesAt(uri, j, validText)
    ensures j > 0 ==> RoundPasses(uri, validText)
  {
    hide HasSeparatorEscape, Unquote;
    assert j > 0 ==> RoundPasses(Decodings(uri, 0), validText);
  }

  lemma RaisesLater(uri: seq<Byte>, rounds: nat, validText: seq<Byte> -> bool)
    requires rounds > 0
    ensures (exists j :: 0 <= j <= rounds && RaisesAt(uri, j, validText)) <==>
              || RaisesAt(uri, 0, validText)
              || (RoundPasses(uri, validText)
                  && exists j :: 0 <= j <= rounds - 1 && RaisesAt(Unquote(uri), j, validText))
  {
    hide RoundPasses, RaisesAt, Unquote;
    if j :| 0 <= j <= rounds && RaisesAt(uri, j, validText) && j > 0 {
      RaisesOneLater(uri, j - 1, validText);
    }
    if RoundPasses(uri, validText) {
      if j :| 0 <= j <= rounds - 1 && RaisesAt(Unquote(uri), j, validText) {
        RaisesOneLater(uri, j, validText);
      }
    }
  }

  /** Every round before the `j`-th passes, and the `j`-th decodes to bytes that are not text. */
  ghost predicate RaisesAt(uri: seq<Byte>, j: nat, validText: seq<Byte> -> bool) {
    && (forall i :: 0 <= i < j ==> RoundPasses(Decodings(uri, i), validText))
    && !HasSeparatorEscape(Decodings(uri, j)) && !validText(Unquote(Decodings(uri, j)))
  }

  lemma RaisesOneLater(uri: seq<Byte>, j: nat, validText: seq<Byte> -> bool)
    ensures RaisesAt(uri, j + 1, validText) <==> RoundPasses(uri, validText) && RaisesAt(Unquote(uri), j, validText)
  {
    hide RoundPasses, Unquote, HasSeparatorEscape;
    DecodingsShift(uri, j);
    if RaisesAt(uri, j + 1, validText) {
      forall i | 0 <= i < j ensures RoundPasses(Decodings(Unquote(uri), i), validText) {
        DecodingsShift(uri, i);
        assert RoundPasses(Decodings(uri, i + 1), validText);
      }
      assert RoundPasses(Decodings(uri, 0), validText);
    }
    if RoundPasses(uri, validText) && RaisesAt(Unquote(uri), j, validText) {
      forall i | 0 <= i < j + 1 ensures RoundPasses(Decodings(uri, i), validText) {
        if i > 0 {
          DecodingsShift(uri, i - 1);
          assert RoundPasses(Decodings(Unquote(uri), i - 1), validText);
        }
      }
    }
  }
}
