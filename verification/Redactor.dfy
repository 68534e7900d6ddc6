/**
  The whole-input filter: one fixed-length key pattern, replaced at every match
  of a leftmost, non-overlapping scan.
 */
module Redactor {

  const KEY_LENGTH := 11
  const MASK := "[KEY]"

  predicate IsAlnum(c: char) {
    'A' <= c <= 'Z' || 'a' <= c <= 'z' || '0' <= c <= '9'
  }

  /** The pattern `sk-[A-Za-z0-9]{8}` matches at position `p` of `s`. */
  predicate KeyAt(s: string, p: nat) {
    && p + KEY_LENGTH <= |s|
    && s[p] == 's' && s[p + 1] == 'k' && s[p + 2] == '-'
    && forall i :: p + 3 <= i < p + KEY_LENGTH ==> IsAlnum(s[i])
  }

  /** The pattern, code by code: `sk-`, then eight of the digits, capitals and small letters of ASCII. */
  lemma KeyAtIff(s: string, p: nat)
    ensures KeyAt(s, p) <==>
              && p + 11 <= |s| && s[p..p + 3] == "sk-"
              && forall i :: p + 3 <= i < p + 11 ==>
                   48 <= s[i] as int <= 57 || 65 <= s[i] as int <= 90 || 97 <= s[i] as int <= 122
  {
    assert p + 3 <= |s| && s[p] == 's' && s[p + 1] == 'k' && s[p + 2] == '-' ==> s[p..p + 3] == "sk-";
    assert p + 3 <= |s| && s[p..p + 3] == "sk-" ==> s[p] == s[p..p + 3][0] && s[p + 1] == s[p..p + 3][1]
                                                    && s[p + 2] == s[p..p + 3][2];
  }

  /** What the scan standing at `from` writes, and where it goes next. */
  function Piece(s: string, from: nat): string
    requires from < |s|
  {
    if KeyAt(s, from) then MASK else [s[from]]
  }

  function Next(s: string, from: nat): (n: nat)
    requires from < |s|
    ensures from < n <= |s|
  {
    if KeyAt(s, from) then from + KEY_LENGTH else from + 1
  }

  /** The text with every match of the scan that starts at `from` replaced. */
  function RedactFrom(s: string, from: nat): string
    requires from <= |s|
    decreases |s| - from
  {
    if from == |s| then "" else Piece(s, from) + RedactFrom(s, Next(s, from))
  }

  function Redact(s: string): string {
    RedactFrom(s, 0)
  }

  /** The match starts `finditer` yields when its scan stands at `from`. */
  function ScanFrom(s: string, from: nat): (starts: seq<nat>)
    requires from <= |s|
    ensures forall i :: 0 <= i < |starts| ==> from <= starts[i] && KeyAt(s, starts[i])
    decreases |s| - from
  {
    if from == |s| then []
    else if KeyAt(s, from) then [from] + ScanFrom(s, from + KEY_LENGTH)
    else ScanFrom(s, from + 1)
  }

  function Scan(s: string): seq<nat> {
    ScanFrom(s, 0)
  }

  // ----- the scan is the leftmost non-overlapping one, and the only such -----

  ghost predicate NoKeyBetween(s: string, lo: nat, hi: nat) {
    forall p :: lo <= p < hi ==> !KeyAt(s, p)
  }

  /**
    `starts` lists matches at or after `from`, each at least a key length past the
    one before it, and no match begins in any gap: the defining property of a
    leftmost, non-overlapping scan.
   */
  ghost predicate IsLeftmostScan(s: string, from: nat, starts: seq<nat>)
    decreases starts
  {
    if starts == [] then
      NoKeyBetween(s, from, |s|)
    else
      && from <= starts[0]
      && KeyAt(s, starts[0])
      && NoKeyBetween(s, from, starts[0])
      && IsLeftmostScan(s, starts[0] + KEY_LENGTH, starts[1..])
  }

  lemma {:induction false} ScanIsLeftmost(s: string, from: nat, starts: seq<nat>)
    requires from <= |s|
    ensures IsLeftmostScan(s, from, starts) <==> starts == ScanFrom(s, from)
    decreases |s| - from
  {
    hide KeyAt;
    if from == |s| {
      NoKeyAtEnd(s);
    } else if KeyAt(s, from) {
      KeyFits(s, from);
      if starts != [] {
        ScanIsLeftmost(s, from + KEY_LENGTH, starts[1..]);
        assert starts == [starts[0]] + starts[1..];
        assert IsLeftmostScan(s, from, starts) ==> starts[0] == from;
      }
    } else {
      ScanIsLeftmost(s, from + 1, starts);
    }
  }

  lemma NoKeyAtEnd(s: string)
    ensures forall p :: p >= |s| ==> !KeyAt(s, p)
  {
  }

  /** Cutting the scanned matches out of the text and putting the mask in their place. */
  function Splice(s: string, from: nat, starts: seq<nat>): string
    requires from <= |s|
    requires IsLeftmostScan(s, from, starts)
    decreases starts
  {
    if starts == [] then s[from..]
    else s[from..starts[0]] + MASK + Splice(s, starts[0] + KEY_LENGTH, starts[1..])
  }

  lemma SpliceStep(s: string, from: nat, starts: seq<nat>)
    requires from < |s|
    requires IsLeftmostScan(s, from, starts) && IsLeftmostScan(s, from + 1, starts)
    ensures Splice(s, from, starts) == [s[from]] + Splice(s, from + 1, starts)
  {
  }

  lemma SpliceMatch(s: string, from: nat, starts: seq<nat>)
    requires from <= |s| && KeyAt(s, from)
    requires IsLeftmostScan(s, from + KEY_LENGTH, starts)
    ensures IsLeftmostScan(s, from, [from] + starts)
    ensures Splice(s, from, [from] + starts) == MASK + Splice(s, from + KEY_LENGTH, starts)
  {
    hide IsAlnum;
    var all := [from] + starts;
    assert all[0] == from && all[1..] == starts;
    assert s[from..from] + MASK == MASK;
  }

  /** `re.sub` is splicing at exactly the leftmost scan's matches. */
  lemma {:induction false} RedactIsSplice(s: string, from: nat)
    requires from <= |s|
    ensures IsLeftmostScan(s, from, ScanFrom(s, from))
    ensures RedactFrom(s, from) == Splice(s, from, ScanFrom(s, from))
    decreases |s| - from
  {
    ScanIsLeftmost(s, from, ScanFrom(s, from));
    if from == |s| {
    } else if KeyAt(s, from) {
      RedactIsSplice(s, from + KEY_LENGTH);
      SpliceMatch(s, from, ScanFrom(s, from + KEY_LENGTH));
    } else {
      RedactIsSplice(s, from + 1);
      SpliceStep(s, from, ScanFrom(s, from + 1));
    }
  }

  // ----- the scan depends only on the text from where it stands -----

  lemma KeyFits(s: string, p: nat)
    ensures KeyAt(s, p) ==> p + KEY_LENGTH <= |s|
  {
  }

  lemma KeyAtShift(a: string, b: string, p: nat)
    ensures KeyAt(a + b, |a| + p) == KeyAt(b, p)
  {
    if p + KEY_LENGTH <= |b| {
      assert forall i :: p <= i < p + KEY_LENGTH ==> (a + b)[|a| + i] == b[i];
      if KeyAt(a + b, |a| + p) {
        forall i | p + 3 <= i < p + KEY_LENGTH ensures IsAlnum(b[i]) {
          assert IsAlnum((a + b)[|a| + i]);
        }
      }
    }
  }

  lemma StepShift(a: string, b: string, from: nat)
    requires from < |b|
    ensures Piece(a + b, |a| + from) == Piece(b, from) && Next(a + b, |a| + from) == |a| + Next(b, from)
  {
    hide KeyAt;
    KeyAtShift(a, b, from);
    assert (a + b)[|a| + from] == b[from];
  }

  lemma {:induction false} RedactShift(a: string, b: string, from: nat)
    requires from <= |b|
    ensures RedactFrom(a + b, |a| + from) == RedactFrom(b, from)
    decreases |b| - from
  {
    hide KeyAt, Piece, Next;
    if from < |b| {
      StepShift(a, b, from);
      RedactShift(a, b, Next(b, from));
    }
  }

  lemma RedactSuffix(s: string, from: nat)
    requires from <= |s|
    ensures RedactFrom(s, from) == Redact(s[from..])
  {
    assert s == s[..from] + s[from..];
    RedactShift(s[..from], s[from..], 0);
  }

  /** Redaction from the front: a key becomes the mask, any other character stays. */
  lemma RedactFromFront(s: string)
    ensures Redact("") == ""
    ensures KeyAt(s, 0) ==> Redact(s) == "[KEY]" + Redact(s[11..])
    ensures s != "" && !KeyAt(s, 0) ==> Redact(s) == [s[0]] + Redact(s[1..])
  {
    hide IsAlnum;
    if KeyAt(s, 0) {
      RedactSuffix(s, 11);
    } else if s != "" {
      RedactSuffix(s, 1);
    }
  }

  // ----- no key survives, and redaction is idempotent -----

  ghost predicate KeyFree(s: string) {
    forall p :: 0 <= p <= |s| ==> !KeyAt(s, p)
  }

  /** Up to the first bracket, redacted output is a literal copy of the text. */
  lemma {:induction false} CopiedUpToBracket(s: string, from: nat, n: nat)
    requires from <= |s|
    requires n <= |RedactFrom(s, from)| && forall i :: 0 <= i < n ==> RedactFrom(s, from)[i] != '['
    ensures from + n <= |s| && forall i :: 0 <= i < n ==> RedactFrom(s, from)[i] == s[from + i]
    decreases |s| - from
  {
    hide KeyAt;
    if from < |s| && n > 0 {
      var out, rest := RedactFrom(s, from), RedactFrom(s, Next(s, from));
      assert out == Piece(s, from) + rest && out[0] == Piece(s, from)[0];
      assert forall i :: 0 <= i < n - 1 ==> rest[i] == out[i + 1];
      CopiedUpToBracket(s, from + 1, n - 1);
      assert forall i :: 0 < i < n ==> out[i] == rest[i - 1] == s[from + 1 + (i - 1)];
    }
  }

  /** The complete output holds no key, at any position. */
  lemma {:induction false} RedactedIsKeyFree(s: string, from: nat)
    requires from <= |s|
    ensures KeyFree(RedactFrom(s, from))
    decreases |s| - from
  {
    var out := RedactFrom(s, from);
    if from < |s| {
      var head, rest := Piece(s, from), RedactFrom(s, Next(s, from));
      RedactedIsKeyFree(s, Next(s, from));
      assert out == head + rest;
      forall p | 0 <= p <= |out| ensures !KeyAt(out, p) {
        if p >= |head| {
          KeyAtShift(head, rest, p - |head|);
        } else if !KeyAt(s, from) && KeyAt(out, 0) {
          LeadingKeyIsCopied(s, from);
        }
      }
    }
  }

  lemma LeadingKeyIsCopied(s: string, from: nat)
    requires from <= |s| && KeyAt(RedactFrom(s, from), 0)
    ensures KeyAt(s, from)
  {
    var out := RedactFrom(s, from);
    assert forall i :: 0 <= i < KEY_LENGTH ==> out[i] != '[';
    CopiedUpToBracket(s, from, KEY_LENGTH);
    assert forall i :: from + 3 <= i < from + KEY_LENGTH ==> s[i] == out[i - from];
  }

  lemma {:induction false} KeyFreeIsUnchanged(s: string, from: nat)
    requires from <= |s| && KeyFree(s)
    ensures RedactFrom(s, from) == s[from..]
    decreases |s| - from
  {
    if from < |s| {
      KeyFreeIsUnchanged(s, from + 1);
    }
  }

  /** Text is a fixpoint of redaction exactly when it holds no key. */
  lemma FixpointIffKeyFree(s: string)
    ensures Redact(s) == s <==> KeyFree(s)
  {
    RedactedIsKeyFree(s, 0);
    if KeyFree(s) {
      KeyFreeIsUnchanged(s, 0);
    }
  }

  lemma RedactIdempotent(s: string)
    ensures Redact(Redact(s)) == Redact(s)
  {
    RedactedIsKeyFree(s, 0);
    KeyFreeIsUnchanged(Redact(s), 0);
  }
}
