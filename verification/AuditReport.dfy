/** What a report on an audit log says of it: each break, each count and each field. */
module AuditReport {
  import opened Text
  import opened Json
  import opened AuditLog

  // ----- which lines count as what -----

  lemma FieldIs(line: Line, key: string)
    requires line.Record?
    ensures Field(line, key) == if key in line.fields then line.fields[key] else Null
  {
  }

  /** What is hashed and what is signed: the record without its seals, in its own order of keys. */
  lemma ContentIs(line: Line, key: string)
    requires line.Record?
    ensures var content := HashedContent(line);
            && (key in content.fields <==>
                  key in line.fields && key != "hash" && key != "signature" && key != "public_key_fingerprint")
            && (key in content.fields ==> content.fields[key] == line.fields[key])
    ensures var content := SignedContent(line);
            && (key in content.fields <==> key in line.fields && key != "signature" && key != "public_key_fingerprint")
            && (key in content.fields ==> content.fields[key] == line.fields[key])
    ensures HashedContent(line).order == Keep(line.order, {"hash", "signature", "public_key_fingerprint"})
    ensures SignedContent(line).order == Keep(line.order, {"signature", "public_key_fingerprint"})
  {
  }

  lemma {:induction false} KeepInOrder(a: seq<string>, key: string, exclude: set<string>)
    ensures Keep(a + [key], exclude) == Keep(a, exclude) + if key in exclude then [] else [key]
  {
    if a == [] {
      assert [] + [key] == [key];
    } else {
      assert (a + [key])[1..] == a[1..] + [key];
      KeepInOrder(a[1..], key, exclude);
    }
  }

  ghost predicate IsUnsigned(line: Line) {
    line.Record? && (Field(line, "signature") == Null || Field(line, "signature") == Str(""))
  }

  /** A signature that is not a well-encoded string, or that the key refutes. */
  ghost function BadlySigned(v: Verifier): Line -> bool {
    (line: Line) =>
      && line.Record? && !IsUnsigned(line)
      && var signature := Field(line, "signature");
         !signature.Str? || !v.wellEncoded(signature.s)
         || (v.key.Some? && !v.key.value.verifies(signature.s, SignedContent(line)))
  }

  ghost function WellSigned(v: Verifier): Line -> bool {
    (line: Line) =>
      && line.Record? && !IsUnsigned(line) && v.key.Some?
      && var signature := Field(line, "signature");
         signature.Str? && v.wellEncoded(signature.s) && v.key.value.verifies(signature.s, SignedContent(line))
  }

  lemma StatusMeans(v: Verifier, line: Line)
    requires line.Record?
    ensures SignatureStatus(v, line) == Absent <==> IsUnsigned(line)
    ensures SignatureStatus(v, line) == Malformed || SignatureStatus(v, line) == Refuted <==> BadlySigned(v)(line)
    ensures SignatureStatus(v, line) == Verifies <==> WellSigned(v)(line)
  {
    hide SignedContent;
  }

  lemma {:induction false} StatusesCounted(v: Verifier, lines: seq<Line>, n: nat)
    requires n <= |lines|
    ensures CountStatus(v, lines, n, Absent) == |Positions(lines[..n], IsUnsigned)|
    ensures CountStatus(v, lines, n, Malformed) + CountStatus(v, lines, n, Refuted)
         == |Positions(lines[..n], BadlySigned(v))|
    ensures CountStatus(v, lines, n, Verifies) == |Positions(lines[..n], WellSigned(v))|
  {
    hide SignatureStatus, IsUnsigned, BadlySigned, WellSigned, Positions;
    if n == 0 {
      PositionsSnoc([], Blank, IsUnsigned);
      PositionsSnoc([], Blank, BadlySigned(v));
      PositionsSnoc([], Blank, WellSigned(v));
      assert lines[..0] == [];
    } else {
      var before, line := lines[..n - 1], lines[n - 1];
      assert lines[..n] == before + [line];
      StatusesCounted(v, lines, n - 1);
      PositionsSnoc(before, line, IsUnsigned);
      PositionsSnoc(before, line, BadlySigned(v));
      PositionsSnoc(before, line, WellSigned(v));
      if line.Record? {
        StatusMeans(v, line);
      } else {
        OnlyRecordsCount(v, line);
      }
    }
  }

  lemma OnlyRecordsCount(v: Verifier, line: Line)
    requires !line.Record?
    ensures !IsUnsigned(line) && !BadlySigned(v)(line) && !WellSigned(v)(line)
  {
  }

  /** The three signature counts of a report, each by the records it counts. */
  lemma SealCounts(v: Verifier, lines: seq<Line>)
    ensures var seals := SummaryOf(v, lines).state.seals;
            && seals.unsigned == |Positions(lines, IsUnsigned)|
            && seals.invalid == |Positions(lines, BadlySigned(v))|
            && seals.valid == |Positions(lines, WellSigned(v))|
  {
    hide CountStatus, Positions, AllBreaks, IsUnsigned, BadlySigned, WellSigned;
    StatusesCounted(v, lines, |lines|);
    assert lines[..|lines|] == lines;
  }

  // ----- what is noted against a line -----

  /** The order in which reasons are noted. */
  ghost function Rank(reason: Reason): int {
    match reason
    case DuplicateJsonKey => 0 case InvalidJson => 1 case NonObjectRecord => 2
    case HashMismatch => 3 case MissingHash => 4
    case MissingChainId => 5 case InvalidChainId => 6
    case ChainDiscontinuity => 7 case UnanchoredChainStart => 8
    case MissingSequence => 9 case InvalidSequence => 10
    case SequenceDiscontinuity => 11 case NonInitialSequenceStart => 12
    case MissingFingerprint => 13 case MissingSignature => 14
    case InvalidFingerprint => 15 case FingerprintMismatch => 16
    case InvalidSignatureEncoding => 17 case InvalidSignature => 18 case UnsignedRecord => 19
    case EmptyLog => 20 case MultipleChains(_) => 21
  }

  /** The chain a record belongs to; one without a chain id has a name of its own. */
  ghost function Chain(lines: seq<Line>, n: nat): string
    requires n < |lines| && lines[n].Record?
  {
    var chainId := Field(lines[n], "chain_id");
    if chainId.Str? && chainId.s != "" then chainId.s else "__invalid_chain_at_line_" + Decimal(n + 1)
  }

  ghost predicate Hashed(lines: seq<Line>, i: nat, chain: string) {
    i < |lines| && lines[i].Record? && Truthy(Field(lines[i], "hash")) && Chain(lines, i) == chain
  }

  /** Line `i` is the last one before `n` to record a hash in that chain. */
  ghost predicate LastHashed(lines: seq<Line>, n: nat, i: nat, chain: string) {
    i < n && Hashed(lines, i, chain) && forall j :: i < j < n ==> !Hashed(lines, j, chain)
  }

  /** `hash` is the last hash recorded in that chain before line `n`. */
  ghost predicate PriorHash(lines: seq<Line>, n: nat, chain: string, hash: Json) {
    exists i: nat :: i < n && LastHashed(lines, n, i, chain) && hash == Field(lines[i], "hash")
  }

  ghost predicate Numbers(j: Json) {
    j.Int? && j.i >= 1
  }

  ghost predicate Numbered(lines: seq<Line>, i: nat, chain: string) {
    i < |lines| && lines[i].Record? && Numbers(Field(lines[i], "sequence")) && Chain(lines, i) == chain
  }

  ghost predicate LastNumbered(lines: seq<Line>, n: nat, i: nat, chain: string) {
    i < n && Numbered(lines, i, chain) && forall j :: i < j < n ==> !Numbered(lines, j, chain)
  }

  /** `k` is the last sequence number recorded in that chain before line `n`. */
  ghost predicate PriorSequence(lines: seq<Line>, n: nat, chain: string, k: int) {
    exists i: nat :: i < n && LastNumbered(lines, n, i, chain) && k == Field(lines[i], "sequence").i
  }

  /** A record that may begin a chain: it points to 64 zeros, or to the initial hash it declares. */
  ghost predicate Anchors(line: Line)
    requires line.Record?
  {
    var previous, initial := Field(line, "previous_hash"), Field(line, "initial_hash");
    || (previous.Str? && |previous.s| == 64 && forall i :: 0 <= i < 64 ==> previous.s[i] == '0')
    || (Truthy(initial) && PyEq(previous, initial))
  }

  lemma AnchorIff(line: Line)
    requires line.Record?
    ensures IsChainAnchor(line) <==> Anchors(line)
  {
    var previous := Field(line, "previous_hash");
    StringsCompareExactly(GenesisHash(), previous);
    hide PyEq, Truthy, Field;
    assert |GenesisHash()| == 64 && forall i :: 0 <= i < 64 ==> GenesisHash()[i] == '0';
    if previous.Str? && |previous.s| == 64 && forall i :: 0 <= i < 64 ==> previous.s[i] == '0' {
      assert previous.s == GenesisHash();
    }
  }

  ghost predicate IsNothing(j: Json) {
    j == Null || j == Str("")
  }

  /** 64 lower-case hexadecimal digits. */
  ghost predicate IsHexDigest(j: Json) {
    j.Str? && |j.s| == 64 && forall c :: c in j.s ==> c in "0123456789abcdef"
  }

  lemma HexDigit(c: char)
    ensures c in "0123456789abcdef" <==> '0' <= c <= '9' || 'a' <= c <= 'f'
  {
    var digits := "0123456789abcdef";
    if '0' <= c <= '9' {
      assert digits[c as int - '0' as int] == c;
    } else if 'a' <= c <= 'f' {
      assert digits[c as int - 'a' as int + 10] == c;
    }
  }

  lemma FingerprintIff(j: Json)
    ensures IsFingerprint(j) <==> IsHexDigest(j)
  {
    forall c: char ensures c in "0123456789abcdef" <==> '0' <= c <= '9' || 'a' <= c <= 'f' {
      HexDigit(c);
    }
    if IsHexDigest(j) {
      forall i | 0 <= i < 64 ensures '0' <= j.s[i] <= '9' || 'a' <= j.s[i] <= 'f' {
        assert j.s[i] in j.s;
      }
    }
  }

  /** When each reason is noted against a line. */
  ghost predicate Noted(v: Verifier, lines: seq<Line>, n: nat, reason: Reason)
    requires n < |lines|
  {
    var line := lines[n];
    match reason
    case DuplicateJsonKey => line == RepeatedKey
    case InvalidJson => line == Unparsable
    case NonObjectRecord => line == NotAnObject
    case MissingHash => line.Record? && !Truthy(Field(line, "hash"))
    case HashMismatch =>
      line.Record? && Truthy(Field(line, "hash")) && Field(line, "hash") != Str(v.digest(HashedContent(line)))
    case MissingChainId => line.Record? && Field(line, "chain_id") == Null
    case InvalidChainId =>
      line.Record? && Field(line, "chain_id") != Null
      && (!Field(line, "chain_id").Str? || Field(line, "chain_id") == Str(""))
    case ChainDiscontinuity =>
      line.Record? && exists hash :: PriorHash(lines, n, Chain(lines, n), hash)
                                     && !PyEq(Field(line, "previous_hash"), hash)
    case UnanchoredChainStart =>
      line.Record? && (forall i :: 0 <= i < n ==> !Hashed(lines, i, Chain(lines, n))) && !Anchors(line)
    case MissingSequence => line.Record? && Field(line, "sequence") == Null
    case InvalidSequence =>
      line.Record? && Field(line, "sequence") != Null && !Numbers(Field(line, "sequence"))
    case SequenceDiscontinuity =>
      line.Record? && Numbers(Field(line, "sequence"))
      && exists k :: PriorSequence(lines, n, Chain(lines, n), k) && Field(line, "sequence").i != k + 1
    case NonInitialSequenceStart =>
      line.Record? && Numbers(Field(line, "sequence")) && Field(line, "sequence") != Int(1)
      && forall i :: 0 <= i < n ==> !Numbered(lines, i, Chain(lines, n))
    case MissingFingerprint =>
      line.Record? && !IsUnsigned(line) && IsNothing(Field(line, "public_key_fingerprint"))
    case MissingSignature =>
      line.Record? && IsUnsigned(line) && !IsNothing(Field(line, "public_key_fingerprint"))
    case InvalidFingerprint =>
      line.Record? && !IsNothing(Field(line, "public_key_fingerprint"))
      && !IsHexDigest(Field(line, "public_key_fingerprint"))
    case FingerprintMismatch =>
      line.Record? && IsHexDigest(Field(line, "public_key_fingerprint"))
      && v.key.Some? && Field(line, "public_key_fingerprint") != Str(v.key.value.fingerprint)
    case InvalidSignatureEncoding =>
      line.Record? && !IsUnsigned(line)
      && (!Field(line, "signature").Str? || !v.wellEncoded(Field(line, "signature").s))
    case InvalidSignature =>
      line.Record? && !IsUnsigned(line) && v.key.Some?
      && Field(line, "signature").Str? && v.wellEncoded(Field(line, "signature").s)
      && !v.key.value.verifies(Field(line, "signature").s, SignedContent(line))
    case UnsignedRecord => line.Record? && IsUnsigned(line) && v.key.Some?
    case EmptyLog => false
    case MultipleChains(_) => false
  }

  lemma ChainIs(lines: seq<Line>, n: nat)
    requires n < |lines| && lines[n].Record?
    ensures ChainKey(n + 1, lines[n]) == Chain(lines, n)
  {
  }

  /** The hash remembered for a chain is that of the last line to record one in it. */
  lemma {:induction false} PriorHashIs(lines: seq<Line>, n: nat, chain: string)
    requires n <= |lines|
    ensures var prior := Lookup(PriorHashes(lines, n), chain);
            if prior.Some?
            then PriorHash(lines, n, chain, prior.value)
            else forall i :: 0 <= i < n ==> !Hashed(lines, i, chain)
  {
    hide Truthy, Field, Chain, ChainKey;
    if n > 0 {
      PriorHashIs(lines, n - 1, chain);
      if lines[n - 1].Record? {
        ChainIs(lines, n - 1);
      }
      if Hashed(lines, n - 1, chain) {
        assert LastHashed(lines, n, n - 1, chain);
      } else if Lookup(PriorHashes(lines, n - 1), chain).Some? {
        var hash := PriorHashes(lines, n - 1)[chain];
        var i: nat :| i < n - 1 && LastHashed(lines, n - 1, i, chain) && hash == Field(lines[i], "hash");
        assert LastHashed(lines, n, i, chain);
      }
    }
  }

  lemma {:induction false} PriorSequenceIs(lines: seq<Line>, n: nat, chain: string)
    requires n <= |lines|
    ensures var prior := Lookup(PriorSequences(lines, n), chain);
            if prior.Some?
            then PriorSequence(lines, n, chain, prior.value)
            else forall i :: 0 <= i < n ==> !Numbered(lines, i, chain)
  {
    hide Field, Chain, ChainKey;
    if n > 0 {
      PriorSequenceIs(lines, n - 1, chain);
      if lines[n - 1].Record? {
        ChainIs(lines, n - 1);
      }
      if Numbered(lines, n - 1, chain) {
        assert LastNumbered(lines, n, n - 1, chain);
      } else if Lookup(PriorSequences(lines, n - 1), chain).Some? {
        var k := PriorSequences(lines, n - 1)[chain];
        var i: nat :| i < n - 1 && LastNumbered(lines, n - 1, i, chain) && k == Field(lines[i], "sequence").i;
        assert LastNumbered(lines, n, i, chain);
      }
    }
  }

  lemma PriorHashIsOne(lines: seq<Line>, n: nat, chain: string, hash: Json)
    requires PriorHash(lines, n, chain, hash)
    ensures exists i: nat :: i < n && Hashed(lines, i, chain)
    ensures forall other :: PriorHash(lines, n, chain, other) ==> other == hash
  {
    hide Hashed, Field;
  }

  lemma PriorSequenceIsOne(lines: seq<Line>, n: nat, chain: string, k: int)
    requires PriorSequence(lines, n, chain, k)
    ensures exists i: nat :: i < n && Numbered(lines, i, chain)
    ensures forall other :: PriorSequence(lines, n, chain, other) ==> other == k
  {
    hide Numbered, Field;
  }

  lemma NoPriorHash(lines: seq<Line>, n: nat, chain: string)
    requires forall j :: 0 <= j < n ==> !Hashed(lines, j, chain)
    ensures forall hash :: !PriorHash(lines, n, chain, hash)
  {
    hide Hashed, Field;
  }

  lemma NoPriorSequence(lines: seq<Line>, n: nat, chain: string)
    requires forall j :: 0 <= j < n ==> !Numbered(lines, j, chain)
    ensures forall k :: !PriorSequence(lines, n, chain, k)
  {
    hide Numbered, Field;
  }

  /** Reasons in the order they are noted, each at most once, and of these ranks. */
  ghost predicate Ranked(reasons: seq<Reason>, lo: int, hi: int) {
    && (forall i, j :: 0 <= i < j < |reasons| ==> Rank(reasons[i]) < Rank(reasons[j]))
    && (forall i :: 0 <= i < |reasons| ==> lo <= Rank(reasons[i]) < hi)
  }

  lemma RankedJoin(a: seq<Reason>, b: seq<Reason>, lo: int, mid: int, hi: int)
    requires Ranked(a, lo, mid) && Ranked(b, mid, hi) && lo <= mid <= hi
    ensures Ranked(a + b, lo, hi)
  {
    hide Rank;
  }

  /** `reasons` are the ones of these ranks that are noted. */
  ghost predicate Says(v: Verifier, lines: seq<Line>, n: nat, reasons: seq<Reason>, lo: int, hi: int)
    requires n < |lines|
  {
    && Ranked(reasons, lo, hi)
    && forall reason :: lo <= Rank(reason) < hi ==> (reason in reasons <==> Noted(v, lines, n, reason))
  }

  lemma HashNoted(v: Verifier, lines: seq<Line>, n: nat)
    requires n < |lines| && lines[n].Record?
    ensures Says(v, lines, n, HashReasons(v, lines[n]), 3, 5)
  {
    hide Field, Truthy, HashedContent, Chain;
    StringsCompareExactly(v.digest(HashedContent(lines[n])), Field(lines[n], "hash"));
  }

  lemma ChainIdNoted(v: Verifier, lines: seq<Line>, n: nat)
    requires n < |lines| && lines[n].Record?
    ensures Says(v, lines, n, ChainIdReasons(lines[n]), 5, 7)
  {
    hide Field;
  }

  lemma {:induction false} LinkNoted(v: Verifier, lines: seq<Line>, n: nat)
    requires n < |lines| && lines[n].Record?
    ensures Says(v, lines, n, LinkReasons(Lookup(PriorHashes(lines, n), ChainKey(n + 1, lines[n])), lines[n]), 7, 9)
  {
    hide Field, Chain, Hashed, Anchors, IsChainAnchor, PriorHashes, ChainKey, PyEq, PriorHash, Lookup;
    var chain := Chain(lines, n);
    ChainIs(lines, n);
    PriorHashIs(lines, n, chain);
    AnchorIff(lines[n]);
    var prior := Lookup(PriorHashes(lines, n), chain);
    if prior.Some? {
      PriorHashIsOne(lines, n, chain, prior.value);
    } else {
      NoPriorHash(lines, n, chain);
    }
  }

  lemma {:induction false} SequenceNoted(v: Verifier, lines: seq<Line>, n: nat)
    requires n < |lines| && lines[n].Record?
    ensures Says(v, lines, n, SequenceReasons(Lookup(PriorSequences(lines, n), ChainKey(n + 1, lines[n])), lines[n]),
                 9, 13)
  {
    hide Field, Chain, Numbered, PriorSequences, ChainKey, PriorSequence, Lookup, Truthy, PyEq, Hashed, Anchors;
    var chain := Chain(lines, n);
    ChainIs(lines, n);
    PriorSequenceIs(lines, n, chain);
    var prior := Lookup(PriorSequences(lines, n), chain);
    if prior.Some? {
      PriorSequenceIsOne(lines, n, chain, prior.value);
    } else {
      NoPriorSequence(lines, n, chain);
    }
  }

  lemma MissingNoted(v: Verifier, lines: seq<Line>, n: nat)
    requires n < |lines| && lines[n].Record?
    ensures var unnamed := IsNothing(Field(lines[n], "public_key_fingerprint"));
            && Says(v, lines, n, if !IsUnsigned(lines[n]) && unnamed then [MissingFingerprint] else [], 13, 14)
            && Says(v, lines, n, if IsUnsigned(lines[n]) && !unnamed then [MissingSignature] else [], 14, 15)
  {
    hide Field, IsHexDigest, Chain, Truthy, PyEq, Hashed, Anchors, PriorHash, Numbers, PriorSequence, SignedContent;
    hide IsNothing, IsUnsigned;
  }

  lemma WrongFingerprintNoted(v: Verifier, lines: seq<Line>, n: nat)
    requires n < |lines| && lines[n].Record?
    ensures var fingerprint := Field(lines[n], "public_key_fingerprint");
            Says(v, lines, n,
                 if !IsNothing(fingerprint) && !IsHexDigest(fingerprint) then [InvalidFingerprint]
                 else if IsHexDigest(fingerprint) && v.key.Some? && fingerprint != Str(v.key.value.fingerprint) then
                   [FingerprintMismatch]
                 else [], 15, 17)
  {
    hide Field, IsHexDigest, Chain, Truthy, PyEq, Hashed, Anchors, PriorHash, Numbers, PriorSequence, SignedContent;
    hide IsNothing, IsUnsigned;
    NothingIsNoDigest(Field(lines[n], "public_key_fingerprint"));
  }

  lemma FingerprintNoted(v: Verifier, lines: seq<Line>, n: nat)
    requires n < |lines| && lines[n].Record?
    ensures Says(v, lines, n, FingerprintReasons(v, lines[n]), 13, 17)
  {
    hide Field, IsHexDigest, IsFingerprint, Says;
    var line, fingerprint := lines[n], Field(lines[n], "public_key_fingerprint");
    FingerprintIff(fingerprint);
    NothingIsNoDigest(fingerprint);
    MissingNoted(v, lines, n);
    WrongFingerprintNoted(v, lines, n);
    var a := if !IsUnsigned(line) && IsNothing(fingerprint) then [MissingFingerprint] else [];
    var b := if IsUnsigned(line) && !IsNothing(fingerprint) then [MissingSignature] else [];
    var c := if !IsNothing(fingerprint) && !IsHexDigest(fingerprint) then [InvalidFingerprint]
             else if IsHexDigest(fingerprint) && v.key.Some? && fingerprint != Str(v.key.value.fingerprint) then
               [FingerprintMismatch]
             else [];
    SaysJoin(v, lines, n, a, b, 13, 14, 15);
    SaysJoin(v, lines, n, a + b, c, 13, 15, 17);
    assert FingerprintReasons(v, line) == a + b + c;
  }

  lemma NothingIsNoDigest(j: Json)
    ensures IsHexDigest(j) ==> !IsNothing(j)
  {
  }

  lemma SignatureNoted(v: Verifier, lines: seq<Line>, n: nat)
    requires n < |lines| && lines[n].Record?
    ensures Says(v, lines, n, SignatureReasons(v, lines[n]), 17, 20)
  {
    hide Field, SignedContent;
  }

  lemma SaysJoin(v: Verifier, lines: seq<Line>, n: nat, a: seq<Reason>, b: seq<Reason>, lo: int, mid: int, hi: int)
    requires n < |lines| && lo <= mid <= hi
    requires Says(v, lines, n, a, lo, mid) && Says(v, lines, n, b, mid, hi)
    ensures Says(v, lines, n, a + b, lo, hi)
  {
    hide Noted, Rank;
    RankedJoin(a, b, lo, mid, hi);
    forall reason | lo <= Rank(reason) < hi ensures reason in a + b <==> Noted(v, lines, n, reason) {
      InJoin(a, b, reason);
      if Rank(reason) < mid {
        NotRanked(b, mid, hi, reason);
      } else {
        NotRanked(a, lo, mid, reason);
      }
    }
  }

  lemma InJoin<T>(a: seq<T>, b: seq<T>, x: T)
    ensures x in a + b <==> x in a || x in b
  {
  }

  lemma NotRanked(reasons: seq<Reason>, lo: int, hi: int, reason: Reason)
    requires Ranked(reasons, lo, hi) && !(lo <= Rank(reason) < hi)
    ensures reason !in reasons
  {
    hide Rank;
  }

  /** Against every line exactly the reasons that apply are noted, each once and in this order. */
  lemma LineReasonsAre(v: Verifier, lines: seq<Line>, n: nat)
    requires n < |lines|
    ensures Says(v, lines, n, LineReasons(v, lines, n), 0, 22)
  {
    if lines[n].Record? {
      RecordReasonsAre(v, lines, n);
    } else {
      OtherReasonsAre(v, lines, n);
    }
  }

  lemma OtherReasonsAre(v: Verifier, lines: seq<Line>, n: nat)
    requires n < |lines| && !lines[n].Record?
    ensures Says(v, lines, n, LineReasons(v, lines, n), 0, 22)
  {
    hide Chain, Field;
  }

  lemma NoOthers(v: Verifier, lines: seq<Line>, n: nat)
    requires n < |lines| && lines[n].Record?
    ensures Says(v, lines, n, [], 0, 3) && Says(v, lines, n, [], 20, 22)
  {
    hide Chain, Field;
  }

  lemma RecordReasonsAre(v: Verifier, lines: seq<Line>, n: nat)
    requires n < |lines| && lines[n].Record?
    ensures Says(v, lines, n, LineReasons(v, lines, n), 0, 22)
  {
    hide HashReasons, ChainIdReasons, LinkReasons, SequenceReasons, FingerprintReasons, SignatureReasons;
    hide Says, ChainKey, PriorHashes, PriorSequences, Lookup;
    var r, key := lines[n], ChainKey(n + 1, lines[n]);
    var link := LinkReasons(Lookup(PriorHashes(lines, n), key), r);
    var step := SequenceReasons(Lookup(PriorSequences(lines, n), key), r);
    NoOthers(v, lines, n);
    HashNoted(v, lines, n);
    ChainIdNoted(v, lines, n);
    LinkNoted(v, lines, n);
    SequenceNoted(v, lines, n);
    FingerprintNoted(v, lines, n);
    SignatureNoted(v, lines, n);
    SaysJoin(v, lines, n, [], HashReasons(v, r), 0, 3, 5);
    var all := [] + HashReasons(v, r);
    SaysJoin(v, lines, n, all, ChainIdReasons(r), 0, 5, 7);
    all := all + ChainIdReasons(r);
    SaysJoin(v, lines, n, all, link, 0, 7, 9);
    all := all + link;
    SaysJoin(v, lines, n, all, step, 0, 9, 13);
    all := all + step;
    SaysJoin(v, lines, n, all, FingerprintReasons(v, r), 0, 13, 17);
    all := all + FingerprintReasons(v, r);
    SaysJoin(v, lines, n, all, SignatureReasons(v, r), 0, 17, 20);
    all := all + SignatureReasons(v, r);
    SaysJoin(v, lines, n, all, [], 0, 20, 22);
    assert all + [] == all == LineReasons(v, lines, n);
  }

  // ----- the breaks of a report -----

  /** The event a break names: the record's own, or `UNKNOWN`; none when there is no record. */
  ghost function EventNamed(line: Line): Option<Json> {
    if !line.Record? then None
    else if "event" in line.fields then Some(line.fields["event"])
    else Some(Str("UNKNOWN"))
  }

  ghost predicate IsChainId(lines: seq<Line>, id: string) {
    exists i :: 0 <= i < |lines| && lines[i].Record? && Field(lines[i], "chain_id") == Str(id) && id != ""
  }

  ghost predicate AreChainIds(lines: seq<Line>, ids: set<string>) {
    forall id :: id in ids <==> IsChainId(lines, id)
  }

  /** What a break of the report may be: one noted against a line, or one on the log as a whole. */
  ghost predicate IsBreak(v: Verifier, lines: seq<Line>, b: Break) {
    if b.line > 0 then
      && b.line <= |lines| && Noted(v, lines, b.line - 1, b.reason) && b.event == EventNamed(lines[b.line - 1])
    else
      && b.event == None
      && match b.reason
         case EmptyLog => forall i :: 0 <= i < |lines| ==> !lines[i].Record?
         case MultipleChains(k) =>
           k > 1 && exists ids :: AreChainIds(lines, ids) && |ids| == k
         case _ => false
  }

  /** Breaks come by line and, within one, by rank; those on the whole log come last. */
  ghost predicate Precedes(a: Break, b: Break) {
    || (a.line == b.line && Rank(a.reason) < Rank(b.reason))
    || (a.line > 0 && (b.line == 0 || a.line < b.line))
  }

  ghost predicate InOrder(breaks: seq<Break>) {
    forall i, j :: 0 <= i < j < |breaks| ==> Precedes(breaks[i], breaks[j])
  }

  lemma TagIs(line: nat, event: Option<Json>, reasons: seq<Reason>)
    requires Ranked(reasons, 0, 22)
    ensures InOrder(Tag(line, event, reasons))
    ensures forall b :: b in Tag(line, event, reasons) <==> b.line == line && b.event == event && b.reason in reasons
  {
    hide Rank;
    var tagged := Tag(line, event, reasons);
    forall b ensures b in tagged <==> b.line == line && b.event == event && b.reason in reasons {
      if b.line == line && b.event == event && b.reason in reasons {
        var i :| 0 <= i < |reasons| && reasons[i] == b.reason;
        assert tagged[i] == b;
      }
    }
  }

  lemma InOrderJoin(a: seq<Break>, b: seq<Break>)
    requires InOrder(a) && InOrder(b) && forall x, y :: x in a && y in b ==> Precedes(x, y)
    ensures InOrder(a + b)
  {
    hide Precedes;
    var all := a + b;
    forall i, j | 0 <= i < j < |all| ensures Precedes(all[i], all[j]) {
      if i < |a| <= j {
        assert all[i] in a && all[j] in b;
      }
    }
  }

  /** A break noted against one of the first `n` lines. */
  ghost predicate BreakUpTo(v: Verifier, lines: seq<Line>, n: nat, b: Break) {
    0 < b.line <= n && IsBreak(v, lines, b)
  }

  lemma {:induction false} BreaksAre(v: Verifier, lines: seq<Line>, n: nat)
    requires n <= |lines|
    ensures InOrder(Breaks(v, lines, n))
    ensures forall b :: b in Breaks(v, lines, n) <==> BreakUpTo(v, lines, n, b)
  {
    hide Noted, LineReasons, Tag, Rank;
    if n > 0 {
      BreaksAre(v, lines, n - 1);
      LineReasonsAre(v, lines, n - 1);
      var before, reasons := Breaks(v, lines, n - 1), LineReasons(v, lines, n - 1);
      var event := EventOf(lines[n - 1]);
      TagIs(n, event, reasons);
      InOrderJoin(before, Tag(n, event, reasons));
      assert event == EventNamed(lines[n - 1]);
      forall b ensures b in Breaks(v, lines, n) <==> BreakUpTo(v, lines, n, b) {
        RankBounds(b.reason);
        InJoin(before, Tag(n, event, reasons), b);
      }
    }
  }

  lemma RankBounds(reason: Reason)
    ensures 0 <= Rank(reason) < 22
  {
  }

  lemma {:induction false} ChainIdsAre(lines: seq<Line>, n: nat, id: string)
    requires n <= |lines|
    ensures id in ChainIds(lines, n) <==> IsChainId(lines[..n], id)
  {
    hide Field;
    if n > 0 {
      ChainIdsAre(lines, n - 1, id);
      assert lines[..n] == lines[..n - 1] + [lines[n - 1]];
    }
  }

  lemma {:induction false} NoRecordsIff(lines: seq<Line>, n: nat)
    requires n <= |lines|
    ensures Records(lines, n) == [] <==> forall i :: 0 <= i < n ==> !lines[i].Record?
  {
    if n > 0 {
      NoRecordsIff(lines, n - 1);
    }
  }

  lemma FinalBreaksAre(lines: seq<Line>, v: Verifier)
    ensures InOrder(FinalBreaks(lines))
    ensures forall b :: b in FinalBreaks(lines) <==> b.line == 0 && IsBreak(v, lines, b)
  {
    hide Noted, Records, ChainIds, Tag, IsChainId;
    var ids, count := ChainIds(lines, |lines|), |ChainIds(lines, |lines|)|;
    NoRecordsIff(lines, |lines|);
    forall id ensures id in ids <==> IsChainId(lines, id) {
      ChainIdsAre(lines, |lines|, id);
      assert lines[..|lines|] == lines;
    }
    assert AreChainIds(lines, ids);
    forall other | AreChainIds(lines, other) ensures other == ids {
    }
    var reasons := (if AllRecords(lines) == [] then [EmptyLog] else [])
                   + if count > 1 then [MultipleChains(count)] else [];
    TagIs(0, None, reasons);
    forall b ensures b in FinalBreaks(lines) <==> b.line == 0 && IsBreak(v, lines, b) {
      if b.line == 0 && b.event == None && b.reason.MultipleChains? {
        assert IsBreak(v, lines, b) <==> b.reason == MultipleChains(count) && count > 1;
      }
    }
  }

  /** The breaks of a report: exactly those that apply, each once, in the order of the lines and the checks. */
  lemma BreaksOfReport(v: Verifier, lines: seq<Line>)
    ensures var breaks := SummaryOf(v, lines).state.notes.breaks;
            InOrder(breaks) && forall b :: b in breaks <==> IsBreak(v, lines, b)
  {
    hide Noted, Breaks, FinalBreaks, IsChainId, Unanchored;
    BreaksAre(v, lines, |lines|);
    FinalBreaksAre(lines, v);
    InOrderJoin(Breaks(v, lines, |lines|), FinalBreaks(lines));
    forall b ensures b in AllBreaks(v, lines) <==> IsBreak(v, lines, b) {
      InJoin(Breaks(v, lines, |lines|), FinalBreaks(lines), b);
      NoLaterBreak(v, lines, b);
    }
  }

  lemma NoLaterBreak(v: Verifier, lines: seq<Line>, b: Break)
    ensures IsBreak(v, lines, b) <==> BreakUpTo(v, lines, |lines|, b) || (b.line == 0 && IsBreak(v, lines, b))
  {
    hide Noted, IsChainId;
  }

  // ----- the other fields -----

  ghost predicate IsRecord(line: Line) {
    line.Record?
  }

  /** Records that hold a value under a name, or lack the name where that value is the default. */
  ghost function Holding(name: string, default: Json, key: Json): Line -> bool {
    (line: Line) => line.Record? && AsKey(if name in line.fields then line.fields[name] else default) == key
  }

  lemma {:induction false} CountsAre(lines: seq<Line>, n: nat, name: string, default: Json, key: Json)
    requires n <= |lines|
    ensures var counts := CountsBy(lines, n, name, default);
            && CountIn(counts, key) == |Positions(lines[..n], Holding(name, default, key))|
            && (key in counts <==> CountIn(counts, key) > 0)
  {
    hide AsKey, Positions, Holding;
    if n == 0 {
      PositionsSnoc([], Blank, Holding(name, default, key));
      assert lines[..0] == [];
    } else {
      var before, line := lines[..n - 1], lines[n - 1];
      assert lines[..n] == before + [line];
      CountsAre(lines, n - 1, name, default, key);
      PositionsSnoc(before, line, Holding(name, default, key));
      HoldingIs(line, name, default, key);
    }
  }

  lemma HoldingIs(line: Line, name: string, default: Json, key: Json)
    ensures Holding(name, default, key)(line) <==> line.Record? && AsKey(FieldOr(line, name, default)) == key
  {
    hide AsKey;
  }

  lemma {:induction false} RecordsCounted(lines: seq<Line>, n: nat)
    requires n <= |lines|
    ensures |Records(lines, n)| == |Positions(lines[..n], IsRecord)|
  {
    hide Positions;
    if n == 0 {
      PositionsSnoc([], Blank, IsRecord);
      assert lines[..0] == [];
    } else {
      assert lines[..n] == lines[..n - 1] + [lines[n - 1]];
      RecordsCounted(lines, n - 1);
      PositionsSnoc(lines[..n - 1], lines[n - 1], IsRecord);
    }
  }

  /** How many events there were, and how many of each name and severity. */
  lemma TallyOfReport(v: Verifier, lines: seq<Line>, key: Json)
    ensures var tally := SummaryOf(v, lines).state.tally;
            && tally.total == |Positions(lines, IsRecord)|
            && CountIn(tally.events, key) == |Positions(lines, Holding("event", Str("UNKNOWN"), key))|
            && CountIn(tally.severities, key) == |Positions(lines, Holding("severity", Str("INFO"), key))|
            && (key in tally.events <==> CountIn(tally.events, key) > 0)
            && (key in tally.severities <==> CountIn(tally.severities, key) > 0)
  {
    hide AllBreaks, Positions, Holding, CountsBy, CountIn, Records;
    RecordsCounted(lines, |lines|);
    CountsAre(lines, |lines|, "event", Str("UNKNOWN"), key);
    CountsAre(lines, |lines|, "severity", Str("INFO"), key);
    assert lines[..|lines|] == lines;
  }

  ghost predicate FirstOf(lines: seq<Line>, i: nat, p: Line -> bool) {
    i < |lines| && p(lines[i]) && forall j :: 0 <= j < i ==> !p(lines[j])
  }

  ghost predicate LastOf(lines: seq<Line>, i: nat, p: Line -> bool) {
    i < |lines| && p(lines[i]) && forall j :: i < j < |lines| ==> !p(lines[j])
  }

  ghost predicate IsNumbered(line: Line) {
    line.Record? && Numbers(Field(line, "sequence"))
  }

  ghost predicate IsHashed(line: Line) {
    line.Record? && Truthy(Field(line, "hash"))
  }

  lemma {:induction false} TerminalIs(lines: seq<Line>, n: nat, i: nat)
    requires n <= |lines|
    ensures LastOf(lines[..n], i, IsHashed) ==> TerminalHash(lines, n) == Field(lines[i], "hash")
    ensures (forall j :: 0 <= j < n ==> !IsHashed(lines[j])) ==> TerminalHash(lines, n) == Null
  {
    hide Truthy, Field;
    if n > 0 {
      TerminalIs(lines, n - 1, i);
    }
  }

  lemma {:induction false} FirstSequenceIs(lines: seq<Line>, n: nat, i: nat)
    requires n <= |lines|
    ensures i < n && FirstOf(lines, i, IsNumbered) ==> FirstSequence(lines, n) == Some(Field(lines[i], "sequence").i)
    ensures (forall j :: 0 <= j < n ==> !IsNumbered(lines[j])) ==> FirstSequence(lines, n) == None
  {
    hide Field;
    if n > 0 {
      FirstSequenceIs(lines, n - 1, i);
    }
  }

  lemma {:induction false} LastSequenceIs(lines: seq<Line>, n: nat, i: nat)
    requires n <= |lines|
    ensures LastOf(lines[..n], i, IsNumbered) ==> LastSequence(lines, n) == Some(Field(lines[i], "sequence").i)
    ensures (forall j :: 0 <= j < n ==> !IsNumbered(lines[j])) ==> LastSequence(lines, n) == None
  {
    hide Field;
    if n > 0 {
      LastSequenceIs(lines, n - 1, i);
    }
  }

  /** The first and last sequence numbers of a report, and its last hash. */
  lemma EndsOfReport(v: Verifier, lines: seq<Line>, first: nat, last: nat)
    ensures var order := SummaryOf(v, lines).state.order;
            && (FirstOf(lines, first, IsNumbered) ==> order.first == Some(Field(lines[first], "sequence").i))
            && (LastOf(lines, last, IsNumbered) ==> order.last == Some(Field(lines[last], "sequence").i))
            && ((forall j :: 0 <= j < |lines| ==> !IsNumbered(lines[j])) ==> order.first == None == order.last)
    ensures var terminal := SummaryOf(v, lines).state.links.terminal;
            && (LastOf(lines, last, IsHashed) ==> terminal == Field(lines[last], "hash"))
            && ((forall j :: 0 <= j < |lines| ==> !IsHashed(lines[j])) ==> terminal == Null)
  {
    hide AllBreaks, Field, IsNumbered, IsHashed;
    var n := |lines|;
    assert lines[..n] == lines;
    TerminalIs(lines, n, last);
    FirstSequenceIs(lines, n, first);
    LastSequenceIs(lines, n, last);
  }

  lemma TimesOfReport(v: Verifier, lines: seq<Line>, first: nat, last: nat)
    ensures var tally := SummaryOf(v, lines).state.tally;
            && (FirstOf(lines, first, IsStamped) ==> tally.firstTimestamp == Field(lines[first], "timestamp"))
            && (LastOf(lines, last, IsStamped) ==> tally.lastTimestamp == Field(lines[last], "timestamp"))
            && ((forall j :: 0 <= j < |lines| ==> !IsStamped(lines[j])) ==>
                  tally.firstTimestamp == Null == tally.lastTimestamp)
  {
    hide AllBreaks, Field, IsStamped, FirstTimestamp, LastTimestamp;
    var n := |lines|;
    if FirstOf(lines, first, IsStamped) {
      FirstStamp(lines, n, first);
    }
    if LastOf(lines, last, IsStamped) {
      LastStamp(lines, n, last);
    }
    if forall j :: 0 <= j < n ==> !IsStamped(lines[j]) {
      NoTimestamps(lines, n);
    }
  }

  lemma {:induction false} FingerprintsAre(lines: seq<Line>, n: nat, fingerprint: string)
    requires n <= |lines|
    ensures fingerprint in Fingerprints(lines, n) <==>
              && IsHexDigest(Str(fingerprint))
              && exists i :: 0 <= i < n && lines[i].Record?
                             && Field(lines[i], "public_key_fingerprint") == Str(fingerprint)
  {
    hide Field, IsHexDigest, IsFingerprint;
    FingerprintIff(Str(fingerprint));
    NothingIsNoDigest(Str(fingerprint));
    if n > 0 {
      FingerprintsAre(lines, n - 1, fingerprint);
      if lines[n - 1].Record? && Field(lines[n - 1], "public_key_fingerprint").Str? {
        FingerprintIff(Field(lines[n - 1], "public_key_fingerprint"));
      }
      NoDigest(lines[n - 1]);
    }
  }

  lemma NoDigest(line: Line)
    ensures line.Record? && IsFingerprint(Field(line, "public_key_fingerprint")) ==>
              Field(line, "public_key_fingerprint").Str?
  {
    hide Field;
  }

  /** The chain ids and fingerprints a report lists are exactly those seen. */
  lemma NamesOfReport(v: Verifier, lines: seq<Line>, name: string)
    ensures name in SummaryOf(v, lines).state.links.ids <==> IsChainId(lines, name)
    ensures name in SummaryOf(v, lines).state.seals.fingerprints <==>
              && IsHexDigest(Str(name))
              && exists i :: 0 <= i < |lines| && lines[i].Record?
                             && Field(lines[i], "public_key_fingerprint") == Str(name)
  {
    hide AllBreaks, Field, IsHexDigest, Fingerprints, ChainIds, IsChainId;
    ChainIdsAre(lines, |lines|, name);
    FingerprintsAre(lines, |lines|, name);
    assert lines[..|lines|] == lines;
  }

  ghost predicate SaysUnanchored(b: Break) { b.reason == UnanchoredChainStart }

  lemma {:induction false} UnanchoredAre(breaks: seq<Break>)
    ensures Unanchored(breaks) == |Positions(breaks, SaysUnanchored)|
  {
    hide Positions;
    if breaks == [] {
      PositionsSnoc([], Break(0, EmptyLog, None), SaysUnanchored);
    } else {
      var n := |breaks| - 1;
      UnanchoredAre(breaks[..n]);
      PositionsSnoc(breaks[..n], breaks[n], SaysUnanchored);
      assert breaks == breaks[..n] + [breaks[n]];
    }
  }

  /** The verdicts of a report, and when there is none. */
  lemma VerdictsOfReport(v: Verifier, lines: seq<Line>)
    ensures var report, breaks := SummaryOf(v, lines), SummaryOf(v, lines).state.notes.breaks;
            && (report.state.notes.chainValid <==> breaks == [])
            && report.state.notes.unanchored == |Positions(breaks, SaysUnanchored)|
            && (report.signatureChecked <==> v.key.Some?)
            && (report.authenticityVerified <==>
                  && v.key.Some? && breaks == []
                  && (exists i :: 0 <= i < |lines| && WellSigned(v)(lines[i]))
                  && (forall i :: 0 <= i < |lines| ==> !BadlySigned(v)(lines[i]) && !IsUnsigned(lines[i])))
    ensures OutcomeOf(v, lines) == Verified(SummaryOf(v, lines))
            || (OutcomeOf(v, lines) == Raised
                && exists i :: 0 <= i < |lines| && lines[i].Record? && Uncountable(lines[i]))
    ensures OutcomeOf(v, lines).Verified? ==>
              forall i :: 0 <= i < |lines| && lines[i].Record? ==> !Uncountable(lines[i])
  {
    hide AllBreaks, IsUnsigned, BadlySigned, WellSigned, Uncountable, Countable, CountStatus;
    SealCounts(v, lines);
    UnanchoredAre(AllBreaks(v, lines));
    PositionsNone(lines, IsUnsigned);
    PositionsNone(lines, BadlySigned(v));
    PositionsNone(lines, WellSigned(v));
    CountableMeansAll(lines, |lines|);
    forall i | 0 <= i < |lines| ensures Countable(lines[i]) <==> !(lines[i].Record? && Uncountable(lines[i])) {
      CountableIff(lines[i]);
    }
  }

  lemma PositionsNone<T>(s: seq<T>, p: T -> bool)
    ensures |Positions(s, p)| == 0 <==> forall i :: 0 <= i < |s| ==> !p(s[i])
  {
    if i :| 0 <= i < |s| && p(s[i]) {
      assert i in Positions(s, p);
    }
    if forall i :: 0 <= i < |s| ==> !p(s[i]) {
      assert Positions(s, p) == {};
    }
  }

  /** A record whose event or severity is a list or an object. */
  ghost predicate Uncountable(line: Line)
    requires line.Record?
  {
    || Field(line, "event").Arr? || Field(line, "event").Obj?
    || Field(line, "severity").Arr? || Field(line, "severity").Obj?
  }

  lemma CountableIff(line: Line)
    ensures Countable(line) <==> !(line.Record? && Uncountable(line))
  {
  }

  // ----- under a key, the signature counts are counts of breaks -----

  ghost predicate SaysUnsigned(b: Break) { b.reason == UnsignedRecord }

  ghost predicate SaysInvalid(b: Break) { b.reason == InvalidSignatureEncoding || b.reason == InvalidSignature }

  lemma {:induction false} PositionsJoin<T>(a: seq<T>, b: seq<T>, p: T -> bool)
    ensures |Positions(a + b, p)| == |Positions(a, p)| + |Positions(b, p)|
    decreases b
  {
    hide Positions;
    if b == [] {
      assert a + b == a;
      PositionsNone(b, p);
    } else {
      var n := |b| - 1;
      assert a + b == a + b[..n] + [b[n]] && b == b[..n] + [b[n]];
      PositionsJoin(a, b[..n], p);
      PositionsSnoc(a + b[..n], b[n], p);
      PositionsSnoc(b[..n], b[n], p);
    }
  }

  lemma PositionsOne<T>(s: seq<T>, p: T -> bool, i: nat)
    requires i < |s| && p(s[i]) && forall j :: 0 <= j < |s| && p(s[j]) ==> j == i
    ensures |Positions(s, p)| == 1
  {
    assert Positions(s, p) == {i as int};
  }

  /** Of breaks in order, at most one of each kind is noted against one line. */
  lemma AtMostOneKind(breaks: seq<Break>, line: nat, p: Break -> bool, i: nat)
    requires InOrder(breaks) && i < |breaks| && p(breaks[i])
    requires forall b :: b in breaks ==> b.line == line
    requires forall b, c :: b in breaks && c in breaks && p(b) && p(c) ==> Rank(b.reason) == Rank(c.reason)
    ensures |Positions(breaks, p)| == 1
  {
    hide Rank;
    forall j | 0 <= j < |breaks| && p(breaks[j]) ensures j == i {
      assert Rank(breaks[j].reason) == Rank(breaks[i].reason);
    }
    PositionsOne(breaks, p, i);
  }

  lemma {:induction false} SealBreaksCounted(v: Verifier, lines: seq<Line>, n: nat)
    requires n <= |lines| && v.key.Some?
    ensures |Positions(Breaks(v, lines, n), SaysUnsigned)| == |Positions(lines[..n], IsUnsigned)|
    ensures |Positions(Breaks(v, lines, n), SaysInvalid)| == |Positions(lines[..n], BadlySigned(v))|
  {
    hide Positions, Noted, LineReasons, Tag, IsUnsigned, BadlySigned, SaysUnsigned, SaysInvalid;
    if n == 0 {
      PositionsNone(lines[..0], IsUnsigned);
      PositionsNone(lines[..0], BadlySigned(v));
      PositionsNone(Breaks(v, lines, 0), SaysUnsigned);
      PositionsNone(Breaks(v, lines, 0), SaysInvalid);
    } else {
      var before, line := lines[..n - 1], lines[n - 1];
      var noted := Tag(n, EventOf(line), LineReasons(v, lines, n - 1));
      assert lines[..n] == before + [line];
      SealBreaksCounted(v, lines, n - 1);
      PositionsSnoc(before, line, IsUnsigned);
      PositionsSnoc(before, line, BadlySigned(v));
      PositionsJoin(Breaks(v, lines, n - 1), noted, SaysUnsigned);
      PositionsJoin(Breaks(v, lines, n - 1), noted, SaysInvalid);
      UnsignedNoted(v, lines, n - 1);
      InvalidNoted(v, lines, n - 1);
    }
  }

  lemma UnsignedNoted(v: Verifier, lines: seq<Line>, n: nat)
    requires n < |lines| && v.key.Some?
    ensures var noted := Tag(n + 1, EventOf(lines[n]), LineReasons(v, lines, n));
            |Positions(noted, SaysUnsigned)| == if IsUnsigned(lines[n]) then 1 else 0
  {
    hide Positions, LineReasons, Tag, IsUnsigned, Rank, Noted;
    var reasons := LineReasons(v, lines, n);
    var noted := Tag(n + 1, EventOf(lines[n]), reasons);
    LineReasonsAre(v, lines, n);
    TagIs(n + 1, EventOf(lines[n]), reasons);
    UnsignedIff(v, lines, n);
    RankBounds(UnsignedRecord);
    if IsUnsigned(lines[n]) {
      assert Break(n + 1, UnsignedRecord, EventOf(lines[n])) in noted;
      var i :| 0 <= i < |noted| && noted[i].reason == UnsignedRecord;
      AtMostOneKind(noted, n + 1, SaysUnsigned, i);
    } else {
      forall i | 0 <= i < |noted| ensures !SaysUnsigned(noted[i]) {
        assert noted[i] in noted;
      }
      PositionsNone(noted, SaysUnsigned);
    }
  }

  lemma UnsignedIff(v: Verifier, lines: seq<Line>, n: nat)
    requires n < |lines| && v.key.Some?
    ensures Noted(v, lines, n, UnsignedRecord) <==> IsUnsigned(lines[n])
  {
    hide Field;
  }

  lemma InvalidIff(v: Verifier, lines: seq<Line>, n: nat)
    requires n < |lines| && v.key.Some?
    ensures Noted(v, lines, n, InvalidSignatureEncoding) || Noted(v, lines, n, InvalidSignature)
            <==> BadlySigned(v)(lines[n])
    ensures !(Noted(v, lines, n, InvalidSignatureEncoding) && Noted(v, lines, n, InvalidSignature))
  {
    hide Field, SignedContent;
  }

  lemma InvalidNoted(v: Verifier, lines: seq<Line>, n: nat)
    requires n < |lines| && v.key.Some?
    ensures var noted := Tag(n + 1, EventOf(lines[n]), LineReasons(v, lines, n));
            |Positions(noted, SaysInvalid)| == if BadlySigned(v)(lines[n]) then 1 else 0
  {
    hide Positions, LineReasons, Tag, BadlySigned, Rank, Noted;
    var reasons := LineReasons(v, lines, n);
    var noted := Tag(n + 1, EventOf(lines[n]), reasons);
    LineReasonsAre(v, lines, n);
    TagIs(n + 1, EventOf(lines[n]), reasons);
    InvalidIff(v, lines, n);
    RankBounds(InvalidSignature);
    RankBounds(InvalidSignatureEncoding);
    if BadlySigned(v)(lines[n]) {
      var reason := if Noted(v, lines, n, InvalidSignature) then InvalidSignature else InvalidSignatureEncoding;
      assert Break(n + 1, reason, EventOf(lines[n])) in noted;
      var i :| 0 <= i < |noted| && noted[i].reason == reason;
      forall b | b in noted && SaysInvalid(b) ensures b.reason == reason {
        assert b.reason in reasons;
      }
      AtMostOneKind(noted, n + 1, SaysInvalid, i);
    } else {
      forall i | 0 <= i < |noted| ensures !SaysInvalid(noted[i]) {
        assert noted[i] in noted;
      }
      PositionsNone(noted, SaysInvalid);
    }
  }

  lemma NoSealAtTheEnd(lines: seq<Line>)
    ensures |Positions(FinalBreaks(lines), SaysUnsigned)| == 0 == |Positions(FinalBreaks(lines), SaysInvalid)|
  {
    hide Positions;
    PositionsNone(FinalBreaks(lines), SaysUnsigned);
    PositionsNone(FinalBreaks(lines), SaysInvalid);
  }

  /** Under a key every record counted as unsigned or invalid is a break, and the other way round. */
  lemma SealBreaksOfReport(v: Verifier, lines: seq<Line>)
    requires v.key.Some?
    ensures var report := SummaryOf(v, lines);
            && report.state.seals.unsigned == |Positions(report.state.notes.breaks, SaysUnsigned)|
            && report.state.seals.invalid == |Positions(report.state.notes.breaks, SaysInvalid)|
  {
    hide Positions, Breaks, FinalBreaks, Unanchored, CountStatus;
    SealCounts(v, lines);
    SealBreaksCounted(v, lines, |lines|);
    assert lines[..|lines|] == lines;
    PositionsJoin(Breaks(v, lines, |lines|), FinalBreaks(lines), SaysUnsigned);
    PositionsJoin(Breaks(v, lines, |lines|), FinalBreaks(lines), SaysInvalid);
    NoSealAtTheEnd(lines);
  }
}
