/** Verifying a hash-chained audit log, line by line. */
module AuditLog {
  import opened Text
  import opened Json

  // ----- what a line of the file holds, and what the verifier is given -----

  /** A line after `strip()` and parsing. A record is a JSON object without duplicate keys. */
  datatype Line =
    | Blank
    | RepeatedKey
    | Unparsable
    | NotAnObject
    | Record(order: seq<string>, fields: map<string, Json>)

  /** An Ed25519 public key: its fingerprint, and whether a signature verifies over some content. */
  datatype PublicKey = PublicKey(fingerprint: string, verifies: (string, Json) -> bool)

  /** SHA-256 over the canonical bytes, strict Base64 of 64 bytes, and the key when one is supplied. */
  datatype Verifier = Verifier(digest: Json -> string, wellEncoded: string -> bool, key: Option<PublicKey>)

  datatype Reason =
    | DuplicateJsonKey | InvalidJson | NonObjectRecord
    | HashMismatch | MissingHash
    | MissingChainId | InvalidChainId
    | ChainDiscontinuity | UnanchoredChainStart
    | MissingSequence | InvalidSequence | SequenceDiscontinuity | NonInitialSequenceStart
    | MissingFingerprint | MissingSignature | InvalidFingerprint | FingerprintMismatch
    | InvalidSignatureEncoding | InvalidSignature | UnsignedRecord
    | EmptyLog | MultipleChains(chains: nat)

  /** What is noted against a line, with the event the record names when it is one. */
  datatype Break = Break(line: nat, reason: Reason, event: Option<Json>)

  function AsJson(r: Line): Json
    requires r.Record?
  {
    Obj(r.order, r.fields)
  }

  function Field(r: Line, key: string): Json
    requires r.Record?
  {
    Get(AsJson(r), key)
  }

  function FieldOr(r: Line, key: string, default: Json): Json
    requires r.Record?
  {
    if key in r.fields then r.fields[key] else default
  }

  // ----- canonical content: the record without its seals, in its own key order -----

  function Keep(order: seq<string>, exclude: set<string>): seq<string> {
    if order == [] then []
    else (if order[0] in exclude then [] else [order[0]]) + Keep(order[1..], exclude)
  }

  function Without(r: Line, exclude: set<string>): Json
    requires r.Record?
  {
    Obj(Keep(r.order, exclude), r.fields - exclude)
  }

  function HashedContent(r: Line): Json
    requires r.Record?
  {
    Without(r, {"hash", "signature", "public_key_fingerprint"})
  }

  function SignedContent(r: Line): Json
    requires r.Record?
  {
    Without(r, {"signature", "public_key_fingerprint"})
  }

  // ----- checks on one record alone -----

  function GenesisHash(): string {
    seq(64, i => '0')
  }

  /** `_is_chain_anchor`. */
  predicate IsChainAnchor(r: Line)
    requires r.Record?
  {
    var previous, initial := Field(r, "previous_hash"), Field(r, "initial_hash");
    PyEq(previous, Str(GenesisHash())) || (Truthy(initial) && PyEq(previous, initial))
  }

  function HashReasons(v: Verifier, r: Line): seq<Reason>
    requires r.Record?
  {
    var hash := Field(r, "hash");
    if !Truthy(hash) then [MissingHash]
    else if !PyEq(Str(v.digest(HashedContent(r))), hash) then [HashMismatch]
    else []
  }

  predicate HasChainId(r: Line)
    requires r.Record?
  {
    Field(r, "chain_id").Str? && Field(r, "chain_id").s != ""
  }

  function ChainIdReasons(r: Line): seq<Reason>
    requires r.Record?
  {
    if Field(r, "chain_id") == Null then [MissingChainId]
    else if !HasChainId(r) then [InvalidChainId]
    else []
  }

  /** The key under which continuity is tracked. */
  function ChainKey(lineNo: nat, r: Line): string
    requires r.Record?
  {
    if HasChainId(r) then Field(r, "chain_id").s else "__invalid_chain_at_line_" + Decimal(lineNo)
  }

  predicate HasSequence(r: Line)
    requires r.Record?
  {
    Field(r, "sequence").Int? && Field(r, "sequence").i >= 1
  }

  predicate Present(j: Json) {
    j != Null && j != Str("")
  }

  predicate IsFingerprint(j: Json) {
    && j.Str? && |j.s| == 64
    && forall i :: 0 <= i < |j.s| ==> '0' <= j.s[i] <= '9' || 'a' <= j.s[i] <= 'f'
  }

  function FingerprintReasons(v: Verifier, r: Line): seq<Reason>
    requires r.Record?
  {
    var fingerprint, signature := Field(r, "public_key_fingerprint"), Field(r, "signature");
    (if Present(signature) && !Present(fingerprint) then [MissingFingerprint] else [])
    + (if Present(fingerprint) && !Present(signature) then [MissingSignature] else [])
    + (if Present(fingerprint) && !IsFingerprint(fingerprint) then [InvalidFingerprint]
       else if Present(fingerprint) && v.key.Some? && fingerprint != Str(v.key.value.fingerprint) then
         [FingerprintMismatch]
       else [])
  }

  datatype Status = Absent | Malformed | Unchecked | Verifies | Refuted

  function SignatureStatus(v: Verifier, r: Line): Status
    requires r.Record?
  {
    var signature := Field(r, "signature");
    if !Present(signature) then Absent
    else if !signature.Str? || !v.wellEncoded(signature.s) then Malformed
    else if v.key == None then Unchecked
    else if v.key.value.verifies(signature.s, SignedContent(r)) then Verifies
    else Refuted
  }

  function SignatureReasons(v: Verifier, r: Line): seq<Reason>
    requires r.Record?
  {
    match SignatureStatus(v, r)
    case Malformed => [InvalidSignatureEncoding]
    case Refuted => [InvalidSignature]
    case Absent => if v.key.Some? then [UnsignedRecord] else []
    case _ => []
  }

  // ----- checks of a record against the earlier records of its chain -----

  function LinkReasons(prior: Option<Json>, r: Line): seq<Reason>
    requires r.Record?
  {
    if prior.Some? then
      if PyEq(Field(r, "previous_hash"), prior.value) then [] else [ChainDiscontinuity]
    else if IsChainAnchor(r) then [] else [UnanchoredChainStart]
  }

  function SequenceReasons(prior: Option<int>, r: Line): seq<Reason>
    requires r.Record?
  {
    if Field(r, "sequence") == Null then [MissingSequence]
    else if !HasSequence(r) then [InvalidSequence]
    else
      var sequence := Field(r, "sequence").i;
      if prior.Some? then if sequence == prior.value + 1 then [] else [SequenceDiscontinuity]
      else if sequence == 1 then [] else [NonInitialSequenceStart]
  }

  function Lookup<V>(m: map<string, V>, key: string): Option<V> {
    if key in m then Some(m[key]) else None
  }

  /** For each chain, the last non-empty hash it recorded in the first `n` lines. */
  function PriorHashes(lines: seq<Line>, n: nat): map<string, Json>
    requires n <= |lines|
  {
    if n == 0 then map[]
    else
      var r, before := lines[n - 1], PriorHashes(lines, n - 1);
      if r.Record? && Truthy(Field(r, "hash")) then before[ChainKey(n, r) := Field(r, "hash")] else before
  }

  /** For each chain, the last well-formed sequence number it recorded in the first `n` lines. */
  function PriorSequences(lines: seq<Line>, n: nat): map<string, int>
    requires n <= |lines|
  {
    if n == 0 then map[]
    else
      var r, before := lines[n - 1], PriorSequences(lines, n - 1);
      if r.Record? && HasSequence(r) then before[ChainKey(n, r) := Field(r, "sequence").i] else before
  }

  /** Everything wrong with line `n` (counted from zero), in the order it is noted. */
  function LineReasons(v: Verifier, lines: seq<Line>, n: nat): seq<Reason>
    requires n < |lines|
  {
    var r := lines[n];
    match r
    case Blank => []
    case RepeatedKey => [DuplicateJsonKey]
    case Unparsable => [InvalidJson]
    case NotAnObject => [NonObjectRecord]
    case Record(_, _) =>
      var key := ChainKey(n + 1, r);
      HashReasons(v, r) + ChainIdReasons(r)
      + LinkReasons(Lookup(PriorHashes(lines, n), key), r)
      + SequenceReasons(Lookup(PriorSequences(lines, n), key), r)
      + FingerprintReasons(v, r) + SignatureReasons(v, r)
  }

  function Tag(lineNo: nat, event: Option<Json>, reasons: seq<Reason>): seq<Break> {
    seq(|reasons|, i requires 0 <= i < |reasons| => Break(lineNo, reasons[i], event))
  }

  function EventOf(line: Line): Option<Json> {
    if line.Record? then Some(FieldOr(line, "event", Str("UNKNOWN"))) else None
  }

  /** All breaks noted in the first `n` lines. */
  function Breaks(v: Verifier, lines: seq<Line>, n: nat): seq<Break>
    requires n <= |lines|
  {
    if n == 0 then [] else Breaks(v, lines, n - 1) + Tag(n, EventOf(lines[n - 1]), LineReasons(v, lines, n - 1))
  }

  function Records(lines: seq<Line>, n: nat): (rs: seq<Line>)
    requires n <= |lines|
    ensures forall i :: 0 <= i < |rs| ==> rs[i].Record?
  {
    if n == 0 then []
    else Records(lines, n - 1) + if lines[n - 1].Record? then [lines[n - 1]] else []
  }

  function AllRecords(lines: seq<Line>): (rs: seq<Line>)
    ensures forall i :: 0 <= i < |rs| ==> rs[i].Record?
  {
    Records(lines, |lines|)
  }

  function ChainIds(lines: seq<Line>, n: nat): set<string>
    requires n <= |lines|
  {
    if n == 0 then {}
    else ChainIds(lines, n - 1)
         + if lines[n - 1].Record? && HasChainId(lines[n - 1]) then {Field(lines[n - 1], "chain_id").s} else {}
  }

  function FinalBreaks(lines: seq<Line>): seq<Break> {
    var chains := |ChainIds(lines, |lines|)|;
    Tag(0, None, (if AllRecords(lines) == [] then [EmptyLog] else [])
                 + if chains > 1 then [MultipleChains(chains)] else [])
  }

  function AllBreaks(v: Verifier, lines: seq<Line>): seq<Break> {
    Breaks(v, lines, |lines|) + FinalBreaks(lines)
  }

  /** The last non-empty hash of the first `n` lines, whatever its chain; `Null` when there is none. */
  function TerminalHash(lines: seq<Line>, n: nat): Json
    requires n <= |lines|
  {
    if n == 0 then Null
    else
      var r := lines[n - 1];
      if r.Record? && Truthy(Field(r, "hash")) then Field(r, "hash") else TerminalHash(lines, n - 1)
  }

  function CountStatus(v: Verifier, lines: seq<Line>, n: nat, status: Status): nat
    requires n <= |lines|
  {
    if n == 0 then 0
    else CountStatus(v, lines, n - 1, status)
         + if lines[n - 1].Record? && SignatureStatus(v, lines[n - 1]) == status then 1 else 0
  }

  /** `summary["event_counts"]` and `["severity_counts"]` raise on a value that cannot be a dict key. */
  predicate Countable(line: Line) {
    line.Record? ==>
      Hashable(FieldOr(line, "event", Str("UNKNOWN"))) && Hashable(FieldOr(line, "severity", Str("INFO")))
  }

  function FirstSequence(lines: seq<Line>, n: nat): Option<int>
    requires n <= |lines|
  {
    if n == 0 then None
    else
      var before := FirstSequence(lines, n - 1);
      if before == None && lines[n - 1].Record? && HasSequence(lines[n - 1])
      then Some(Field(lines[n - 1], "sequence").i) else before
  }

  function LastSequence(lines: seq<Line>, n: nat): Option<int>
    requires n <= |lines|
  {
    if n == 0 then None
    else if lines[n - 1].Record? && HasSequence(lines[n - 1]) then Some(Field(lines[n - 1], "sequence").i)
    else LastSequence(lines, n - 1)
  }

  // ----- counting into a dict -----

  function CountIn(counts: map<Json, nat>, key: Json): nat {
    if key in counts then counts[key] else 0
  }

  /** How often each value of a field occurs among the first `n` lines' records. */
  function CountsBy(lines: seq<Line>, n: nat, name: string, default: Json): map<Json, nat>
    requires n <= |lines|
  {
    if n == 0 then map[]
    else
      var before := CountsBy(lines, n - 1, name, default);
      if !lines[n - 1].Record? then before
      else
        var key := AsKey(FieldOr(lines[n - 1], name, default));
        before[key := CountIn(before, key) + 1]
  }

  ghost function Total(counts: map<Json, nat>): nat
    decreases |counts|
  {
    if counts == map[] then 0
    else
      var key :| key in counts;
      counts[key] + Total(counts - {key})
  }

  lemma {:induction false} TotalWithout(counts: map<Json, nat>, key: Json)
    requires key in counts
    ensures Total(counts) == counts[key] + Total(counts - {key})
    decreases |counts|
  {
    var first :| first in counts && Total(counts) == counts[first] + Total(counts - {first});
    if first != key {
      TotalWithout(counts - {first}, key);
      TotalWithout(counts - {key}, first);
      assert counts - {first} - {key} == counts - {key} - {first};
    }
  }

  lemma TotalAfterCounting(counts: map<Json, nat>, key: Json)
    ensures Total(counts[key := CountIn(counts, key) + 1]) == Total(counts) + 1
  {
    var after := counts[key := CountIn(counts, key) + 1];
    TotalWithout(after, key);
    assert after - {key} == counts - {key};
    if key in counts {
      TotalWithout(counts, key);
    } else {
      assert counts - {key} == counts;
    }
  }

  /** Conservation: the counts by any field sum to the number of records. */
  lemma {:induction false} CountsSumToRecords(lines: seq<Line>, n: nat, name: string, default: Json)
    requires n <= |lines|
    ensures Total(CountsBy(lines, n, name, default)) == |Records(lines, n)|
  {
    if n > 0 {
      CountsSumToRecords(lines, n - 1, name, default);
      if lines[n - 1].Record? {
        TotalAfterCounting(CountsBy(lines, n - 1, name, default), AsKey(FieldOr(lines[n - 1], name, default)));
      }
    }
  }

  /** What a field holds in each record, as a dict key. */
  function Values(rs: seq<Line>, name: string, default: Json): (keys: seq<Json>)
    requires forall i :: 0 <= i < |rs| ==> rs[i].Record?
    ensures |keys| == |rs|
  {
    seq(|rs|, i requires 0 <= i < |rs| => AsKey(FieldOr(rs[i], name, default)))
  }

  lemma ValuesSnoc(rs: seq<Line>, r: Line, name: string, default: Json)
    requires (forall i :: 0 <= i < |rs| ==> rs[i].Record?) && r.Record?
    ensures Values(rs + [r], name, default) == Values(rs, name, default) + [AsKey(FieldOr(r, name, default))]
  {
    hide AsKey, FieldOr;
  }

  lemma CountOneMore(counts: map<Json, nat>, key: Json, other: Json)
    ensures CountIn(counts[key := CountIn(counts, key) + 1], other)
         == CountIn(counts, other) + if key == other then 1 else 0
  {
  }

  lemma RecordsStep(lines: seq<Line>, n: nat)
    requires 0 < n <= |lines|
    ensures Records(lines, n)
         == Records(lines, n - 1) + if lines[n - 1].Record? then [lines[n - 1]] else []
    ensures !lines[n - 1].Record? ==> Records(lines, n) == Records(lines, n - 1)
  {
    assert Records(lines, n - 1) + [] == Records(lines, n - 1);
  }

  /** Each count is the number of records that hold that value. */
  lemma {:induction false} CountsAreOccurrences(lines: seq<Line>, n: nat, name: string, default: Json, key: Json)
    requires n <= |lines|
    ensures CountIn(CountsBy(lines, n, name, default), key) == multiset(Values(Records(lines, n), name, default))[key]
  {
    hide AsKey, FieldOr, Values, Records, CountIn;
    if n > 0 {
      var rs, r := Records(lines, n - 1), lines[n - 1];
      CountsAreOccurrences(lines, n - 1, name, default, key);
      RecordsStep(lines, n);
      if r.Record? {
        ValuesSnoc(rs, r, name, default);
        CountOneMore(CountsBy(lines, n - 1, name, default), AsKey(FieldOr(r, name, default)), key);
      }
    } else {
      NothingCountedYet(lines, name, default, key);
    }
  }

  lemma NothingCountedYet(lines: seq<Line>, name: string, default: Json, key: Json)
    ensures CountIn(CountsBy(lines, 0, name, default), key) == 0 && Values(Records(lines, 0), name, default) == []
  {
  }

  /** The first and last non-empty timestamps of the first `n` lines. */
  function FirstTimestamp(lines: seq<Line>, n: nat): Json
    requires n <= |lines|
  {
    if n == 0 then Null
    else
      var before := FirstTimestamp(lines, n - 1);
      if before == Null && lines[n - 1].Record? && Truthy(Field(lines[n - 1], "timestamp"))
      then Field(lines[n - 1], "timestamp") else before
  }

  function LastTimestamp(lines: seq<Line>, n: nat): Json
    requires n <= |lines|
  {
    if n == 0 then Null
    else if lines[n - 1].Record? && Truthy(Field(lines[n - 1], "timestamp")) then Field(lines[n - 1], "timestamp")
    else LastTimestamp(lines, n - 1)
  }

  predicate IsStamped(line: Line) {
    line.Record? && Truthy(Field(line, "timestamp"))
  }

  lemma StampIsNotNull(line: Line)
    requires IsStamped(line)
    ensures Field(line, "timestamp") != Null
  {
  }

  lemma {:induction false} NoTimestamps(lines: seq<Line>, n: nat)
    requires n <= |lines| && forall i :: 0 <= i < n ==> !IsStamped(lines[i])
    ensures FirstTimestamp(lines, n) == Null && LastTimestamp(lines, n) == Null
  {
    hide Truthy, Field;
    if n > 0 {
      NoTimestamps(lines, n - 1);
    }
  }

  /** The two timestamps are those of the first and the last stamped record, when there is one. */
  lemma {:induction false} TimestampsAreEnds(lines: seq<Line>, n: nat, first: nat, last: nat)
    requires first < n <= |lines| && last < n && IsStamped(lines[first]) && IsStamped(lines[last])
    requires forall i :: 0 <= i < first ==> !IsStamped(lines[i])
    requires forall i :: last < i < n ==> !IsStamped(lines[i])
    ensures FirstTimestamp(lines, n) == Field(lines[first], "timestamp") != Null
    ensures LastTimestamp(lines, n) == Field(lines[last], "timestamp") != Null
  {
    FirstStamp(lines, n, first);
    LastStamp(lines, n, last);
    StampIsNotNull(lines[first]);
    StampIsNotNull(lines[last]);
  }

  lemma {:induction false} FirstStamp(lines: seq<Line>, n: nat, first: nat)
    requires first < n <= |lines| && IsStamped(lines[first])
    requires forall i :: 0 <= i < first ==> !IsStamped(lines[i])
    ensures FirstTimestamp(lines, n) == Field(lines[first], "timestamp")
  {
    hide Truthy, Field;
    if first < n - 1 {
      FirstStamp(lines, n - 1, first);
      StampIsNotNull(lines[first]);
    } else {
      NoTimestamps(lines, first);
    }
  }

  lemma {:induction false} LastStamp(lines: seq<Line>, n: nat, last: nat)
    requires last < n <= |lines| && IsStamped(lines[last])
    requires forall i :: last < i < n ==> !IsStamped(lines[i])
    ensures LastTimestamp(lines, n) == Field(lines[last], "timestamp")
  {
    hide Truthy, Field;
    if last < n - 1 {
      LastStamp(lines, n - 1, last);
    }
  }

  function Fingerprints(lines: seq<Line>, n: nat): set<string>
    requires n <= |lines|
  {
    if n == 0 then {}
    else
      var before := Fingerprints(lines, n - 1);
      if !lines[n - 1].Record? then before
      else
        var fingerprint := Field(lines[n - 1], "public_key_fingerprint");
        if Present(fingerprint) && IsFingerprint(fingerprint) then before + {fingerprint.s} else before
  }

  // ----- the verification -----

  datatype Tally = Tally(total: nat, events: map<Json, nat>, severities: map<Json, nat>,
                         firstTimestamp: Json, lastTimestamp: Json)
  datatype Links = Links(ids: set<string>, priorHashes: map<string, Json>, terminal: Json)
  datatype Order = Order(first: Option<int>, last: Option<int>, priors: map<string, int>)
  datatype Seals = Seals(valid: nat, invalid: nat, unsigned: nat, fingerprints: set<string>)
  datatype Notes = Notes(breaks: seq<Break>, chainValid: bool, unanchored: nat)

  datatype State = State(tally: Tally, links: Links, order: Order, seals: Seals, notes: Notes)

  function TallyAfter(lines: seq<Line>, n: nat): Tally
    requires n <= |lines|
  {
    Tally(|Records(lines, n)|, CountsBy(lines, n, "event", Str("UNKNOWN")), CountsBy(lines, n, "severity", Str("INFO")),
          FirstTimestamp(lines, n), LastTimestamp(lines, n))
  }

  function LinksAfter(lines: seq<Line>, n: nat): Links
    requires n <= |lines|
  {
    Links(ChainIds(lines, n), PriorHashes(lines, n), TerminalHash(lines, n))
  }

  function OrderAfter(lines: seq<Line>, n: nat): Order
    requires n <= |lines|
  {
    Order(FirstSequence(lines, n), LastSequence(lines, n), PriorSequences(lines, n))
  }

  function SealsAfter(v: Verifier, lines: seq<Line>, n: nat): Seals
    requires n <= |lines|
  {
    Seals(CountStatus(v, lines, n, Verifies), CountStatus(v, lines, n, Malformed) + CountStatus(v, lines, n, Refuted),
          CountStatus(v, lines, n, Absent), Fingerprints(lines, n))
  }

  /** How many chains were found to start without an anchor. */
  function Unanchored(breaks: seq<Break>): nat {
    if breaks == [] then 0
    else Unanchored(breaks[..|breaks| - 1]) + if breaks[|breaks| - 1].reason == UnanchoredChainStart then 1 else 0
  }

  function NotesOf(breaks: seq<Break>): Notes {
    Notes(breaks, breaks == [], Unanchored(breaks))
  }

  function NotesAfter(v: Verifier, lines: seq<Line>, n: nat): Notes
    requires n <= |lines|
  {
    NotesOf(Breaks(v, lines, n))
  }

  /** What the verifier knows after `n` lines. */
  function StateAfter(v: Verifier, lines: seq<Line>, n: nat): State
    requires n <= |lines|
  {
    State(TallyAfter(lines, n), LinksAfter(lines, n), OrderAfter(lines, n),
          SealsAfter(v, lines, n), NotesAfter(v, lines, n))
  }

  datatype Summary = Summary(state: State, signatureChecked: bool, authenticityVerified: bool)

  /** The file a path names, if there is a path and a file. */
  datatype LogFile = Unnamed | Missing | Existing(lines: seq<Line>)

  /** `Unread` is the summary of a log there is nothing to say about: validity unknown, all counts zero. */
  datatype Outcome = Unread | Raised | Verified(summary: Summary)

  /** The summary a log gets, in terms of its lines. */
  function SummaryOf(v: Verifier, lines: seq<Line>): Summary {
    var st := StateAfter(v, lines, |lines|);
    var all := AllBreaks(v, lines);
    var authentic := v.key.Some? && all == [] && st.seals.valid > 0 && st.seals.invalid == 0 && st.seals.unsigned == 0;
    Summary(st.(notes := NotesOf(all)), v.key.Some?, authentic)
  }

  lemma TagSnoc(lineNo: nat, event: Option<Json>, reasons: seq<Reason>, reason: Reason)
    ensures Tag(lineNo, event, reasons + [reason]) == Tag(lineNo, event, reasons) + [Break(lineNo, reason, event)]
  {
  }

  /** What is noted against a line that holds no record, and where. */
  lemma SkippedReasons(v: Verifier, lines: seq<Line>, lineNo: nat)
    requires 0 < lineNo <= |lines| && !lines[lineNo - 1].Record?
    ensures LineReasons(v, lines, lineNo - 1) ==
              match lines[lineNo - 1]
              case Blank => []
              case RepeatedKey => [DuplicateJsonKey]
              case Unparsable => [InvalidJson]
              case _ => [NonObjectRecord]
    ensures Breaks(v, lines, lineNo)
         == Breaks(v, lines, lineNo - 1) + Tag(lineNo, None, LineReasons(v, lines, lineNo - 1))
  {
    hide LineReasons, Tag;
    NoRecordReasons(v, lines, lineNo - 1);
  }

  lemma NoRecordReasons(v: Verifier, lines: seq<Line>, n: nat)
    requires n < |lines| && !lines[n].Record?
    ensures LineReasons(v, lines, n) ==
              match lines[n]
              case Blank => []
              case RepeatedKey => [DuplicateJsonKey]
              case Unparsable => [InvalidJson]
              case _ => [NonObjectRecord]
  {
  }

  lemma TagNone(base: seq<Break>, lineNo: nat, event: Option<Json>)
    ensures base + Tag(lineNo, event, []) == base
  {
  }

  lemma UnanchoredSnoc(breaks: seq<Break>, b: Break)
    ensures Unanchored(breaks + [b]) == Unanchored(breaks) + if b.reason == UnanchoredChainStart then 1 else 0
  {
    assert (breaks + [b])[..|breaks|] == breaks;
  }

  /** The verifier's working state, updated line by line. */
  class LogReader {
    const v: Verifier
    var tally: Tally
    var links: Links
    var order: Order
    var seals: Seals
    var notes: Notes

    constructor (v: Verifier)
      ensures this.v == v
      ensures tally == TallyAfter([], 0) && links == LinksAfter([], 0) && order == OrderAfter([], 0)
      ensures seals == SealsAfter(v, [], 0) && notes == NotesAfter(v, [], 0)
    {
      this.v := v;
      tally := Tally(0, map[], map[], Null, Null);
      links := Links({}, map[], Null);
      order := Order(None, None, map[]);
      seals := Seals(0, 0, 0, {});
      notes := Notes([], true, 0);
    }

    /** Note one break; any at all makes the log invalid. */
    method NoteOne(b: Break, ghost breaks: seq<Break>)
      requires notes == NotesOf(breaks)
      modifies `notes
      ensures notes == NotesOf(breaks + [b])
    {
      UnanchoredSnoc(breaks, b);
      var unanchored := notes.unanchored + if b.reason == UnanchoredChainStart then 1 else 0;
      notes := Notes(notes.breaks + [b], false, unanchored);
    }

    /** Note what is wrong with a line, after what was noted against it already. */
    method Note(lineNo: nat, event: Option<Json>, reasons: seq<Reason>,
                ghost base: seq<Break>, ghost noted: seq<Reason>)
      returns (ghost all: seq<Reason>)
      requires notes == NotesOf(base + Tag(lineNo, event, noted))
      modifies `notes
      ensures all == noted + reasons && notes == NotesOf(base + Tag(lineNo, event, all))
    {
      hide NotesOf, Tag;
      all := noted;
      for i := 0 to |reasons|
        invariant all == noted + reasons[..i] && notes == NotesOf(base + Tag(lineNo, event, all))
      {
        NoteOne(Break(lineNo, reasons[i], event), base + Tag(lineNo, event, all));
        TagSnoc(lineNo, event, all, reasons[i]);
        Assoc(base, Tag(lineNo, event, all), [Break(lineNo, reasons[i], event)]);
        all := all + [reasons[i]];
      }
    }

    /** The checks of one record, in the order the source makes them. */
    method NoteRecord(ghost lines: seq<Line>, lineNo: nat, r: Line)
      requires 0 < lineNo <= |lines| && lines[lineNo - 1] == r && r.Record?
      requires links == LinksAfter(lines, lineNo - 1) && order == OrderAfter(lines, lineNo - 1)
      requires notes == NotesAfter(v, lines, lineNo - 1)
      modifies `notes
      ensures notes == NotesAfter(v, lines, lineNo)
    {
      hide NotesOf, Tag;
      hide HashReasons, ChainIdReasons, LinkReasons, SequenceReasons, FingerprintReasons, SignatureReasons;
      ghost var base, noted := Breaks(v, lines, lineNo - 1), [];
      var event, chainKey := EventOf(r), ChainKey(lineNo, r);
      TagNone(base, lineNo, event);
      var link, step := LinkReasons(Lookup(links.priorHashes, chainKey), r),
                        SequenceReasons(Lookup(order.priors, chainKey), r);
      noted := Note(lineNo, event, HashReasons(v, r), base, noted);
      assert noted == HashReasons(v, r);
      noted := Note(lineNo, event, ChainIdReasons(r), base, noted);
      noted := Note(lineNo, event, link, base, noted);
      noted := Note(lineNo, event, step, base, noted);
      noted := Note(lineNo, event, FingerprintReasons(v, r), base, noted);
      noted := Note(lineNo, event, SignatureReasons(v, r), base, noted);
    }

    method CountEvent(ghost lines: seq<Line>, ghost lineNo: nat, r: Line)
      requires 0 < lineNo <= |lines| && lines[lineNo - 1] == r && r.Record? && tally == TallyAfter(lines, lineNo - 1)
      modifies `tally
      ensures tally == TallyAfter(lines, lineNo)
    {
      var event, severity := AsKey(FieldOr(r, "event", Str("UNKNOWN"))), AsKey(FieldOr(r, "severity", Str("INFO")));
      tally := tally.(total := tally.total + 1,
                      events := tally.events[event := CountIn(tally.events, event) + 1],
                      severities := tally.severities[severity := CountIn(tally.severities, severity) + 1]);
      var timestamp := Field(r, "timestamp");
      if Truthy(timestamp) {
        if tally.firstTimestamp == Null {
          tally := tally.(firstTimestamp := timestamp);
        }
        tally := tally.(lastTimestamp := timestamp);
      }
    }

    method TrackChain(ghost lines: seq<Line>, lineNo: nat, r: Line)
      requires 0 < lineNo <= |lines| && lines[lineNo - 1] == r && r.Record? && links == LinksAfter(lines, lineNo - 1)
      modifies `links
      ensures links == LinksAfter(lines, lineNo)
    {
      if HasChainId(r) {
        links := links.(ids := links.ids + {Field(r, "chain_id").s});
      }
      var recordHash := Field(r, "hash");
      if Truthy(recordHash) {
        links := links.(priorHashes := links.priorHashes[ChainKey(lineNo, r) := recordHash], terminal := recordHash);
      }
    }

    method TrackSequence(ghost lines: seq<Line>, lineNo: nat, r: Line)
      requires 0 < lineNo <= |lines| && lines[lineNo - 1] == r && r.Record? && order == OrderAfter(lines, lineNo - 1)
      modifies `order
      ensures order == OrderAfter(lines, lineNo)
    {
      if HasSequence(r) {
        var sequence := Field(r, "sequence").i;
        if order.first == None {
          order := order.(first := Some(sequence));
        }
        order := order.(last := Some(sequence), priors := order.priors[ChainKey(lineNo, r) := sequence]);
      }
    }

    method CountSignature(ghost lines: seq<Line>, ghost lineNo: nat, r: Line)
      requires 0 < lineNo <= |lines| && lines[lineNo - 1] == r && r.Record? && seals == SealsAfter(v, lines, lineNo - 1)
      modifies `seals
      ensures seals == SealsAfter(v, lines, lineNo)
    {
      var fingerprint := Field(r, "public_key_fingerprint");
      if Present(fingerprint) && IsFingerprint(fingerprint) {
        seals := seals.(fingerprints := seals.fingerprints + {fingerprint.s});
      }
      match SignatureStatus(v, r) {
        case Verifies => seals := seals.(valid := seals.valid + 1);
        case Malformed => seals := seals.(invalid := seals.invalid + 1);
        case Refuted => seals := seals.(invalid := seals.invalid + 1);
        case Absent => seals := seals.(unsigned := seals.unsigned + 1);
        case Unchecked =>
      }
    }

    method ReadRecord(ghost lines: seq<Line>, lineNo: nat, r: Line)
      requires 0 < lineNo <= |lines| && lines[lineNo - 1] == r && r.Record? && HasRead(lines, lineNo - 1)
      modifies this
      ensures HasRead(lines, lineNo)
    {
      hide TallyAfter, LinksAfter, OrderAfter, SealsAfter, NotesAfter;
      NoteRecord(lines, lineNo, r);
      Count(lines, lineNo, r);
      Track(lines, lineNo, r);
    }

    method Count(ghost lines: seq<Line>, ghost lineNo: nat, r: Line)
      requires 0 < lineNo <= |lines| && lines[lineNo - 1] == r && r.Record?
      requires tally == TallyAfter(lines, lineNo - 1) && seals == SealsAfter(v, lines, lineNo - 1)
      modifies `tally, `seals
      ensures tally == TallyAfter(lines, lineNo) && seals == SealsAfter(v, lines, lineNo)
    {
      CountEvent(lines, lineNo, r);
      CountSignature(lines, lineNo, r);
    }

    /** Remember the record for the checks of the next one of its chain. */
    method Track(ghost lines: seq<Line>, lineNo: nat, r: Line)
      requires 0 < lineNo <= |lines| && lines[lineNo - 1] == r && r.Record?
      requires links == LinksAfter(lines, lineNo - 1) && order == OrderAfter(lines, lineNo - 1)
      modifies `links, `order
      ensures links == LinksAfter(lines, lineNo) && order == OrderAfter(lines, lineNo)
    {
      TrackChain(lines, lineNo, r);
      TrackSequence(lines, lineNo, r);
    }

    /** The state is what it should be after the first `n` lines. */
    ghost predicate HasRead(lines: seq<Line>, n: nat)
      requires n <= |lines|
      reads this
    {
      && tally == TallyAfter(lines, n)
      && links == LinksAfter(lines, n)
      && order == OrderAfter(lines, n)
      && seals == SealsAfter(v, lines, n)
      && notes == NotesAfter(v, lines, n)
    }

    method SkipLine(ghost lines: seq<Line>, lineNo: nat, line: Line)
      requires 0 < lineNo <= |lines| && lines[lineNo - 1] == line && !line.Record? && HasRead(lines, lineNo - 1)
      modifies `notes
      ensures HasRead(lines, lineNo)
    {
      NothingCounted(v, lines, lineNo);
      NoteSkipped(lines, lineNo, line);
    }

    method NoteSkipped(ghost lines: seq<Line>, lineNo: nat, line: Line)
      requires 0 < lineNo <= |lines| && lines[lineNo - 1] == line && !line.Record?
      requires notes == NotesAfter(v, lines, lineNo - 1)
      modifies `notes
      ensures notes == NotesAfter(v, lines, lineNo)
    {
      hide NotesOf, Tag, Breaks, LineReasons;
      ghost var base := Breaks(v, lines, lineNo - 1);
      TagNone(base, lineNo, None);
      SkippedReasons(v, lines, lineNo);
      if line != Blank {
        var reason := match line
          case RepeatedKey => DuplicateJsonKey
          case Unparsable => InvalidJson
          case _ => NonObjectRecord;
        ghost var noted := Note(lineNo, None, [reason], base, []);
        assert noted == [reason] == LineReasons(v, lines, lineNo - 1);
      }
    }

    /** One line of the file. The count by event name raises when a name cannot be a dict key. */
    method ReadLine(ghost lines: seq<Line>, ghost n: nat, lineNo: nat, line: Line) returns (raised: bool)
      requires n < |lines| && lineNo == n + 1 && lines[n] == line && HasRead(lines, n)
      modifies this
      ensures raised <==> !Countable(line)
      ensures !raised ==> HasRead(lines, lineNo)
    {
      raised := !Countable(line);
      if !raised {
        if line.Record? {
          ReadRecord(lines, lineNo, line);
        } else {
          SkipLine(lines, lineNo, line);
        }
      }
    }

    /** The closing checks: a log may not be empty, nor hold several chains. */
    method Close(ghost lines: seq<Line>)
      requires HasRead(lines, |lines|)
      modifies `notes
      ensures notes == NotesOf(AllBreaks(v, lines))
    {
      hide NotesOf, Breaks;
      ghost var breaks := Breaks(v, lines, |lines|);
      if tally.total == 0 {
        NoteOne(Break(0, EmptyLog, None), breaks);
        breaks := breaks + [Break(0, EmptyLog, None)];
      }
      if |links.ids| > 1 {
        NoteOne(Break(0, MultipleChains(|links.ids|), None), breaks);
        breaks := breaks + [Break(0, MultipleChains(|links.ids|), None)];
      }
      assert breaks == Breaks(v, lines, |lines|) + FinalBreaks(lines);
    }
  }

  lemma NothingCounted(v: Verifier, lines: seq<Line>, lineNo: nat)
    requires 0 < lineNo <= |lines| && !lines[lineNo - 1].Record?
    ensures TallyAfter(lines, lineNo) == TallyAfter(lines, lineNo - 1)
    ensures LinksAfter(lines, lineNo) == LinksAfter(lines, lineNo - 1)
    ensures OrderAfter(lines, lineNo) == OrderAfter(lines, lineNo - 1)
    ensures SealsAfter(v, lines, lineNo) == SealsAfter(v, lines, lineNo - 1)
  {
    assert Records(lines, lineNo) == Records(lines, lineNo - 1);
  }

  /** No record of the first `n` lines stops the counting. */
  predicate CountableUpTo(lines: seq<Line>, n: nat)
    requires n <= |lines|
  {
    n == 0 || (CountableUpTo(lines, n - 1) && Countable(lines[n - 1]))
  }

  lemma {:induction false} CountableMeansAll(lines: seq<Line>, n: nat)
    requires n <= |lines|
    ensures CountableUpTo(lines, n) <==> forall i :: 0 <= i < n ==> Countable(lines[i])
  {
    if n > 0 {
      CountableMeansAll(lines, n - 1);
    }
  }

  method ReadAll(reader: LogReader, lines: seq<Line>) returns (raised: bool)
    requires reader.HasRead(lines, 0)
    modifies reader
    ensures raised <==> !CountableUpTo(lines, |lines|)
    ensures !raised ==> reader.HasRead(lines, |lines|)
  {
    hide TallyAfter, LinksAfter, OrderAfter, SealsAfter, NotesAfter, Countable;
    var n := 0;
    while n < |lines|
      invariant n <= |lines| && reader.HasRead(lines, n) && CountableUpTo(lines, n)
    {
      var lineNo := n + 1;
      raised := reader.ReadLine(lines, n, lineNo, lines[n]);
      if raised {
        CountableMeansAll(lines, |lines|);
        return;
      }
      n := lineNo;
    }
    raised := false;
  }

  /** The outcome for an existing file. */
  function OutcomeOf(v: Verifier, lines: seq<Line>): Outcome {
    if CountableUpTo(lines, |lines|) then Verified(SummaryOf(v, lines)) else Raised
  }

  lemma NothingRead(v: Verifier, lines: seq<Line>)
    ensures TallyAfter([], 0) == TallyAfter(lines, 0) && LinksAfter([], 0) == LinksAfter(lines, 0)
    ensures OrderAfter([], 0) == OrderAfter(lines, 0) && SealsAfter(v, [], 0) == SealsAfter(v, lines, 0)
    ensures NotesAfter(v, [], 0) == NotesAfter(v, lines, 0)
  {
  }

  /** The lines of an existing file, then the closing checks. */
  method VerifyLines(v: Verifier, lines: seq<Line>) returns (o: Outcome)
    ensures o == OutcomeOf(v, lines)
  {
    hide AllBreaks, Unanchored;
    NothingRead(v, lines);
    var reader := new LogReader(v);
    var raised := ReadAll(reader, lines);
    if raised {
      return Raised;
    }
    reader.Close(lines);
    var seals, notes := reader.seals, reader.notes;
    var authentic := v.key.Some? && notes.chainValid && seals.valid > 0 && seals.invalid == 0 && seals.unsigned == 0;
    o := Verified(Summary(State(reader.tally, reader.links, reader.order, seals, notes), v.key.Some?, authentic));
  }

  /** `verify_worm_log`. */
  method VerifyWormLog(v: Verifier, file: LogFile) returns (o: Outcome)
    ensures o == if file.Existing? then OutcomeOf(v, file.lines) else Unread
  {
    if !file.Existing? {
      return Unread;
    }
    o := VerifyLines(v, file.lines);
  }

  /** A log the verifier gets no result for: one record whose event is a list. */
  lemma ListEventRaises(v: Verifier)
    ensures OutcomeOf(v, [Record(["event"], map["event" := Arr([])])]) == Raised
  {
    var lines := [Record(["event"], map["event" := Arr([])])];
    assert !Countable(lines[0]);
    CountableMeansAll(lines, 1);
  }
}
