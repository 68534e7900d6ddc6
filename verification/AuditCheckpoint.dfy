/** Signing the terminal state of verified audit logs, and checking such a checkpoint. */
module AuditCheckpoint {
  import opened Text
  import opened Json
  import opened AuditLog
  import opened AuditHistory
  import opened KeyOrder
  import opened Sorting

  const SCHEMA := "llm-shield.audit-checkpoint/v1.0.0"

  /** One audit log file. */
  datatype Source = Source(name: string, file: LogFile, sha256: string)

  datatype ChainEntry = ChainEntry(
    chainId: string,
    firstSequence: Option<int>,
    lastSequence: Option<int>,
    terminalHash: Json,
    totalEvents: nat,
    firstTimestamp: Json,
    lastTimestamp: Json,
    fingerprints: set<string>,
    sourceName: string,
    sourceSha256: string)

  datatype Manifest = Manifest(
    schema: string, checkpointId: string, createdAt: string,
    chains: seq<ChainEntry>, totalChains: nat, totalEvents: nat)

  datatype Checkpoint = Checkpoint(manifest: Manifest, manifestHash: string, signature: string, fingerprint: string)

  /** SHA-256 over the canonical manifest, and the checkpoint key pair. */
  datatype Sealer = Sealer(
    digest: Manifest -> string, sign: Manifest -> string, verifies: (string, Manifest) -> bool, fingerprint: string)

  datatype Fault =
    | NoLogs
    | LogRaised(name: string)
    | ChainFailed(name: string)
    | NotFullySigned(name: string)
    | NotOneChain(name: string)

  datatype Built = Refused(fault: Fault) | Built(checkpoint: Checkpoint)

  function SumEvents(chains: seq<ChainEntry>): nat {
    if chains == [] then 0 else SumEvents(chains[..|chains| - 1]) + chains[|chains| - 1].totalEvents
  }

  function Verify(s: Sealer, c: Checkpoint): bool {
    && c.manifest.schema == SCHEMA
    && s.digest(c.manifest) == c.manifestHash
    && s.fingerprint == c.fingerprint
    && s.verifies(c.signature, c.manifest)
  }

  /** The four checks a checkpoint has to pass. */
  lemma VerifyIff(s: Sealer, c: Checkpoint)
    ensures Verify(s, c) <==>
              && c.manifest.schema == "llm-shield.audit-checkpoint/v1.0.0"
              && c.manifestHash == s.digest(c.manifest)
              && c.fingerprint == s.fingerprint
              && s.verifies(c.signature, c.manifest)
  {
  }

  // ----- what acceptance says about the fields a checkpoint copies -----

  lemma {:induction false} SequencesOfChain(v: Verifier, lines: seq<Line>, n: nat, chainId: string)
    requires n <= |lines| && IsChain(v, Records(lines, n), chainId)
    ensures var rs := Records(lines, n);
            && FirstSequence(lines, n) == (if rs == [] then None else Some(1))
            && LastSequence(lines, n) == (if rs == [] then None else Some(|rs|))
  {
    hide WellSealed, IsChainAnchor, HashedContent;
    if n > 0 {
      var rs := Records(lines, n - 1);
      if lines[n - 1].Record? {
        assert Records(lines, n) == rs + [lines[n - 1]];
        ChainGrows(v, rs, lines[n - 1], chainId);
        assert RecordInPlace(v, Records(lines, n), |rs|, chainId);
        assert Field(lines[n - 1], "sequence") == Int(|rs| + 1);
      } else {
        assert Records(lines, n) == rs;
      }
      SequencesOfChain(v, lines, n - 1, chainId);
    }
  }

  /** An accepted log runs from sequence 1 to its length, in one chain, and under a key is fully signed. */
  lemma AcceptedFields(v: Verifier, lines: seq<Line>)
    requires Accepted(v, lines)
    ensures var n, total := |lines|, |AllRecords(lines)|;
            && total >= 1
            && FirstSequence(lines, n) == Some(1) && LastSequence(lines, n) == Some(total)
            && |ChainIds(lines, n)| == 1
            && CountStatus(v, lines, n, Verifies) == (if v.key.Some? then total else 0)
  {
    hide LineReasons, RecordInPlace;
    var chainId := ChainOf(v, lines);
    SequencesOfChain(v, lines, |lines|, chainId);
    ChainIdsOfOne(lines, |lines|, chainId);
    StatusesCoverRecords(v, lines, |lines|);
    if v.key.Some? {
      CleanMeansSigned(v, lines, |lines|);
    }
  }

  // ----- building -----

  /** The entry says of its log what the log says. */
  ghost predicate Describes(v: Verifier, source: Source, entry: ChainEntry) {
    source.file.Existing? &&
    var lines, n := source.file.lines, |source.file.lines|;
    && Accepted(v, lines)
    && ChainIds(lines, n) == {entry.chainId}
    && entry.firstSequence == Some(1) && entry.lastSequence == Some(entry.totalEvents)
    && entry.totalEvents == |AllRecords(lines)|
    && entry.terminalHash == TerminalHash(lines, n)
    && entry.firstTimestamp == FirstTimestamp(lines, n) && entry.lastTimestamp == LastTimestamp(lines, n)
    && entry.fingerprints == Fingerprints(lines, n)
    && entry.sourceName == source.name && entry.sourceSha256 == source.sha256
  }

  ghost predicate Attests(v: Verifier, sources: seq<Source>, m: Manifest) {
    && |m.chains| == |sources|
    && (forall i :: 0 <= i < |sources| ==> Describes(v, sources[i], m.chains[i]))
    && m.totalChains == |sources| && m.totalEvents == SumEvents(m.chains)
  }

  /** The logs a checkpoint may be built from. */
  ghost predicate MayBeSealed(v: Verifier, source: Source) {
    source.file.Existing? && v.key.Some? && Accepted(v, source.file.lines)
  }

  /** Why a log may not be sealed. */
  ghost predicate FailsWith(v: Verifier, source: Source, fault: Fault) {
    var raises := source.file.Existing? && !AllCountable(source.file.lines);
    var valid := source.file.Existing? && Accepted(v, source.file.lines);
    match fault
    case LogRaised(name) => name == source.name && raises
    case ChainFailed(name) => name == source.name && !raises && !valid
    case NotFullySigned(name) => name == source.name && valid && v.key == None
    case _ => false
  }

  datatype Examined = Bad(fault: Fault) | Good(entry: ChainEntry)

  lemma WhyBad(v: Verifier, source: Source, o: Outcome)
    requires o == if source.file.Existing? then OutcomeOf(v, source.file.lines) else Unread
    ensures o.Raised? ==> FailsWith(v, source, LogRaised(source.name))
    ensures o.Unread? || (o.Verified? && !o.summary.state.notes.chainValid) ==>
              FailsWith(v, source, ChainFailed(source.name))
    ensures o.Verified? && o.summary.state.notes.chainValid && v.key == None ==>
              FailsWith(v, source, NotFullySigned(source.name))
  {
    hide SummaryOf, Countable;
    if source.file.Existing? {
      CountableMeansAll(source.file.lines, |source.file.lines|);
    }
  }

  /** The checks the source makes of one log before it copies the log's terminal state. */
  method Examine(v: Verifier, source: Source) returns (e: Examined)
    ensures e.Good? <==> MayBeSealed(v, source)
    ensures e.Good? ==> Describes(v, source, e.entry)
    ensures e.Bad? ==> FailsWith(v, source, e.fault)
  {
    hide Breaks, FinalBreaks, LineReasons, FirstTimestamp, LastTimestamp, CountsBy, PriorHashes, PriorSequences;
    hide CountStatus, ChainIds, TerminalHash, Fingerprints, FirstSequence, LastSequence;
    hide FailsWith;
    var outcome := VerifyWormLog(v, source.file);
    WhyBad(v, source, outcome);
    if outcome.Raised? {
      return Bad(LogRaised(source.name));
    }
    if outcome.Unread? {
      return Bad(ChainFailed(source.name));
    }
    var st := outcome.summary.state;
    if !st.notes.chainValid {
      return Bad(ChainFailed(source.name));
    }
    AcceptedFields(v, source.file.lines);
    if st.tally.total < 1 || st.seals.valid != st.tally.total {
      return Bad(NotFullySigned(source.name));
    }
    if |st.links.ids| != 1 {
      return Bad(NotOneChain(source.name));
    }
    var chainId :| chainId in st.links.ids;
    OnlyElement(st.links.ids, chainId);
    e := Good(ChainEntry(
      chainId, st.order.first, st.order.last, st.links.terminal, st.tally.total,
      st.tally.firstTimestamp, st.tally.lastTimestamp, st.seals.fingerprints, source.name, source.sha256));
  }

  lemma OnlyElement(s: set<string>, x: string)
    requires |s| == 1 && x in s
    ensures s == {x}
  {
    assert |s - {x}| == 0;
    assert s == {x} + (s - {x});
  }

  predicate NameLe(a: Source, b: Source) {
    StringLe(a.name, b.name)
  }

  /** The logs in the order of their names. */
  function ByName(sources: seq<Source>): (r: seq<Source>)
    ensures |r| == |sources|
  {
    Sorted(NameLe, sources)
  }

  lemma ByNameAscends(sources: seq<Source>)
    ensures Ascending(NameLe, ByName(sources))
    ensures multiset(ByName(sources)) == multiset(sources)
  {
    hide StringLe, Sorted;
    forall a, b: Source ensures NameLe(a, b) || NameLe(b, a) {
      StringLeTotal(a.name, b.name);
    }
    forall a, b, c: Source | NameLe(a, b) && NameLe(b, c) ensures NameLe(a, c) {
      StringLeTransitive(a.name, b.name, c.name);
    }
    SortedAscends(NameLe, sources);
    SortedPermutes(NameLe, sources);
  }

  lemma SameMembersSealed(v: Verifier, a: seq<Source>, b: seq<Source>)
    requires forall x :: x in a ==> x in b
    requires forall i :: 0 <= i < |b| ==> MayBeSealed(v, b[i])
    ensures forall i :: 0 <= i < |a| ==> MayBeSealed(v, a[i])
  {
    hide MayBeSealed;
    forall i | 0 <= i < |a| ensures MayBeSealed(v, a[i]) {
      assert a[i] in b;
    }
  }

  lemma AllMayBeSealed(v: Verifier, sources: seq<Source>)
    ensures (forall i :: 0 <= i < |sources| ==> MayBeSealed(v, sources[i]))
            <==> forall i :: 0 <= i < |sources| ==> MayBeSealed(v, ByName(sources)[i])
  {
    hide MayBeSealed, Sorted, NameLe;
    forall x ensures x in ByName(sources) <==> x in sources {
      SortedMembers(NameLe, sources, x);
    }
    if forall i :: 0 <= i < |sources| ==> MayBeSealed(v, sources[i]) {
      SameMembersSealed(v, ByName(sources), sources);
    }
    if forall i :: 0 <= i < |sources| ==> MayBeSealed(v, ByName(sources)[i]) {
      SameMembersSealed(v, sources, ByName(sources));
    }
  }

  /** Log `i` is the first that may not be sealed. */
  ghost predicate FirstFault(v: Verifier, sources: seq<Source>, i: int) {
    && 0 <= i < |sources| && !MayBeSealed(v, sources[i])
    && forall j :: 0 <= j < i ==> MayBeSealed(v, sources[j])
  }

  /** `build_audit_checkpoint`: exactly the non-empty lists of sealable logs get a checkpoint, and it verifies. */
  method Build(v: Verifier, sources: seq<Source>, s: Sealer, checkpointId: string, createdAt: string) returns (b: Built)
    ensures b.Built? <==> sources != [] && forall i :: 0 <= i < |sources| ==> MayBeSealed(v, sources[i])
    ensures b.Built? ==>
              var m := b.checkpoint.manifest;
              && Attests(v, ByName(sources), m) && m.checkpointId == checkpointId && m.createdAt == createdAt
              && b.checkpoint.signature == s.sign(m)
              && (s.verifies(s.sign(m), m) ==> Verify(s, b.checkpoint))
    ensures b.Refused? ==>
              if sources == [] then b.fault == NoLogs
              else exists i :: FirstFault(v, ByName(sources), i) && FailsWith(v, ByName(sources)[i], b.fault)
  {
    hide Describes, MayBeSealed, ByName, FailsWith;
    if sources == [] {
      return Refused(NoLogs);
    }
    var ordered := ByName(sources);
    AllMayBeSealed(v, sources);
    var chains: seq<ChainEntry> := [];
    for i := 0 to |ordered|
      invariant |chains| == i
      invariant forall j :: 0 <= j < i ==> MayBeSealed(v, ordered[j]) && Describes(v, ordered[j], chains[j])
    {
      var examined := Examine(v, ordered[i]);
      if examined.Bad? {
        assert FirstFault(v, ordered, i);
        return Refused(examined.fault);
      }
      chains := chains + [examined.entry];
    }
    var manifest := Manifest(SCHEMA, checkpointId, createdAt, chains, |chains|, SumEvents(chains));
    b := Built(Checkpoint(manifest, s.digest(manifest), s.sign(manifest), s.fingerprint));
  }

  function RecordsOf(sources: seq<Source>): seq<seq<Line>> {
    seq(|sources|, i requires 0 <= i < |sources| =>
      if sources[i].file.Existing? then AllRecords(sources[i].file.lines) else [])
  }

  /** The total a checkpoint signs is the number of records in all its logs together. */
  lemma TotalIsRecords(v: Verifier, sources: seq<Source>, m: Manifest)
    requires Attests(v, sources, m)
    ensures m.totalEvents == |Join(RecordsOf(sources))|
  {
    hide AllRecords, Join;
    SumIsJoined(m.chains, RecordsOf(sources));
  }

  lemma {:induction false} SumIsJoined(chains: seq<ChainEntry>, records: seq<seq<Line>>)
    requires |chains| == |records| && forall i :: 0 <= i < |chains| ==> chains[i].totalEvents == |records[i]|
    ensures SumEvents(chains) == |Join(records)|
  {
    if chains != [] {
      var n := |chains| - 1;
      SumIsJoined(chains[..n], records[..n]);
      assert records == records[..n] + [records[n]];
      JoinSnoc(records[..n], records[n]);
    }
  }

  // ----- what a checkpoint pins down -----

  /** Each log of the one list is, record for record, the log in its place in the other. */
  ghost predicate SameHistories(a: seq<Source>, b: seq<Source>) {
    |a| == |b| && forall i :: 0 <= i < |a| ==> SameHistory(a[i], b[i])
  }

  ghost predicate SameHistory(a: Source, b: Source) {
    && a.file.Existing? && b.file.Existing?
    && |AllRecords(a.file.lines)| == |AllRecords(b.file.lines)|
    && forall k :: 0 <= k < |AllRecords(a.file.lines)| ==>
         HashedContent(AllRecords(a.file.lines)[k]) == HashedContent(AllRecords(b.file.lines)[k])
  }

  ghost predicate NoClash(v: Verifier, a: Source, b: Source) {
    a.file.Existing? && b.file.Existing? ==> NoCollision(v, a.file.lines, b.file.lines)
  }

  lemma EntryFixesHistory(v: Verifier, a: Source, b: Source, entry: ChainEntry)
    requires Describes(v, a, entry) && Describes(v, b, entry)
    requires NoClash(v, a, b)
    ensures SameHistory(a, b)
  {
    hide AllRecords, HashedContent, NoCollision, Accepted, TerminalHash;
    TerminalHashFixesHistory(v, a.file.lines, b.file.lines);
  }

  /**
    The terminal state a checkpoint signs fixes the whole history: logs described by
    checkpoints that agree on it are the same, record for record.
   */
  lemma CheckpointFixesHistories(v: Verifier, a: seq<Source>, b: seq<Source>, s: Sealer, c: Checkpoint, d: Checkpoint)
    requires Attests(v, a, c.manifest) && Attests(v, b, d.manifest)
    requires Verify(s, c) && Verify(s, d) && c.manifestHash == d.manifestHash
    requires s.digest(c.manifest) == s.digest(d.manifest) ==> c.manifest == d.manifest
    requires forall i :: 0 <= i < |a| && i < |b| ==> NoClash(v, a[i], b[i])
    ensures SameHistories(a, b)
  {
    hide SameHistory, Describes, NoClash;
    assert c.manifest == d.manifest;
    forall i | 0 <= i < |a| ensures SameHistory(a[i], b[i]) {
      EntryFixesHistory(v, a[i], b[i], c.manifest.chains[i]);
    }
  }
}
