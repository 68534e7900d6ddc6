/**
  The writer of the audit log: how each event is stamped, hashed, signed and appended, what
  a restart recovers, and exactly when the verifier accepts what was written.
 */
module AuditWriter {
  import opened Text
  import opened Json
  import opened KeyOrder
  import opened AuditLog
  import opened AuditHistory

  /**
    What becomes of a record: it never reaches the file, it is cut off in the middle, it is
    in the file but appending it raised (a failed `fsync`, say), or it is there and known to be.
   */
  datatype Fate = Lost | Torn | Unconfirmed | Confirmed

  /** An event handed to the writer, and what happens to it on its way. */
  datatype Event = Event(fields: map<string, Json>, severity: string, serializes: bool, signs: bool, fate: Fate)

  /** SHA-256 and the signing key, over the content of the canonical bytes. */
  datatype Keys = Keys(digest: Json -> string, sign: Json -> string, fingerprint: string)

  /**
    The chain state of the writer; the lines of its file, and what recovery gets of them: the
    last one (a repeated key keeps its last value), or nothing once a line is unparsable; whether
    the file ends in the middle of a line; whether the writer refused to start.
   */
  datatype Chain = Chain(
    chainId: string, sequence: int, lastHash: string, lines: seq<Line>, tail: Line, open: bool, down: bool)

  const SEALS: set<string> := {"hash", "signature", "public_key_fingerprint"}

  // ----- one record -----

  function Stamped(c: Chain, e: Event): map<string, Json> {
    e.fields["chain_id" := Str(c.chainId)]["sequence" := Int(c.sequence + 1)]["previous_hash" := Str(c.lastHash)]
  }

  /** What stands in for an event that cannot be serialized. */
  function Substitute(c: Chain, e: Event): map<string, Json> {
    map["event" := Str("AUDIT_SERIALIZATION_FAILURE"), "previous_hash" := Str(c.lastHash),
        "severity" := Str(e.severity)]
  }

  function Content(c: Chain, e: Event): map<string, Json> {
    if e.serializes then Stamped(c, e) else Substitute(c, e)
  }

  /** A dict dumped with sorted keys, and read back. */
  function Dumped(fields: map<string, Json>): Json {
    Obj(SortedKeys(fields.Keys), fields)
  }

  function HashOf(k: Keys, c: Chain, e: Event): string {
    k.digest(Dumped(Content(c, e)))
  }

  /** A record's fields: its content, then its hash, then its signature and fingerprint when it is signed. */
  function Sealed(content: map<string, Json>, hash: Json, seal: Option<(Json, Json)>): map<string, Json> {
    var hashed := content["hash" := hash];
    if seal == None then hashed
    else hashed["signature" := seal.value.0]["public_key_fingerprint" := seal.value.1]
  }

  /** The dump with the hash put in at its end: what is signed. */
  function WithHash(k: Keys, c: Chain, e: Event): (r: Line)
    ensures r.Record?
  {
    Record(SortedKeys(Content(c, e).Keys) + ["hash"], Sealed(Content(c, e), Str(HashOf(k, c, e)), None))
  }

  function SealOf(k: Keys, c: Chain, e: Event): Option<(Json, Json)> {
    if e.signs then Some((Str(k.sign(AsJson(WithHash(k, c, e)))), Str(k.fingerprint))) else None
  }

  function Tail(signed: bool): seq<string> {
    if signed then ["hash", "signature", "public_key_fingerprint"] else ["hash"]
  }

  function LineOf(k: Keys, c: Chain, e: Event): (r: Line)
    ensures r.Record?
    ensures r.order == SortedKeys(Content(c, e).Keys) + Tail(e.signs)
    ensures r.fields == Sealed(Content(c, e), Str(HashOf(k, c, e)), SealOf(k, c, e))
  {
    Record(SortedKeys(Content(c, e).Keys) + Tail(e.signs), Sealed(Content(c, e), Str(HashOf(k, c, e)), SealOf(k, c, e)))
  }

  /** The event brings a field the writer adds again, so the line has a key twice. */
  predicate RepeatsKey(e: Event) {
    e.serializes
    && ("hash" in e.fields || (e.signs && ("signature" in e.fields || "public_key_fingerprint" in e.fields)))
  }

  /** The line as the verifier reads it. */
  function StrictLine(k: Keys, c: Chain, e: Event): (r: Line)
    ensures r != Blank
  {
    if RepeatsKey(e) then RepeatedKey else LineOf(k, c, e)
  }

  ghost predicate NoneTwice(keys: seq<string>) {
    forall i, j :: 0 <= i < j < |keys| ==> keys[i] != keys[j]
  }

  /** A line comes back as a repeated key exactly when the text written has a key twice. */
  lemma RepeatsKeyIff(k: Keys, c: Chain, e: Event)
    ensures StrictLine(k, c, e) == RepeatedKey <==> !NoneTwice(LineOf(k, c, e).order)
    ensures StrictLine(k, c, e) != RepeatedKey ==> StrictLine(k, c, e) == LineOf(k, c, e)
  {
    hide SortedKeys, LineOf, Tail, NoneTwice, Content;
    SealsBrought(c, e, "hash");
    SealsBrought(c, e, "signature");
    SealsBrought(c, e, "public_key_fingerprint");
    var keys := Content(c, e).Keys;
    SortedOnce(keys);
    TailOnce(e.signs);
    JoinedOnce(SortedKeys(keys), Tail(e.signs));
    forall key ensures key in SortedKeys(keys) <==> key in keys {
      SortedKeysMembers(keys, key);
    }
  }

  lemma SortedOnce(s: set<string>)
    ensures NoneTwice(SortedKeys(s))
  {
    hide SortedKeys;
    forall i, j | 0 <= i < j < |SortedKeys(s)| ensures SortedKeys(s)[i] != SortedKeys(s)[j] {
      SortedKeysAscend(s, i, j);
    }
  }

  lemma TailOnce(signed: bool)
    ensures NoneTwice(Tail(signed))
    ensures forall key :: key in Tail(signed) <==>
              key == "hash" || (signed && (key == "signature" || key == "public_key_fingerprint"))
  {
  }

  lemma JoinedOnce(a: seq<string>, b: seq<string>)
    requires NoneTwice(a) && NoneTwice(b)
    ensures NoneTwice(a + b) <==> forall key :: key in b ==> key !in a
  {
    if key :| key in a && key in b {
      var i :| 0 <= i < |a| && a[i] == key;
      var j :| 0 <= j < |b| && b[j] == key;
      assert (a + b)[i] == (a + b)[|a| + j];
    } else {
      forall i, j | 0 <= i < j < |a + b| ensures (a + b)[i] != (a + b)[j] {
        if i < |a| <= j {
          assert a[i] in a && b[j - |a|] in b;
        }
      }
    }
  }

  lemma SealsBrought(c: Chain, e: Event, key: string)
    requires key == "hash" || key == "signature" || key == "public_key_fingerprint"
    ensures key in Content(c, e) <==> e.serializes && key in e.fields
  {
  }

  // ----- the file, and the state of the writer -----

  /** A line is appended, whole or cut off; right after a cut-off one it ends up on that line and is lost in it. */
  function Grown(c: Chain, strict: Line, loose: Line, whole: bool): Chain {
    if c.open then c.(open := !whole)
    else
      var tail := if c.tail == Unparsable then Unparsable else loose;
      c.(lines := c.lines + [strict], tail := tail, open := !whole)
  }

  function Next(k: Keys, c: Chain, e: Event): Chain {
    match e.fate
    case Lost => c
    case Torn => Grown(c, Unparsable, Unparsable, false)
    case Unconfirmed => Grown(c, StrictLine(k, c, e), LineOf(k, c, e), true)
    case Confirmed =>
      Grown(c, StrictLine(k, c, e), LineOf(k, c, e), true).(sequence := c.sequence + 1, lastHash := HashOf(k, c, e))
  }

  datatype Recovery = Unsafe | New | Recovered(chainId: string, sequence: int, lastHash: string)

  /** What `configure_durability` recovers from the last line, with the id a chain gets if that has none. */
  function Recover(tail: Line, newId: string): Recovery {
    if tail == Blank || (tail.Record? && tail.fields == map[]) then New
    else if !tail.Record? || !Truthy(Field(tail, "hash")) || !Field(tail, "hash").Str? then Unsafe
    else
      var sequence, chainId := Field(tail, "sequence"), Field(tail, "chain_id");
      Recovered(if Truthy(chainId) && chainId.Str? then chainId.s else newId,
                if sequence.Int? then sequence.i else 0, Field(tail, "hash").s)
  }

  /** Exactly what recovery does with a tail: one without a hash it can go on from is refused. */
  lemma RecoverIff(tail: Line, newId: string)
    ensures Recover(tail, newId) == New <==> tail == Blank || (tail.Record? && tail.fields == map[])
    ensures Recover(tail, newId).Recovered? <==>
              tail.Record? && "hash" in tail.fields && tail.fields["hash"].Str? && tail.fields["hash"] != Str("")
    ensures Recover(tail, newId).Recovered? ==>
              var found, chainId, sequence := Recover(tail, newId), Field(tail, "chain_id"), Field(tail, "sequence");
              && tail.fields["hash"] == Str(found.lastHash)
              && found.chainId == (if chainId.Str? && chainId != Str("") then chainId.s else newId)
              && found.sequence == (if sequence.Int? then sequence.i else 0)
  {
  }

  /** A new process on the same file; without a chain to go on with it starts one of its own. */
  function Restarted(c: Chain, newId: string, newHash: string): Chain {
    match Recover(c.tail, newId)
    case Unsafe => c.(down := true)
    case New => c.(chainId := newId, sequence := 0, lastHash := newHash)
    case Recovered(chainId, sequence, lastHash) => c.(chainId := chainId, sequence := sequence, lastHash := lastHash)
  }

  datatype Act = Log(event: Event) | Restart(newId: string, newHash: string)

  function Step(k: Keys, c: Chain, act: Act): Chain {
    if c.down then c
    else match act
      case Log(e) => Next(k, c, e)
      case Restart(newId, newHash) => Restarted(c, newId, newHash)
  }

  function Run(k: Keys, c: Chain, acts: seq<Act>): Chain {
    if acts == [] then c else Step(k, Run(k, c, acts[..|acts| - 1]), acts[|acts| - 1])
  }

  /** The logger and its file. */
  class AuditLogger {
    const keys: Keys
    var chainId: string
    var sequence: int
    var lastHash: string
    var lines: seq<Line>
    var tail: Line
    var open: bool
    var down: bool

    constructor (keys: Keys, c: Chain)
      ensures this.keys == keys && State() == c
    {
      this.keys := keys;
      chainId, sequence, lastHash := c.chainId, c.sequence, c.lastHash;
      lines, tail, open, down := c.lines, c.tail, c.open, c.down;
    }

    function State(): Chain
      reads this
    {
      Chain(chainId, sequence, lastHash, lines, tail, open, down)
    }

    method AppendLine(strict: Line, loose: Line, whole: bool)
      modifies `lines, `tail, `open
      ensures State() == Grown(old(State()), strict, loose, whole)
    {
      if !open {
        lines := lines + [strict];
        if tail != Unparsable {
          tail := loose;
        }
      }
      open := !whole;
    }

    /** The body of the worker's loop; appending raises unless the line is confirmed. */
    method Write(e: Event) returns (raised: bool)
      modifies this
      ensures State() == Next(keys, old(State()), e)
      ensures raised <==> !e.fate.Confirmed?
    {
      hide SortedKeys;
      var nextSequence := sequence + 1;
      var entry := e.fields["chain_id" := Str(chainId)]["sequence" := Int(nextSequence)];
      entry := entry["previous_hash" := Str(lastHash)];
      if !e.serializes {
        entry := map["event" := Str("AUDIT_SERIALIZATION_FAILURE"), "previous_hash" := Str(lastHash),
                     "severity" := Str(e.severity)];
      }
      var newHash := keys.digest(Dumped(entry));
      var line := Record(SortedKeys(entry.Keys) + ["hash"], entry["hash" := Str(newHash)]);
      if e.signs {
        var signature := keys.sign(AsJson(line));
        Assoc(SortedKeys(entry.Keys), ["hash"], ["signature", "public_key_fingerprint"]);
        assert ["hash"] + ["signature", "public_key_fingerprint"] == Tail(true);
        line := Record(line.order + ["signature", "public_key_fingerprint"],
                       line.fields["signature" := Str(signature)]["public_key_fingerprint" := Str(keys.fingerprint)]);
      }
      assert line == LineOf(keys, State(), e);
      raised := true;
      match e.fate {
        case Lost =>
        case Torn => AppendLine(Unparsable, Unparsable, false);
        case Unconfirmed => AppendLine(if RepeatsKey(e) then RepeatedKey else line, line, true);
        case Confirmed =>
          AppendLine(if RepeatsKey(e) then RepeatedKey else line, line, true);
          lastHash, sequence, raised := newHash, nextSequence, false;
      }
    }

    /** `configure_durability` in a new process, and the hash a chain of its own would start on. */
    method Recovery(newId: string, newHash: string)
      modifies this
      ensures State() == Restarted(old(State()), newId, newHash)
    {
      match Recover(tail, newId) {
        case Unsafe => down := true;
        case New => chainId, sequence, lastHash := newId, 0, newHash;
        case Recovered(id, last, hash) => chainId, sequence, lastHash := id, last, hash;
      }
    }

    /** Any number of events and restarts. */
    method Drive(acts: seq<Act>)
      modifies this
      ensures State() == Run(keys, old(State()), acts)
    {
      hide Next, Restarted;
      for i := 0 to |acts|
        invariant State() == Run(keys, old(State()), acts[..i])
      {
        assert acts[..i + 1][..i] == acts[..i];
        if !down {
          match acts[i] {
            case Log(e) => var raised := Write(e);
            case Restart(newId, newHash) => Recovery(newId, newHash);
          }
        }
      }
      assert acts[..|acts|] == acts;
    }
  }

  // ----- what the verifier reads back -----

  lemma {:induction false} KeepAll(order: seq<string>, exclude: set<string>)
    requires forall key :: key in order ==> key !in exclude
    ensures Keep(order, exclude) == order
  {
    if order != [] {
      KeepAll(order[1..], exclude);
    }
  }

  lemma {:induction false} KeepAppend(a: seq<string>, b: seq<string>, exclude: set<string>)
    ensures Keep(a + b, exclude) == Keep(a, exclude) + Keep(b, exclude)
  {
    if a == [] {
      assert a + b == b;
    } else {
      assert (a + b)[1..] == a[1..] + b;
      KeepAppend(a[1..], b, exclude);
      Assoc(if a[0] in exclude then [] else [a[0]], Keep(a[1..], exclude), Keep(b, exclude));
    }
  }

  /** No field of the event is one the writer seals with. */
  predicate IsPlain(e: Event) {
    e.serializes ==> e.fields.Keys !! SEALS
  }

  lemma ContentIsPlain(c: Chain, e: Event)
    requires IsPlain(e)
    ensures Content(c, e).Keys !! SEALS
  {
  }

  lemma KeepTail(order: seq<string>, tail: seq<string>, kept: seq<string>, exclude: set<string>)
    requires (forall key :: key in order ==> key !in exclude) && Keep(tail, exclude) == kept
    ensures Keep(order + tail, exclude) == order + kept
  {
    KeepAppend(order, tail, exclude);
    KeepAll(order, exclude);
  }

  lemma KeepSeals(signed: bool)
    ensures Keep(Tail(signed), SEALS) == [] && Keep(Tail(signed), {"signature", "public_key_fingerprint"}) == ["hash"]
  {
    var tail := Tail(signed);
    if signed {
      var two := ["signature", "public_key_fingerprint"];
      assert two[1..] == ["public_key_fingerprint"] && ["public_key_fingerprint"][1..] == [];
      assert Keep(two, SEALS) == [] && Keep(two, {"signature", "public_key_fingerprint"}) == [];
      assert tail[1..] == two;
    } else {
      assert tail[1..] == [];
    }
  }

  lemma SealedReadsBack(content: map<string, Json>, hash: Json, seal: Option<(Json, Json)>)
    requires content.Keys !! SEALS
    ensures Sealed(content, hash, seal) - SEALS == content
    ensures Sealed(content, hash, seal) - {"signature", "public_key_fingerprint"} == Sealed(content, hash, None)
  {
  }

  lemma SealedFields(content: map<string, Json>, hash: Json, seal: Option<(Json, Json)>, order: seq<string>)
    ensures var j := Obj(order, Sealed(content, hash, seal));
            && (forall key :: key !in SEALS ==> Get(j, key) == Get(Obj(order, content), key))
            && Get(j, "hash") == hash
            && (content.Keys !! SEALS || seal != None ==>
                  && Get(j, "signature") == (if seal == None then Null else seal.value.0)
                  && Get(j, "public_key_fingerprint") == (if seal == None then Null else seal.value.1))
  {
  }

  /** Stripped of its seals, a written record is what was hashed; without the last two, what was signed. */
  lemma ReadsBack(k: Keys, c: Chain, e: Event)
    requires IsPlain(e)
    ensures HashedContent(LineOf(k, c, e)) == Dumped(Content(c, e))
    ensures SignedContent(LineOf(k, c, e)) == AsJson(WithHash(k, c, e))
  {
    hide SortedKeys, Content, LineOf, HashOf, Keep, Sealed, SealOf, Tail;
    var order := SortedKeys(Content(c, e).Keys);
    ContentIsPlain(c, e);
    KeepSeals(e.signs);
    forall key | key in order ensures key !in SEALS {
      SortedKeysMembers(Content(c, e).Keys, key);
    }
    KeepTail(order, Tail(e.signs), [], SEALS);
    KeepTail(order, Tail(e.signs), ["hash"], {"signature", "public_key_fingerprint"});
    assert order + [] == order;
    SealedReadsBack(Content(c, e), Str(HashOf(k, c, e)), SealOf(k, c, e));
  }

  // ----- what a written record says -----

  /**
    The verifier hashes as the writer does and, if it has a key, it is the writer's;
    nothing hashes or signs to the empty string.
   */
  ghost predicate Fits(v: Verifier, k: Keys) {
    && (forall j :: v.digest(j) == k.digest(j) != "")
    && IsFingerprint(Str(k.fingerprint))
    && (forall j :: k.sign(j) != "" && v.wellEncoded(k.sign(j)))
    && (v.key.Some? ==>
          && v.key.value.fingerprint == k.fingerprint
          && forall j :: v.key.value.verifies(k.sign(j), j))
  }

  /** The event can begin a chain on this hash. */
  predicate Anchors(e: Event, lastHash: string) {
    || lastHash == GenesisHash()
    || (lastHash != "" && "initial_hash" in e.fields && e.fields["initial_hash"] == Str(lastHash))
  }

  /** Nothing went wrong with the event that this verifier looks for. */
  predicate Sound(v: Verifier, e: Event) {
    && !e.fate.Torn? && e.serializes && IsPlain(e)
    && (v.key.Some? ==> e.signs)
    && Countable(Record([], e.fields))
  }

  /**
    An unsigned event that brings a signature of its own is hashed with it and verified
    without it; the two contents do not hash to the same.
   */
  ghost predicate OwnSealShows(k: Keys, e: Event) {
    !IsPlain(e) && !RepeatsKey(e) ==> forall c: Chain :: k.digest(HashedContent(LineOf(k, c, e))) != HashOf(k, c, e)
  }

  lemma ContentFields(c: Chain, e: Event)
    ensures var j := Dumped(Content(c, e));
            && Get(j, "previous_hash") == Str(c.lastHash)
            && Get(j, "chain_id") == (if e.serializes then Str(c.chainId) else Null)
            && Get(j, "sequence") == (if e.serializes then Int(c.sequence + 1) else Null)
            && (e.serializes ==> Get(j, "initial_hash") == Get(Obj([], e.fields), "initial_hash"))
  {
    hide SortedKeys, Substitute;
    if !e.serializes {
      SubstituteFields(c, e);
    }
  }

  lemma SubstituteFields(c: Chain, e: Event)
    ensures "previous_hash" in Substitute(c, e) && Substitute(c, e)["previous_hash"] == Str(c.lastHash)
    ensures "chain_id" !in Substitute(c, e) && "sequence" !in Substitute(c, e)
  {
  }

  lemma SameField(k: Keys, c: Chain, e: Event, key: string)
    requires key !in SEALS
    ensures Field(LineOf(k, c, e), key) == Get(Dumped(Content(c, e)), key)
  {
    hide SortedKeys, HashOf, LineOf, Sealed, SealOf, Content;
    SealedFields(Content(c, e), Str(HashOf(k, c, e)), SealOf(k, c, e), LineOf(k, c, e).order);
  }

  lemma LineFields(k: Keys, c: Chain, e: Event)
    ensures var r := LineOf(k, c, e);
            && Field(r, "hash") == Str(HashOf(k, c, e))
            && Field(r, "previous_hash") == Str(c.lastHash)
            && Field(r, "chain_id") == (if e.serializes then Str(c.chainId) else Null)
            && Field(r, "sequence") == (if e.serializes then Int(c.sequence + 1) else Null)
            && (e.serializes ==> Field(r, "initial_hash") == Get(Obj([], e.fields), "initial_hash"))
  {
    hide SortedKeys, HashOf, LineOf, Sealed, SealOf, Content, Get;
    ContentFields(c, e);
    SameField(k, c, e, "previous_hash");
    SameField(k, c, e, "chain_id");
    SameField(k, c, e, "sequence");
    SameField(k, c, e, "initial_hash");
    SealedFields(Content(c, e), Str(HashOf(k, c, e)), SealOf(k, c, e), LineOf(k, c, e).order);
  }

  lemma LineSeals(v: Verifier, k: Keys, c: Chain, e: Event)
    requires IsPlain(e) && Fits(v, k)
    ensures WellSealed(v, LineOf(k, c, e)) <==> (v.key.Some? ==> e.signs)
  {
    hide SortedKeys, HashOf, LineOf, WithHash, Sealed, SignedContent, Content, Get;
    var r := LineOf(k, c, e);
    ContentIsPlain(c, e);
    ReadsBack(k, c, e);
    SealedFields(Content(c, e), Str(HashOf(k, c, e)), SealOf(k, c, e), r.order);
    assert AsJson(r) == Obj(r.order, Sealed(Content(c, e), Str(HashOf(k, c, e)), SealOf(k, c, e)));
    var signed := AsJson(WithHash(k, c, e));
    assert e.signs ==>
      Field(r, "signature") == Str(k.sign(signed)) && Field(r, "public_key_fingerprint") == Str(k.fingerprint);
  }

  lemma LineCounts(k: Keys, c: Chain, e: Event)
    requires e.serializes
    ensures Countable(LineOf(k, c, e)) <==> Countable(Record([], e.fields))
  {
    hide SortedKeys, HashOf, LineOf, SealOf, Hashable;
    var r := LineOf(k, c, e);
    FieldKept(k, c, e, "event", Str("UNKNOWN"));
    FieldKept(k, c, e, "severity", Str("INFO"));
  }

  lemma FieldKept(k: Keys, c: Chain, e: Event, key: string, default: Json)
    requires e.serializes && key !in SEALS && key !in {"chain_id", "sequence", "previous_hash"}
    ensures FieldOr(LineOf(k, c, e), key, default) == FieldOr(Record([], e.fields), key, default)
  {
    hide SortedKeys, HashOf, LineOf, SealOf;
    SealedKeeps(Content(c, e), Str(HashOf(k, c, e)), SealOf(k, c, e), key);
  }

  lemma SealedKeeps(content: map<string, Json>, hash: Json, seal: Option<(Json, Json)>, key: string)
    requires key !in SEALS
    ensures key in Sealed(content, hash, seal) <==> key in content
    ensures key in content ==> Sealed(content, hash, seal)[key] == content[key]
  {
  }

  // ----- a line in its place -----

  ghost predicate AllRecord(lines: seq<Line>) {
    forall i :: 0 <= i < |lines| ==> lines[i].Record?
  }

  /** The lines are an intact chain of this id that the verifier can count. */
  ghost predicate IntactAs(v: Verifier, lines: seq<Line>, chainId: string) {
    AllRecord(lines) && AllCountable(lines) && IsChain(v, lines, chainId) && chainId != ""
  }

  ghost predicate Intact(v: Verifier, lines: seq<Line>) {
    exists chainId :: IntactAs(v, lines, chainId)
  }

  lemma IntactSnoc(v: Verifier, lines: seq<Line>, r: Line, chainId: string)
    requires AllRecord(lines)
    ensures IntactAs(v, lines + [r], chainId)
            <==> IntactAs(v, lines, chainId) && r.Record? && Countable(r)
                 && RecordInPlace(v, lines + [r], |lines|, chainId)
  {
    hide RecordInPlace, IsChain, Countable;
    var longer := lines + [r];
    assert forall i :: 0 <= i < |lines| ==> longer[i] == lines[i];
    assert longer[|lines|] == r;
    if r.Record? {
      ChainGrows(v, lines, r, chainId);
    }
  }

  lemma NotIntactStays(v: Verifier, lines: seq<Line>, r: Line)
    requires !Intact(v, lines)
    ensures !Intact(v, lines + [r])
  {
    hide IntactAs;
    forall chainId ensures !IntactAs(v, lines + [r], chainId) {
      assert !IntactAs(v, lines, chainId);
      if AllRecord(lines) {
        IntactSnoc(v, lines, r, chainId);
      } else {
        NotAllRecord(v, lines, r, chainId);
      }
    }
  }

  lemma NotAllRecord(v: Verifier, lines: seq<Line>, r: Line, chainId: string)
    requires !AllRecord(lines) || !r.Record?
    ensures !IntactAs(v, lines + [r], chainId)
  {
    hide IsChain, AllCountable;
    if r.Record? {
      var i :| 0 <= i < |lines| && !lines[i].Record?;
      assert (lines + [r])[i] == lines[i];
    } else {
      assert (lines + [r])[|lines|] == r;
    }
  }

  lemma AcceptedIffIntact(v: Verifier, lines: seq<Line>)
    requires Blank !in lines
    ensures Accepted(v, lines) <==> lines != [] && Intact(v, lines)
  {
    hide Accepted, IsChain, AllCountable;
    AcceptedIffIntactChain(v, lines);
    if Accepted(v, lines) {
      var chainId := ChainOf(v, lines);
      NoBlankAllRecord(lines, chainId);
      assert IntactAs(v, lines, chainId);
    }
    if lines != [] && Intact(v, lines) {
      var chainId :| IntactAs(v, lines, chainId);
      RecordsOfRecords(lines, |lines|);
      assert lines[..|lines|] == lines;
      PrefixIsChain(v, lines, |lines|, chainId);
    }
  }

  lemma NoBlankAllRecord(lines: seq<Line>, chainId: string)
    requires Blank !in lines && OneChainOnly(lines, |lines|, chainId)
    ensures AllRecord(lines) && AllRecords(lines) == lines && chainId != ""
  {
    assert forall i :: 0 <= i < |lines| ==> lines[i] in lines;
    RecordsOfRecords(lines, |lines|);
    assert lines[..|lines|] == lines;
  }

  /** The state is that of the last line. */
  ghost predicate InStep(c: Chain) {
    && c.sequence == |c.lines|
    && (c.lines != [] ==>
          c.lines[|c.lines| - 1].Record? && Field(c.lines[|c.lines| - 1], "hash") == Str(c.lastHash))
  }

  /** The last line is one ahead of the state. */
  ghost predicate Behind(c: Chain) {
    c.lines != [] && c.sequence == |c.lines| - 1
  }

  lemma LineAnchors(k: Keys, c: Chain, e: Event)
    requires e.serializes
    ensures IsChainAnchor(LineOf(k, c, e)) <==> Anchors(e, c.lastHash)
  {
    hide LineOf, GenesisHash;
    LineFields(k, c, e);
    StringsCompareExactly(GenesisHash(), Str(c.lastHash));
    StringsCompareExactly(c.lastHash, Field(LineOf(k, c, e), "initial_hash"));
  }

  lemma HashOfContent(k: Keys, c: Chain, e: Event)
    ensures HashOf(k, c, e) == k.digest(Dumped(Content(c, e)))
  {
  }

  lemma HashInPlace(v: Verifier, k: Keys, c: Chain, e: Event)
    requires Fits(v, k) && OwnSealShows(k, e) && !RepeatsKey(e)
    ensures HashOf(k, c, e) == v.digest(HashedContent(LineOf(k, c, e))) <==> IsPlain(e)
  {
    hide LineOf, HashOf, HashedContent, IsPlain, RepeatsKey, Dumped, Content;
    if IsPlain(e) {
      ReadsBack(k, c, e);
      HashOfContent(k, c, e);
    }
  }

  /** A whole line is in its place exactly when nothing is wrong with its event and, as the first, it anchors. */
  lemma InPlaceIff(v: Verifier, k: Keys, c: Chain, e: Event)
    requires Fits(v, k) && OwnSealShows(k, e) && !RepeatsKey(e) && InStep(c)
    ensures var longer := c.lines + [LineOf(k, c, e)];
            RecordInPlace(v, longer, |c.lines|, c.chainId)
            <==> && e.serializes && IsPlain(e) && (v.key.Some? ==> e.signs)
                 && (c.lines == [] ==> Anchors(e, c.lastHash))
  {
    hide LineOf, HashOf, WellSealed, IsChainAnchor, HashedContent, Anchors, IsPlain, RepeatsKey, OwnSealShows;
    LineFields(k, c, e);
    HashInPlace(v, k, c, e);
    if e.serializes {
      LineAnchors(k, c, e);
    }
    if IsPlain(e) {
      LineSeals(v, k, c, e);
    }
  }

  lemma PlainRepeatsNothing(e: Event)
    ensures IsPlain(e) ==> !RepeatsKey(e)
  {
  }

  /** A line appended in step keeps the chain intact exactly when its event is sound and, as the first, anchors it. */
  lemma IntactInStep(v: Verifier, k: Keys, c: Chain, e: Event)
    requires Fits(v, k) && OwnSealShows(k, e) && !e.fate.Torn?
    requires IntactAs(v, c.lines, c.chainId) && InStep(c)
    ensures IntactAs(v, c.lines + [StrictLine(k, c, e)], c.chainId)
            <==> Sound(v, e) && (c.lines == [] ==> Anchors(e, c.lastHash))
  {
    hide LineOf, RecordInPlace, Anchors, Fits, OwnSealShows, IsChain, AllCountable;
    hide Countable, IsPlain, RepeatsKey, InStep;
    PlainRepeatsNothing(e);
    if RepeatsKey(e) {
      NotAllRecord(v, c.lines, RepeatedKey, c.chainId);
    } else {
      IntactSnoc(v, c.lines, LineOf(k, c, e), c.chainId);
      InPlaceIff(v, k, c, e);
      if e.serializes {
        LineCounts(k, c, e);
      }
    }
  }

  /** A line appended behind breaks it, whatever the event: its sequence number is taken. */
  lemma BehindBreaks(v: Verifier, k: Keys, c: Chain, e: Event)
    requires AllRecord(c.lines) && Behind(c)
    ensures !Intact(v, c.lines + [StrictLine(k, c, e)])
  {
    hide LineOf, IsChain, AllCountable, Countable, WellSealed, IsChainAnchor, HashedContent;
    LineFields(k, c, e);
    forall chainId ensures !IntactAs(v, c.lines + [StrictLine(k, c, e)], chainId) {
      if RepeatsKey(e) {
        NotAllRecord(v, c.lines, RepeatedKey, chainId);
      } else {
        IntactSnoc(v, c.lines, LineOf(k, c, e), chainId);
      }
    }
  }

  // ----- a whole run -----

  function Fresh(chainId: string, lastHash: string): Chain {
    Chain(chainId, 0, lastHash, [], Blank, false, false)
  }

  /** The act puts something into the file. */
  predicate Appends(act: Act) {
    act.Log? && !act.event.fate.Lost?
  }

  /** Something is in the file. */
  predicate Started(acts: seq<Act>) {
    acts != [] && (Started(acts[..|acts| - 1]) || Appends(acts[|acts| - 1]))
  }

  /** The last line in the file is one the writer does not know to be there. */
  predicate Pending(acts: seq<Act>) {
    acts != [] &&
    match acts[|acts| - 1]
    case Restart(_, _) => false
    case Log(e) => if e.fate.Lost? then Pending(acts[..|acts| - 1]) else e.fate.Unconfirmed?
  }

  /** The hash the chain would begin on. */
  function InForce(lastHash: string, acts: seq<Act>): string {
    if acts == [] then lastHash
    else match acts[|acts| - 1]
      case Restart(_, newHash) => newHash
      case Log(_) => InForce(lastHash, acts[..|acts| - 1])
  }

  /** The event may be appended after `before` without breaking the log. */
  ghost predicate MayFollow(v: Verifier, lastHash: string, before: seq<Act>, e: Event) {
    && Sound(v, e)
    && !Pending(before)
    && (Started(before) || Anchors(e, InForce(lastHash, before)))
  }

  ghost predicate AllMayFollow(v: Verifier, lastHash: string, acts: seq<Act>) {
    forall j :: 0 <= j < |acts| && Appends(acts[j]) ==> MayFollow(v, lastHash, acts[..j], acts[j].event)
  }

  lemma MayFollowSnoc(v: Verifier, lastHash: string, acts: seq<Act>)
    requires acts != []
    ensures var before, act := acts[..|acts| - 1], acts[|acts| - 1];
            AllMayFollow(v, lastHash, acts)
            <==> AllMayFollow(v, lastHash, before) && (Appends(act) ==> MayFollow(v, lastHash, before, act.event))
  {
    hide MayFollow;
    var before := acts[..|acts| - 1];
    assert forall j :: 0 <= j < |before| ==> before[j] == acts[j] && before[..j] == acts[..j];
    if AllMayFollow(v, lastHash, acts) {
      forall j | 0 <= j < |before| && Appends(before[j]) ensures MayFollow(v, lastHash, before[..j], before[j].event) {
        assert MayFollow(v, lastHash, acts[..j], acts[j].event);
      }
    }
  }

  /** What a run needs from the world: new chains have ids, and an event's own seal shows. */
  ghost predicate Given(k: Keys, acts: seq<Act>) {
    forall i :: 0 <= i < |acts| ==>
      match acts[i]
      case Log(e) => OwnSealShows(k, e)
      case Restart(newId, _) => newId != ""
  }

  /** As long as no event broke the log: intact lines, and a state in step with them or one behind. */
  ghost predicate GoesOn(v: Verifier, lastHash: string, acts: seq<Act>, w: Chain) {
    && !w.down && IntactAs(v, w.lines, w.chainId)
    && !w.open && w.tail == (if w.lines == [] then Blank else w.lines[|w.lines| - 1])
    && (w.lines != [] <==> Started(acts))
    && (if Pending(acts) then Behind(w) else InStep(w))
    && (w.lines == [] ==> !Pending(acts) && w.lastHash == InForce(lastHash, acts))
  }

  ghost predicate IsBroken(v: Verifier, acts: seq<Act>, w: Chain) {
    Started(acts) && w.lines != [] && !Intact(v, w.lines)
  }

  lemma BlankNever(k: Keys, c: Chain, acts: seq<Act>)
    requires c.lines == []
    ensures Blank !in Run(k, c, acts).lines
  {
    hide StrictLine, LineOf, Restarted, Recover, HashOf;
    if acts != [] {
      BlankNever(k, c, acts[..|acts| - 1]);
      var w, act := Run(k, c, acts[..|acts| - 1]), acts[|acts| - 1];
      StepAddsNoBlank(k, w, act);
    }
  }

  lemma StepAddsNoBlank(k: Keys, c: Chain, act: Act)
    requires Blank !in c.lines
    ensures Blank !in Step(k, c, act).lines
  {
    hide LineOf, Recover, HashOf, RepeatsKey;
  }

  /** Once broken, a log stays broken. */
  lemma BrokenStays(v: Verifier, k: Keys, before: seq<Act>, w: Chain, act: Act)
    requires IsBroken(v, before, w)
    ensures IsBroken(v, before + [act], Step(k, w, act))
  {
    hide Intact, Step;
    assert (before + [act])[..|before|] == before;
    var r := StepAdds(k, w, act);
    NotIntactStays(v, w.lines, r);
  }

  /** An act adds a line to the file or leaves it as it is. */
  lemma StepAdds(k: Keys, c: Chain, act: Act) returns (r: Line)
    ensures Step(k, c, act).lines == c.lines || Step(k, c, act).lines == c.lines + [r]
  {
    hide LineOf, Recover, HashOf, StrictLine;
    r := if act.Log? && !act.event.fate.Torn? then StrictLine(k, c, act.event) else Unparsable;
  }

  /** A restart leaves the lines alone and puts the state in step with them. */
  lemma RestartGoesOn(v: Verifier, lastHash: string, before: seq<Act>, w: Chain, newId: string, newHash: string)
    requires GoesOn(v, lastHash, before, w) && newId != "" && (forall j :: v.digest(j) != "")
    ensures var r := Restarted(w, newId, newHash);
            && GoesOn(v, lastHash, before + [Restart(newId, newHash)], r)
            && (w.lines != [] && !Pending(before) ==> r == w)
            && (w.lines != [] ==> r.chainId == w.chainId && r.lines == w.lines && InStep(r))
  {
    hide IsChain, AllCountable, Field, AllRecord;
    assert (before + [Restart(newId, newHash)])[..|before|] == before;
    if w.lines != [] {
      LastInPlace(v, w.lines, w.chainId);
      HasFields(w.tail, "hash");
    } else {
      EmptyIntact(v, newId);
    }
  }

  lemma HasFields(r: Line, key: string)
    requires r.Record? && Field(r, key) != Null
    ensures r.fields != map[]
  {
  }

  lemma EmptyIntact(v: Verifier, chainId: string)
    requires chainId != ""
    ensures IntactAs(v, [], chainId)
  {
  }

  /** What the last record of an intact chain says of the chain. */
  lemma LastInPlace(v: Verifier, lines: seq<Line>, chainId: string)
    requires lines != [] && IntactAs(v, lines, chainId) && (forall j :: v.digest(j) != "")
    ensures var last := lines[|lines| - 1];
            && last.Record? && Field(last, "chain_id") == Str(chainId) && Field(last, "sequence") == Int(|lines|)
            && Field(last, "hash").Str? && Field(last, "hash").s != ""
            && Truthy(Field(last, "hash")) && Truthy(Field(last, "chain_id"))
  {
    hide WellSealed, IsChainAnchor, HashedContent, AllCountable, Field;
    assert RecordInPlace(v, lines, |lines| - 1, chainId);
  }

  lemma TornBreaks(v: Verifier, k: Keys, lastHash: string, before: seq<Act>, w: Chain, e: Event)
    requires GoesOn(v, lastHash, before, w) && e.fate.Torn?
    ensures !Sound(v, e) && IsBroken(v, before + [Log(e)], Next(k, w, e))
  {
    hide IntactAs, LineOf, HashOf;
    AppendStarts(before, e);
    TailIsRecord(v, lastHash, before, w);
    TornIsUnsound(v, e);
    forall chainId ensures !IntactAs(v, w.lines + [Unparsable], chainId) {
      NotAllRecord(v, w.lines, Unparsable, chainId);
    }
  }

  lemma AppendStarts(before: seq<Act>, e: Event)
    requires !e.fate.Lost?
    ensures Started(before + [Log(e)]) && (Pending(before + [Log(e)]) <==> e.fate.Unconfirmed?)
  {
  }

  lemma TailIsRecord(v: Verifier, lastHash: string, before: seq<Act>, w: Chain)
    requires GoesOn(v, lastHash, before, w)
    ensures w.tail != Unparsable && !w.open && AllRecord(w.lines)
  {
    hide IsChain, AllCountable;
  }

  /** The file after a whole line. */
  lemma WholeLine(k: Keys, w: Chain, e: Event)
    requires w.tail != Unparsable && !w.open && (e.fate.Unconfirmed? || e.fate.Confirmed?)
    ensures var next := Next(k, w, e);
            && next.lines == w.lines + [StrictLine(k, w, e)] && next.tail == LineOf(k, w, e)
            && next.chainId == w.chainId && next.down == w.down && !next.open
            && next.sequence == w.sequence + (if e.fate.Confirmed? then 1 else 0)
            && (e.fate.Confirmed? ==> next.lastHash == HashOf(k, w, e))
  {
    hide LineOf, StrictLine, HashOf;
  }

  lemma PendingBreaks(v: Verifier, k: Keys, lastHash: string, before: seq<Act>, w: Chain, e: Event)
    requires GoesOn(v, lastHash, before, w) && Pending(before) && (e.fate.Unconfirmed? || e.fate.Confirmed?)
    ensures IsBroken(v, before + [Log(e)], Next(k, w, e))
  {
    hide Intact, StrictLine, Next, IntactAs;
    AppendStarts(before, e);
    TailIsRecord(v, lastHash, before, w);
    WholeLine(k, w, e);
    BehindBreaks(v, k, w, e);
  }

  lemma InStepGoesOn(v: Verifier, k: Keys, lastHash: string, before: seq<Act>, w: Chain, e: Event)
    requires GoesOn(v, lastHash, before, w) && Fits(v, k) && OwnSealShows(k, e)
    requires !Pending(before) && (e.fate.Unconfirmed? || e.fate.Confirmed?)
    ensures if MayFollow(v, lastHash, before, e) then GoesOn(v, lastHash, before + [Log(e)], Next(k, w, e))
            else IsBroken(v, before + [Log(e)], Next(k, w, e))
  {
    hide Fits, OwnSealShows, Sound, Anchors, LineOf, StrictLine, HashOf, Next, IntactAs, Field;
    AppendStarts(before, e);
    TailIsRecord(v, lastHash, before, w);
    WholeLine(k, w, e);
    LineFields(k, w, e);
    StrictIsRecord(k, w, e);
    IntactInStep(v, k, w, e);
    OnlyIts(v, k, w, e);
    if IntactAs(v, w.lines + [StrictLine(k, w, e)], w.chainId) {
      LastIsRecord(v, w.lines, StrictLine(k, w, e), w.chainId);
    }
  }

  lemma LastIsRecord(v: Verifier, lines: seq<Line>, r: Line, chainId: string)
    requires IntactAs(v, lines + [r], chainId)
    ensures r.Record?
  {
    hide IsChain, AllCountable;
    assert (lines + [r])[|lines|] == r;
  }

  /** An appended event keeps the log going if it may follow, and breaks it if not. */
  lemma EventGoesOn(v: Verifier, k: Keys, lastHash: string, before: seq<Act>, w: Chain, e: Event)
    requires GoesOn(v, lastHash, before, w) && Fits(v, k) && OwnSealShows(k, e) && !e.fate.Lost?
    ensures if MayFollow(v, lastHash, before, e) then GoesOn(v, lastHash, before + [Log(e)], Next(k, w, e))
            else IsBroken(v, before + [Log(e)], Next(k, w, e))
  {
    hide Fits, OwnSealShows, Sound, Anchors, GoesOn, IsBroken, Next, Pending, Started;
    if e.fate.Torn? {
      TornBreaks(v, k, lastHash, before, w, e);
    } else if Pending(before) {
      PendingBreaks(v, k, lastHash, before, w, e);
    } else {
      InStepGoesOn(v, k, lastHash, before, w, e);
    }
  }

  lemma TornIsUnsound(v: Verifier, e: Event)
    requires e.fate.Torn?
    ensures !Sound(v, e)
  {
  }

  lemma StrictIsRecord(k: Keys, c: Chain, e: Event)
    ensures StrictLine(k, c, e).Record? ==> StrictLine(k, c, e) == LineOf(k, c, e)
  {
  }

  /** If the longer log is not intact under its own id, it is not intact at all. */
  lemma OnlyIts(v: Verifier, k: Keys, c: Chain, e: Event)
    requires IntactAs(v, c.lines, c.chainId) && Fits(v, k)
    ensures var longer := c.lines + [StrictLine(k, c, e)];
            Intact(v, longer) ==> IntactAs(v, longer, c.chainId)
  {
    hide LineOf, HashOf, IsChain, AllCountable, RepeatsKey, Fits;
    var r, longer := StrictLine(k, c, e), c.lines + [StrictLine(k, c, e)];
    StrictIsRecord(k, c, e);
    LineFields(k, c, e);
    if chainId :| IntactAs(v, longer, chainId) {
      IntactSnoc(v, c.lines, r, chainId);
      LastId(v, longer, chainId);
    }
  }

  lemma LastId(v: Verifier, lines: seq<Line>, chainId: string)
    requires lines != [] && IntactAs(v, lines, chainId)
    ensures Field(lines[|lines| - 1], "chain_id") == Str(chainId)
  {
    hide WellSealed, IsChainAnchor, HashedContent, AllCountable;
    assert RecordInPlace(v, lines, |lines| - 1, chainId);
  }

  /** The invariant of every run, over events and restarts in any order. */
  lemma {:induction false} RunGoesOn(v: Verifier, k: Keys, chainId: string, lastHash: string, acts: seq<Act>)
    requires Fits(v, k) && Given(k, acts) && chainId != ""
    ensures var w := Run(k, Fresh(chainId, lastHash), acts);
            if AllMayFollow(v, lastHash, acts) then GoesOn(v, lastHash, acts, w) else IsBroken(v, acts, w)
  {
    hide Fits, OwnSealShows, MayFollow, AllMayFollow, GoesOn, IsBroken, Next, Restarted;
    if acts == [] {
      FreshGoesOn(v, chainId, lastHash);
    } else {
      var before, act := acts[..|acts| - 1], acts[|acts| - 1];
      var w := Run(k, Fresh(chainId, lastHash), before);
      assert acts == before + [act];
      RunGoesOn(v, k, chainId, lastHash, before);
      MayFollowSnoc(v, lastHash, acts);
      StepGoesOn(v, k, lastHash, before, w, act);
    }
  }

  lemma FreshGoesOn(v: Verifier, chainId: string, lastHash: string)
    requires chainId != ""
    ensures AllMayFollow(v, lastHash, []) && GoesOn(v, lastHash, [], Fresh(chainId, lastHash))
  {
    EmptyIntact(v, chainId);
  }

  lemma StepGoesOn(v: Verifier, k: Keys, lastHash: string, before: seq<Act>, w: Chain, act: Act)
    requires Fits(v, k)
    requires match act case Log(e) => OwnSealShows(k, e) case Restart(newId, _) => newId != ""
    ensures IsBroken(v, before, w) ==> IsBroken(v, before + [act], Step(k, w, act))
    ensures GoesOn(v, lastHash, before, w) ==>
              if Appends(act) && !MayFollow(v, lastHash, before, act.event)
              then IsBroken(v, before + [act], Step(k, w, act))
              else GoesOn(v, lastHash, before + [act], Step(k, w, act))
  {
    hide OwnSealShows, MayFollow, GoesOn, IsBroken, Restarted, LineOf, StrictLine, HashOf;
    if IsBroken(v, before, w) {
      BrokenStays(v, k, before, w, act);
    }
    if GoesOn(v, lastHash, before, w) {
      StillUp(v, lastHash, before, w);
      match act
      case Restart(newId, newHash) => RestartGoesOn(v, lastHash, before, w, newId, newHash);
      case Log(e) =>
        if e.fate.Lost? {
          LostGoesOn(v, lastHash, before, w, e);
        } else {
          EventGoesOn(v, k, lastHash, before, w, e);
        }
    }
  }

  lemma StillUp(v: Verifier, lastHash: string, acts: seq<Act>, w: Chain)
    requires GoesOn(v, lastHash, acts, w)
    ensures !w.down
  {
  }

  lemma LostGoesOn(v: Verifier, lastHash: string, before: seq<Act>, w: Chain, e: Event)
    requires GoesOn(v, lastHash, before, w) && e.fate.Lost?
    ensures GoesOn(v, lastHash, before + [Log(e)], w)
  {
    hide IntactAs, InStep, Behind;
    assert (before + [Log(e)])[..|before|] == before;
  }

  /**
    Exactly when the verifier accepts what was written, over any run of events and restarts:
    something was written, nothing went wrong with any appended event, none was appended
    while a line the writer does not know of was last in the file, and the first one begins
    the chain.
   */
  lemma WrittenAcceptedIff(v: Verifier, k: Keys, chainId: string, lastHash: string, acts: seq<Act>)
    requires Fits(v, k) && Given(k, acts) && chainId != ""
    ensures Accepted(v, Run(k, Fresh(chainId, lastHash), acts).lines) <==>
              && Started(acts)
              && forall j :: 0 <= j < |acts| && Appends(acts[j]) ==>
                   && Sound(v, acts[j].event)
                   && !Pending(acts[..j])
                   && (Started(acts[..j]) || Anchors(acts[j].event, InForce(lastHash, acts[..j])))
  {
    hide Accepted, Fits, Given, Run, Started, Pending, Sound, Anchors, InForce, IntactAs, InStep, Behind;
    var w := Run(k, Fresh(chainId, lastHash), acts);
    RunGoesOn(v, k, chainId, lastHash, acts);
    BlankNever(k, Fresh(chainId, lastHash), acts);
    AcceptedIffIntact(v, w.lines);
    assert AllMayFollow(v, lastHash, acts) <==> forall j :: 0 <= j < |acts| && Appends(acts[j]) ==>
        MayFollow(v, lastHash, acts[..j], acts[j].event);
  }

  // ----- what a cut-off line does -----

  /** Once a line was cut off, no new process goes on with the file: the first one to try refuses to start. */
  lemma {:induction false} NoRestartAfterCut(k: Keys, c: Chain, acts: seq<Act>)
    requires c.tail == Unparsable
    ensures var w := Run(k, c, acts);
            && w.tail == Unparsable
            && (w.down <==> c.down || exists i :: 0 <= i < |acts| && acts[i].Restart?)
            && (c.down ==> w == c)
  {
    hide Step;
    if acts != [] {
      var before, act := acts[..|acts| - 1], acts[|acts| - 1];
      NoRestartAfterCut(k, c, before);
      StepAfterCut(k, Run(k, c, before), act);
      assert acts == before + [act];
    }
  }

  lemma StepAfterCut(k: Keys, c: Chain, act: Act)
    requires c.tail == Unparsable
    ensures var w := Step(k, c, act);
            w.tail == Unparsable && (w.down <==> c.down || act.Restart?) && (c.down ==> w == c)
  {
    hide LineOf, StrictLine, HashOf;
  }

  /** The next line, whole or not, is lost in the one that was cut off; after a whole one the file goes on. */
  lemma CutSwallowsNext(k: Keys, c: Chain, torn: Event, next: Event, later: Event)
    requires !c.down && !c.open && torn.fate.Torn? && !next.fate.Lost? && !next.fate.Torn? && later.fate.Confirmed?
    ensures var w := Step(k, Step(k, c, Log(torn)), Log(next));
            && w.lines == c.lines + [Unparsable]
            && Step(k, w, Log(later)).lines == c.lines + [Unparsable, StrictLine(k, w, later)]
  {
    hide Step;
    var w := Step(k, c, Log(torn));
    Appended(k, c, torn);
    Appended(k, w, next);
    Appended(k, Step(k, w, Log(next)), later);
    assert c.lines + [Unparsable] + [StrictLine(k, Step(k, w, Log(next)), later)]
        == c.lines + [Unparsable, StrictLine(k, Step(k, w, Log(next)), later)];
  }

  lemma Appended(k: Keys, c: Chain, e: Event)
    requires !c.down && !e.fate.Lost?
    ensures var w := Step(k, c, Log(e));
            && !w.down && (w.open <==> e.fate.Torn?)
            && w.lines == c.lines + if c.open then [] else [if e.fate.Torn? then Unparsable else StrictLine(k, c, e)]
  {
    hide LineOf, StrictLine, HashOf;
  }

  // ----- what a written record holds -----

  /** The record of an event: its own fields with the chain's three, then its seals. */
  lemma WrittenFields(k: Keys, c: Chain, e: Event, key: string)
    requires e.serializes && key != "hash" && key != "signature" && key != "public_key_fingerprint"
    ensures Field(LineOf(k, c, e), key) ==
              if key == "previous_hash" then Str(c.lastHash)
              else if key == "sequence" then Int(c.sequence + 1)
              else if key == "chain_id" then Str(c.chainId)
              else if key in e.fields then e.fields[key] else Null
  {
    hide LineOf, HashOf, SortedKeys, Field;
    SameField(k, c, e, key);
  }

  /** The record written in place of an event that cannot be serialized. */
  lemma SubstituteFieldsAre(k: Keys, c: Chain, e: Event, key: string)
    requires !e.serializes && key != "hash" && key != "signature" && key != "public_key_fingerprint"
    ensures Field(LineOf(k, c, e), key) ==
              if key == "event" then Str("AUDIT_SERIALIZATION_FAILURE")
              else if key == "previous_hash" then Str(c.lastHash)
              else if key == "severity" then Str(e.severity)
              else Null
  {
    hide LineOf, HashOf, SortedKeys, Field;
    SameField(k, c, e, key);
  }

  /** The seals are over what the verifier takes them to be over. */
  lemma WrittenSeals(k: Keys, c: Chain, e: Event)
    requires IsPlain(e)
    ensures var r := LineOf(k, c, e);
            && Field(r, "hash") == Str(k.digest(HashedContent(r)))
            && Field(r, "signature") == (if e.signs then Str(k.sign(SignedContent(r))) else Null)
            && Field(r, "public_key_fingerprint") == (if e.signs then Str(k.fingerprint) else Null)
  {
    hide SortedKeys, LineOf, Content, Sealed, Get;
    ReadsBack(k, c, e);
    ContentIsPlain(c, e);
    SealedFields(Content(c, e), Str(HashOf(k, c, e)), SealOf(k, c, e), LineOf(k, c, e).order);
  }

  // ----- what does not show -----

  function Kept(acts: seq<Act>): seq<Act> {
    if acts == [] then []
    else
      var act := acts[|acts| - 1];
      Kept(acts[..|acts| - 1]) + if act.Log? && act.event.fate.Lost? then [] else [act]
  }

  /** An event that never reached the file leaves no trace: not a line, not a number, not a hash. */
  lemma {:induction false} LostEventsLeaveNoTrace(k: Keys, c: Chain, acts: seq<Act>)
    ensures Run(k, c, acts) == Run(k, c, Kept(acts))
  {
    hide Grown, LineOf, StrictLine, HashOf, Restarted;
    if acts != [] {
      var before, act := acts[..|acts| - 1], acts[|acts| - 1];
      LostEventsLeaveNoTrace(k, c, before);
      if act.Log? && act.event.fate.Lost? {
        assert Kept(acts) == Kept(before);
      } else {
        assert Kept(acts)[..|Kept(before)|] == Kept(before);
      }
    }
  }

  lemma {:induction false} RunAppend(k: Keys, c: Chain, a: seq<Act>, b: seq<Act>)
    ensures Run(k, c, a + b) == Run(k, Run(k, c, a), b)
  {
    hide Step;
    if b == [] {
      assert a + b == a;
    } else {
      var shorter := b[..|b| - 1];
      assert (a + b)[..|a + b| - 1] == a + shorter;
      RunAppend(k, c, a, shorter);
    }
  }

  lemma GoingOn(v: Verifier, k: Keys, chainId: string, lastHash: string, acts: seq<Act>) returns (w: Chain)
    requires Fits(v, k) && Given(k, acts) && chainId != ""
    requires Accepted(v, Run(k, Fresh(chainId, lastHash), acts).lines)
    ensures w == Run(k, Fresh(chainId, lastHash), acts) && w.lines != [] && GoesOn(v, lastHash, acts, w)
  {
    hide Accepted, Fits, Given, Run, GoesOn, AllMayFollow;
    w := Run(k, Fresh(chainId, lastHash), acts);
    RunGoesOn(v, k, chainId, lastHash, acts);
    BlankNever(k, Fresh(chainId, lastHash), acts);
    AcceptedIffIntact(v, w.lines);
  }

  /**
    As long as the log is accepted, a restart puts the state in step with its last line and
    changes nothing else; it changes nothing at all exactly when no unconfirmed line is last.
   */
  lemma RestartRepairs(v: Verifier, k: Keys, chainId: string, lastHash: string, acts: seq<Act>,
                       newId: string, newHash: string)
    requires Fits(v, k) && Given(k, acts) && chainId != "" && newId != ""
    requires Accepted(v, Run(k, Fresh(chainId, lastHash), acts).lines)
    ensures var c, act := Fresh(chainId, lastHash), Restart(newId, newHash);
            var w, r := Run(k, c, acts), Run(k, c, acts + [act]);
            r.lines == w.lines && r.chainId == w.chainId && InStep(r) && (r == w <==> !Pending(acts))
  {
    hide Accepted, IntactAs, Recover, Given;
    var w := GoingOn(v, k, chainId, lastHash, acts);
    assert (acts + [Restart(newId, newHash)])[..|acts|] == acts;
    RestartGoesOn(v, lastHash, acts, w, newId, newHash);
  }

  /** So a restart with no unconfirmed line pending does not show, whatever is written after it. */
  lemma AcceptedAcrossRestart(v: Verifier, k: Keys, chainId: string, lastHash: string, a: seq<Act>, b: seq<Act>,
                              newId: string, newHash: string)
    requires Fits(v, k) && Given(k, a) && chainId != "" && newId != ""
    requires Accepted(v, Run(k, Fresh(chainId, lastHash), a).lines) && !Pending(a)
    ensures Run(k, Fresh(chainId, lastHash), a + [Restart(newId, newHash)] + b)
         == Run(k, Fresh(chainId, lastHash), a + b)
  {
    hide Accepted, Fits, Given, Run, Pending, InStep;
    RestartRepairs(v, k, chainId, lastHash, a, newId, newHash);
    RunAppend(k, Fresh(chainId, lastHash), a + [Restart(newId, newHash)], b);
    RunAppend(k, Fresh(chainId, lastHash), a, b);
  }

  /** Recovery right after an event goes on where the writer stood exactly when it was serialized and confirmed. */
  lemma RestartIff(k: Keys, c: Chain, e: Event, newId: string, newHash: string)
    requires c.chainId != "" && c.sequence >= 0 && c.tail != Unparsable && !c.open && newId != c.chainId
    requires (e.fate.Confirmed? || e.fate.Unconfirmed?) && HashOf(k, c, e) != ""
    ensures Restarted(Next(k, c, e), newId, newHash) == Next(k, c, e) <==> e.serializes && e.fate.Confirmed?
    ensures e.serializes ==>
              Restarted(Next(k, c, e), newId, newHash) == Next(k, c, e.(fate := Confirmed))
  {
    hide LineOf, HashOf, StrictLine, Field;
    LineFields(k, c, e);
    HasFields(LineOf(k, c, e), "hash");
    assert StrictLine(k, c, e) == StrictLine(k, c, e.(fate := Confirmed)) by {
      FateDoesNotShow(k, c, e);
    }
    FateDoesNotShow(k, c, e);
  }

  lemma FateDoesNotShow(k: Keys, c: Chain, e: Event)
    ensures var confirmed := e.(fate := Confirmed);
            && LineOf(k, c, e) == LineOf(k, c, confirmed) && HashOf(k, c, e) == HashOf(k, c, confirmed)
            && StrictLine(k, c, e) == StrictLine(k, c, confirmed)
  {
    hide SortedKeys;
    assert Content(c, e) == Content(c, e.(fate := Confirmed));
  }

  // ----- inputs -----

  const STARTUP :=
    Event(map["event" := Str("PROXY_STARTUP"), "initial_hash" := Str("5eed")], "INFO", true, true, Confirmed)
  const LATER := Event(map["event" := Str("PROXY_TRAFFIC_EVENT")], "INFO", true, true, Confirmed)

  lemma StartupIsSound(v: Verifier, k: Keys, fate: Fate)
    ensures OwnSealShows(k, STARTUP.(fate := fate)) && Anchors(STARTUP.(fate := fate), "5eed")
    ensures fate != Torn ==> Sound(v, STARTUP.(fate := fate))
  {
    var e := STARTUP.(fate := fate);
    assert e.fields.Keys == {"event", "initial_hash"};
    assert IsPlain(e);
    assert FieldOr(Record([], e.fields), "event", Str("UNKNOWN")).Str?;
    assert FieldOr(Record([], e.fields), "severity", Str("INFO")).Str?;
  }

  lemma LaterIsSound(v: Verifier, k: Keys, serializes: bool)
    ensures OwnSealShows(k, LATER.(serializes := serializes))
    ensures Sound(v, LATER.(serializes := serializes)) <==> serializes
  {
    var e := LATER.(serializes := serializes);
    assert e.fields.Keys == {"event"};
    assert IsPlain(e);
    assert FieldOr(Record([], e.fields), "event", Str("UNKNOWN")).Str?;
    assert FieldOr(Record([], e.fields), "severity", Str("INFO")).Str?;
  }

  /** The lines a fresh chain called `worker` has after these acts. */
  function Example(k: Keys, acts: seq<Act>): seq<Line> {
    Run(k, Fresh("worker", "5eed"), acts).lines
  }

  /** A log the verifier accepts, with or without the key. */
  lemma StartupIsAccepted(v: Verifier, k: Keys)
    requires Fits(v, k)
    ensures Accepted(v, Example(k, [Log(STARTUP)]))
  {
    hide Accepted, Fits, Run, Sound, Anchors, OwnSealShows;
    var acts := [Log(STARTUP)];
    StartupIsSound(v, k, Confirmed);
    assert STARTUP.(fate := Confirmed) == STARTUP;
    assert acts[..0] == [];
    WrittenAcceptedIff(v, k, "worker", "5eed", acts);
  }

  /** The record that stands in for an unserializable event breaks the chain it was written to keep. */
  lemma SubstituteIsRejected(v: Verifier, k: Keys)
    requires Fits(v, k)
    ensures !Accepted(v, Example(k, [Log(STARTUP), Log(LATER.(serializes := false))]))
  {
    hide Accepted, Fits, Run, Sound, Anchors, OwnSealShows;
    var acts := [Log(STARTUP), Log(LATER.(serializes := false))];
    StartupIsSound(v, k, Confirmed);
    LaterIsSound(v, k, false);
    assert STARTUP.(fate := Confirmed) == STARTUP;
    assert Appends(acts[1]) && !Sound(v, acts[1].event);
    WrittenAcceptedIff(v, k, "worker", "5eed", acts);
  }

  /** Two sound events, the first of them in the file but not confirmed: the second takes its number again. */
  lemma UnconfirmedIsRejected(v: Verifier, k: Keys)
    requires Fits(v, k)
    ensures !Accepted(v, Example(k, [Log(STARTUP.(fate := Unconfirmed)), Log(LATER)]))
  {
    hide Accepted, Fits, Run, Sound, Anchors, OwnSealShows;
    var acts := [Log(STARTUP.(fate := Unconfirmed)), Log(LATER)];
    StartupIsSound(v, k, Unconfirmed);
    LaterIsSound(v, k, true);
    assert LATER.(serializes := true) == LATER;
    assert acts[..1] == [acts[0]];
    assert Appends(acts[1]) && Pending(acts[..1]);
    WrittenAcceptedIff(v, k, "worker", "5eed", acts);
  }

  /** With a restart between them they are accepted. */
  lemma RestartSavesUnconfirmed(v: Verifier, k: Keys)
    requires Fits(v, k)
    ensures Accepted(v, Example(k, [Log(STARTUP.(fate := Unconfirmed)), Restart("next", "5eed"), Log(LATER)]))
  {
    hide Accepted, Fits, Run, Sound, Anchors, OwnSealShows;
    var acts := [Log(STARTUP.(fate := Unconfirmed)), Restart("next", "5eed"), Log(LATER)];
    StartupIsSound(v, k, Unconfirmed);
    LaterIsSound(v, k, true);
    assert LATER.(serializes := true) == LATER;
    assert acts[..0] == [] && acts[..1] == [acts[0]] && acts[..2][..1] == acts[..1];
    assert Started(acts[..1]) && Started(acts[..2]) && !Pending(acts[..2]);
    assert acts[..|acts| - 1] == acts[..2];
    WrittenAcceptedIff(v, k, "worker", "5eed", acts);
  }
}
