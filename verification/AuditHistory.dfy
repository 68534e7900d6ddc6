/** What acceptance of an audit log means: one intact chain, and a terminal hash that fixes its history. */
module AuditHistory {
  import opened Text
  import opened Json
  import opened AuditLog

  /** The verifier returns, and reports `chain_valid` true. */
  predicate Accepted(v: Verifier, lines: seq<Line>) {
    OutcomeOf(v, lines).Verified? && OutcomeOf(v, lines).summary.state.notes.chainValid
  }

  /** Nothing is noted against the log; the verifier may still not get through it. */
  predicate Clean(v: Verifier, lines: seq<Line>) {
    AllBreaks(v, lines) == []
  }

  /** Every record's event and severity can be counted. */
  ghost predicate AllCountable(lines: seq<Line>) {
    forall i :: 0 <= i < |lines| ==> Countable(lines[i])
  }

  lemma AcceptedMeans(v: Verifier, lines: seq<Line>)
    ensures Accepted(v, lines) <==> AllCountable(lines) && Clean(v, lines)
  {
    hide AllBreaks, Unanchored;
    CountableMeansAll(lines, |lines|);
  }

  /** The signature fields of a record are in order. */
  ghost predicate WellSealed(v: Verifier, r: Line)
    requires r.Record?
  {
    var fingerprint, signature := Field(r, "public_key_fingerprint"), Field(r, "signature");
    && (Present(signature) <==> Present(fingerprint))
    && (Present(fingerprint) ==> IsFingerprint(fingerprint))
    && (Present(signature) ==> signature.Str? && v.wellEncoded(signature.s))
    && (v.key.Some? ==>
          && Present(signature)
          && fingerprint == Str(v.key.value.fingerprint)
          && v.key.value.verifies(signature.s, SignedContent(r)))
  }

  /** Record `i` of a chain: numbered, hashed, linked to the record before it, and sealed. */
  ghost predicate RecordInPlace(v: Verifier, rs: seq<Line>, i: nat, chainId: string)
    requires i < |rs| && rs[i].Record? && (i > 0 ==> rs[i - 1].Record?)
  {
    var r := rs[i];
    && Field(r, "chain_id") == Str(chainId)
    && Field(r, "sequence") == Int(i + 1)
    && v.digest(HashedContent(r)) != "" && Field(r, "hash") == Str(v.digest(HashedContent(r)))
    && (if i == 0 then IsChainAnchor(r) else Field(r, "previous_hash") == Field(rs[i - 1], "hash"))
    && WellSealed(v, r)
  }

  ghost predicate IsChain(v: Verifier, rs: seq<Line>, chainId: string)
    requires forall i :: 0 <= i < |rs| ==> rs[i].Record?
  {
    forall i :: 0 <= i < |rs| ==> RecordInPlace(v, rs, i, chainId)
  }

  /** Every line is blank or a record of the one chain. */
  ghost predicate OneChainOnly(lines: seq<Line>, n: nat, chainId: string)
    requires n <= |lines|
  {
    && chainId != ""
    && forall i :: 0 <= i < n ==>
         lines[i] == Blank || (lines[i].Record? && Field(lines[i], "chain_id") == Str(chainId))
  }

  // ----- one record -----

  lemma SealReasonsIff(v: Verifier, r: Line)
    requires r.Record?
    ensures FingerprintReasons(v, r) == [] && SignatureReasons(v, r) == [] <==> WellSealed(v, r)
  {
  }

  lemma HashReasonsIff(v: Verifier, r: Line)
    requires r.Record?
    ensures HashReasons(v, r) == []
            <==> v.digest(HashedContent(r)) != "" && Field(r, "hash") == Str(v.digest(HashedContent(r)))
  {
  }

  lemma TagIsEmpty(lineNo: nat, event: Option<Json>, reasons: seq<Reason>)
    ensures Tag(lineNo, event, reasons) == [] <==> reasons == []
  {
    assert |Tag(lineNo, event, reasons)| == |reasons|;
  }

  /** A record's line is clean exactly when each of its checks is. */
  lemma RecordCleanIff(v: Verifier, lines: seq<Line>, n: nat)
    requires n < |lines| && lines[n].Record?
    ensures var r, key := lines[n], ChainKey(n + 1, lines[n]);
            LineReasons(v, lines, n) == [] <==>
              && HashReasons(v, r) == [] && ChainIdReasons(r) == []
              && LinkReasons(Lookup(PriorHashes(lines, n), key), r) == []
              && SequenceReasons(Lookup(PriorSequences(lines, n), key), r) == []
              && FingerprintReasons(v, r) == [] && SignatureReasons(v, r) == []
  {
    hide HashReasons, ChainIdReasons, LinkReasons, SequenceReasons, FingerprintReasons, SignatureReasons;
    hide ChainKey, PriorHashes, PriorSequences, Lookup;
  }

  lemma NoRecordCleanIff(v: Verifier, lines: seq<Line>, n: nat)
    requires n < |lines| && !lines[n].Record?
    ensures LineReasons(v, lines, n) == [] <==> lines[n] == Blank
  {
  }

  lemma BreaksStep(v: Verifier, lines: seq<Line>, n: nat)
    requires 0 < n <= |lines|
    ensures Breaks(v, lines, n) == [] <==> Breaks(v, lines, n - 1) == [] && LineReasons(v, lines, n - 1) == []
  {
    hide LineReasons;
    var event, reasons := EventOf(lines[n - 1]), LineReasons(v, lines, n - 1);
    TagIsEmpty(n, event, reasons);
    assert Breaks(v, lines, n) == Breaks(v, lines, n - 1) + Tag(n, event, reasons);
  }

  /** The chain's memory after an intact prefix: its last hash and its length. */
  ghost predicate Remembers(lines: seq<Line>, n: nat, chainId: string)
    requires n <= |lines|
  {
    var rs := Records(lines, n);
    && Lookup(PriorHashes(lines, n), chainId) == (if rs == [] then None else Some(Field(rs[|rs| - 1], "hash")))
    && Lookup(PriorSequences(lines, n), chainId) == (if rs == [] then None else Some(|rs|))
    && TerminalHash(lines, n) == (if rs == [] then Null else Field(rs[|rs| - 1], "hash"))
  }

  lemma LinksIff(rs: seq<Line>, r: Line)
    requires (forall i :: 0 <= i < |rs| ==> rs[i].Record?) && r.Record?
    requires rs != [] ==> Field(rs[|rs| - 1], "hash").Str?
    ensures LinkReasons(if rs == [] then None else Some(Field(rs[|rs| - 1], "hash")), r) == []
            <==> if rs == [] then IsChainAnchor(r) else Field(r, "previous_hash") == Field(rs[|rs| - 1], "hash")
    ensures SequenceReasons(if rs == [] then None else Some(|rs|), r) == [] <==> Field(r, "sequence") == Int(|rs| + 1)
  {
    if rs != [] {
      StringsCompareExactly(Field(rs[|rs| - 1], "hash").s, Field(r, "previous_hash"));
    }
  }

  lemma {:induction false} NextRecordIff(v: Verifier, lines: seq<Line>, n: nat, chainId: string)
    requires n < |lines| && lines[n].Record? && chainId != "" && Field(lines[n], "chain_id") == Str(chainId)
    requires IsChain(v, Records(lines, n), chainId) && Remembers(lines, n, chainId)
    ensures var rs := Records(lines, n) + [lines[n]];
            LineReasons(v, lines, n) == [] <==> RecordInPlace(v, rs, |rs| - 1, chainId)
  {
    hide LineReasons, HashReasons, LinkReasons, SequenceReasons, FingerprintReasons, SignatureReasons;
    hide WellSealed, IsChainAnchor, HashedContent, PriorHashes, PriorSequences, TerminalHash, Records;
    var r, rs := lines[n], Records(lines, n);
    RecordCleanIff(v, lines, n);
    SealReasonsIff(v, r);
    HashReasonsIff(v, r);
    assert rs != [] ==> RecordInPlace(v, rs, |rs| - 1, chainId);
    LinksIff(rs, r);
  }

  lemma ChainGrows(v: Verifier, rs: seq<Line>, r: Line, chainId: string)
    requires (forall i :: 0 <= i < |rs| ==> rs[i].Record?) && r.Record?
    ensures var longer := rs + [r];
            IsChain(v, longer, chainId) <==> IsChain(v, rs, chainId) && RecordInPlace(v, longer, |rs|, chainId)
  {
    var longer := rs + [r];
    assert forall i :: 0 <= i < |rs| ==> longer[i] == rs[i];
    forall i | 0 <= i < |rs| ensures RecordInPlace(v, longer, i, chainId) <==> RecordInPlace(v, rs, i, chainId) {
      assert i > 0 ==> longer[i - 1] == rs[i - 1];
    }
  }

  lemma NothingRemembered(v: Verifier, lines: seq<Line>, chainId: string)
    ensures Breaks(v, lines, 0) == [] && Remembers(lines, 0, chainId) && IsChain(v, Records(lines, 0), chainId)
  {
  }

  lemma NotARecordKeeps(lines: seq<Line>, n: nat, chainId: string)
    requires 0 < n <= |lines| && !lines[n - 1].Record?
    ensures Records(lines, n) == Records(lines, n - 1)
    ensures Remembers(lines, n, chainId) <==> Remembers(lines, n - 1, chainId)
  {
    assert Records(lines, n) == Records(lines, n - 1);
  }

  /** On lines of one chain, no break is noted exactly when the records form an intact chain. */
  lemma {:induction false} NoBreaksIffChain(v: Verifier, lines: seq<Line>, n: nat, chainId: string)
    requires n <= |lines| && OneChainOnly(lines, n, chainId)
    ensures Breaks(v, lines, n) == [] <==> IsChain(v, Records(lines, n), chainId)
    ensures IsChain(v, Records(lines, n), chainId) ==> Remembers(lines, n, chainId)
  {
    hide LineReasons, RecordInPlace, Breaks, TerminalHash, PriorHashes, PriorSequences, IsChain, Remembers;
    if n == 0 {
      NothingRemembered(v, lines, chainId);
    }
    if n > 0 {
      NoBreaksIffChain(v, lines, n - 1, chainId);
      BreaksStep(v, lines, n);
      if lines[n - 1].Record? {
        ChainGrows(v, Records(lines, n - 1), lines[n - 1], chainId);
        if IsChain(v, Records(lines, n - 1), chainId) {
          NextRecordIff(v, lines, n - 1, chainId);
          MemoryGrows(v, lines, n, chainId);
        }
      } else {
        NoRecordCleanIff(v, lines, n - 1);
        NotARecordKeeps(lines, n, chainId);
      }
    }
  }

  lemma PlaceMarks(v: Verifier, rs: seq<Line>, i: nat, chainId: string)
    requires i < |rs| && rs[i].Record? && (i > 0 ==> rs[i - 1].Record?) && RecordInPlace(v, rs, i, chainId)
    ensures Field(rs[i], "chain_id") == Str(chainId) && Field(rs[i], "sequence") == Int(i + 1)
    ensures Truthy(Field(rs[i], "hash")) && HasSequence(rs[i])
  {
    hide WellSealed, IsChainAnchor, HashedContent;
  }

  lemma MemoryGrows(v: Verifier, lines: seq<Line>, n: nat, chainId: string)
    requires 0 < n <= |lines| && lines[n - 1].Record? && chainId != "" && Remembers(lines, n - 1, chainId)
    ensures var rs := Records(lines, n);
            RecordInPlace(v, rs, |rs| - 1, chainId) ==> Remembers(lines, n, chainId)
  {
    hide RecordInPlace, Truthy, Field, Records;
    var r, before := lines[n - 1], Records(lines, n - 1);
    RecordsStep(lines, n);
    if RecordInPlace(v, before + [r], |before|, chainId) {
      PlaceMarks(v, before + [r], |before|, chainId);
      assert HasChainId(r) && ChainKey(n, r) == chainId;
    }
  }

  // ----- the whole log -----

  /** A line without breaks is blank, or a record with a chain id. */
  lemma {:induction false} CleanLines(v: Verifier, lines: seq<Line>, n: nat)
    requires n <= |lines| && Breaks(v, lines, n) == []
    ensures forall i :: 0 <= i < n ==> lines[i] == Blank || (lines[i].Record? && HasChainId(lines[i]))
    ensures forall i :: 0 <= i < n && lines[i].Record? && HasChainId(lines[i]) ==>
              Field(lines[i], "chain_id").s in ChainIds(lines, n)
  {
    hide LineReasons;
    if n > 0 {
      BreaksStep(v, lines, n);
      CleanLines(v, lines, n - 1);
      if lines[n - 1].Record? {
        RecordCleanIff(v, lines, n - 1);
      } else {
        NoRecordCleanIff(v, lines, n - 1);
      }
      assert ChainIds(lines, n - 1) <= ChainIds(lines, n);
    }
  }

  lemma {:induction false} ChainIdsOfOne(lines: seq<Line>, n: nat, chainId: string)
    requires n <= |lines| && OneChainOnly(lines, n, chainId)
    ensures ChainIds(lines, n) == if Records(lines, n) == [] then {} else {chainId}
  {
    if n > 0 {
      ChainIdsOfOne(lines, n - 1, chainId);
    }
  }

  lemma {:induction false} SomeRecordHasId(lines: seq<Line>, n: nat)
    requires n <= |lines| && Records(lines, n) != []
    ensures exists i :: 0 <= i < n && lines[i].Record?
  {
    if !lines[n - 1].Record? {
      SomeRecordHasId(lines, n - 1);
    }
  }

  lemma AtMostOne(s: set<string>, a: string, b: string)
    requires |s| <= 1 && a in s && b in s
    ensures a == b
  {
    assert |s - {a}| == |s| - 1;
    assert b !in s - {a};
  }

  lemma CleanMeans(v: Verifier, lines: seq<Line>)
    requires Clean(v, lines)
    ensures Breaks(v, lines, |lines|) == [] && AllRecords(lines) != [] && |ChainIds(lines, |lines|)| <= 1
  {
    hide Breaks, ChainIds, Records;
    assert |FinalBreaks(lines)| == 0;
  }

  lemma CleanIsChain(v: Verifier, lines: seq<Line>) returns (chainId: string)
    requires Clean(v, lines)
    ensures AllRecords(lines) != [] && OneChainOnly(lines, |lines|, chainId) && IsChain(v, AllRecords(lines), chainId)
  {
    hide Breaks, ChainIds, IsChain, Clean, Records;
    var n := |lines|;
    CleanMeans(v, lines);
    CleanLines(v, lines, n);
    SomeRecordHasId(lines, n);
    var i :| 0 <= i < n && lines[i].Record?;
    chainId := Field(lines[i], "chain_id").s;
    forall j | 0 <= j < n && lines[j].Record? ensures Field(lines[j], "chain_id") == Str(chainId) {
      AtMostOne(ChainIds(lines, n), chainId, Field(lines[j], "chain_id").s);
    }
    NoBreaksIffChain(v, lines, n, chainId);
  }

  lemma ChainIsClean(v: Verifier, lines: seq<Line>, chainId: string)
    requires AllRecords(lines) != [] && OneChainOnly(lines, |lines|, chainId) && IsChain(v, AllRecords(lines), chainId)
    ensures Clean(v, lines)
  {
    hide Breaks, ChainIds, IsChain, Records;
    NoBreaksIffChain(v, lines, |lines|, chainId);
    ChainIdsOfOne(lines, |lines|, chainId);
  }

  /** Nothing is noted against a log exactly when it is one intact chain. */
  lemma CleanIffIntactChain(v: Verifier, lines: seq<Line>)
    ensures Clean(v, lines) <==>
              AllRecords(lines) != []
              && exists chainId :: OneChainOnly(lines, |lines|, chainId) && IsChain(v, AllRecords(lines), chainId)
  {
    hide Clean, AllRecords, OneChainOnly, IsChain;
    if Clean(v, lines) {
      var chainId := CleanIsChain(v, lines);
    }
    if AllRecords(lines) != [] {
      if chainId :| OneChainOnly(lines, |lines|, chainId) && IsChain(v, AllRecords(lines), chainId) {
        ChainIsClean(v, lines, chainId);
      }
    }
  }

  /**
    A log is accepted exactly when it is one non-empty chain: anchored, numbered from one,
    every hash recomputed, every link and seal in order, every event and severity fit to be
    counted, and no other lines but blank ones.
   */
  lemma AcceptedIffIntactChain(v: Verifier, lines: seq<Line>)
    ensures Accepted(v, lines) <==>
              && AllCountable(lines)
              && AllRecords(lines) != []
              && exists chainId :: OneChainOnly(lines, |lines|, chainId) && IsChain(v, AllRecords(lines), chainId)
  {
    hide Clean, AllRecords, OneChainOnly, IsChain, AllCountable, Accepted;
    AcceptedMeans(v, lines);
    CleanIffIntactChain(v, lines);
  }

  lemma ChainOf(v: Verifier, lines: seq<Line>) returns (chainId: string)
    requires Accepted(v, lines)
    ensures OneChainOnly(lines, |lines|, chainId) && IsChain(v, AllRecords(lines), chainId) && AllRecords(lines) != []
    ensures AllCountable(lines) && Clean(v, lines)
    ensures var rs := AllRecords(lines);
            TerminalHash(lines, |lines|) == Field(rs[|rs| - 1], "hash")
  {
    hide Clean, Accepted, AllCountable, IsChain, OneChainOnly, Remembers, Breaks, TerminalHash, Records, Field;
    AcceptedMeans(v, lines);
    chainId := CleanIsChain(v, lines);
    NoBreaksIffChain(v, lines, |lines|, chainId);
    RemembersLast(lines, chainId);
  }

  lemma RemembersLast(lines: seq<Line>, chainId: string)
    requires Remembers(lines, |lines|, chainId) && AllRecords(lines) != []
    ensures var rs := AllRecords(lines);
            TerminalHash(lines, |lines|) == Field(rs[|rs| - 1], "hash")
  {
    hide PriorHashes, PriorSequences, TerminalHash, Records, Field;
  }

  lemma {:induction false} RecordsAreLines(lines: seq<Line>, n: nat)
    requires n <= |lines|
    ensures forall r :: r in Records(lines, n) ==> r in lines
  {
    if n > 0 {
      RecordsAreLines(lines, n - 1);
    }
  }

  // ----- truncation is the only rearrangement that survives -----

  lemma {:induction false} RecordsOfRecords(rs: seq<Line>, n: nat)
    requires n <= |rs| && forall i :: 0 <= i < |rs| ==> rs[i].Record?
    ensures Records(rs, n) == rs[..n]
  {
    if n > 0 {
      RecordsOfRecords(rs, n - 1);
    }
  }

  /** A record says where in its chain it stands. */
  lemma SameRecordSamePlace(v: Verifier, rs: seq<Line>, c: string, qs: seq<Line>, d: string, i: nat, j: nat)
    requires forall k :: 0 <= k < |rs| ==> rs[k].Record?
    requires forall k :: 0 <= k < |qs| ==> qs[k].Record?
    requires IsChain(v, rs, c) && IsChain(v, qs, d) && i < |qs| && j < |rs| && rs[j] == qs[i]
    ensures i == j
  {
    hide WellSealed, IsChainAnchor, HashedContent, Field;
    assert RecordInPlace(v, qs, i, d) && RecordInPlace(v, rs, j, c);
    assert Int(i + 1) == Int(j + 1);
  }

  /** Whatever is dropped, repeated or reordered, what is still accepted is a prefix. */
  lemma RearrangedIsPrefix(v: Verifier, lines: seq<Line>, rearranged: seq<Line>)
    requires Accepted(v, lines) && Accepted(v, rearranged)
    requires forall r :: r in AllRecords(rearranged) ==> r in AllRecords(lines)
    ensures AllRecords(rearranged) <= AllRecords(lines)
  {
    hide AllRecords, Accepted, IsChain, OneChainOnly, AllCountable, Clean, TerminalHash, Field;
    var rs, qs := AllRecords(lines), AllRecords(rearranged);
    var c := ChainOf(v, lines);
    var d := ChainOf(v, rearranged);
    forall i | 0 <= i < |qs| ensures i < |rs| && qs[i] == rs[i] {
      assert qs[i] in rs;
      var j :| 0 <= j < |rs| && rs[j] == qs[i];
      SameRecordSamePlace(v, rs, c, qs, d, i, j);
    }
  }

  lemma PrefixIsChain(v: Verifier, rs: seq<Line>, k: nat, chainId: string)
    requires 0 < k <= |rs| && (forall i :: 0 <= i < |rs| ==> rs[i].Record?)
    requires IsChain(v, rs, chainId) && chainId != ""
    ensures AllRecords(rs[..k]) == rs[..k] && IsChain(v, rs[..k], chainId) && OneChainOnly(rs[..k], k, chainId)
  {
    hide WellSealed, IsChainAnchor, HashedContent;
    var prefix := rs[..k];
    RecordsOfRecords(prefix, k);
    assert prefix[..k] == prefix;
    forall i | 0 <= i < k ensures RecordInPlace(v, prefix, i, chainId) && Field(prefix[i], "chain_id") == Str(chainId) {
      assert RecordInPlace(v, rs, i, chainId);
    }
  }

  /** Every non-empty prefix of an accepted log's records is accepted. */
  lemma PrefixIsAccepted(v: Verifier, lines: seq<Line>, k: nat)
    requires Accepted(v, lines) && 0 < k <= |AllRecords(lines)|
    ensures Accepted(v, AllRecords(lines)[..k])
  {
    hide Accepted, IsChain, OneChainOnly, Countable;
    var rs := AllRecords(lines);
    var c := ChainOf(v, lines);
    OneChainHasId(lines, c);
    PrefixIsChain(v, rs, k, c);
    RecordsAreLines(lines, |lines|);
    forall i | 0 <= i < k ensures Countable(rs[..k][i]) {
      assert rs[i] in lines;
    }
    AcceptedIffIntactChain(v, rs[..k]);
  }

  lemma OneChainHasId(lines: seq<Line>, chainId: string)
    requires OneChainOnly(lines, |lines|, chainId)
    ensures chainId != ""
  {
  }

  // ----- the terminal hash fixes the history -----

  /** No two records of the logs collide: equal digests mean equal hashed content. */
  ghost predicate NoCollision(v: Verifier, a: seq<Line>, b: seq<Line>) {
    forall i, j :: 0 <= i < |AllRecords(a)| && 0 <= j < |AllRecords(b)| ==>
      v.digest(HashedContent(AllRecords(a)[i])) == v.digest(HashedContent(AllRecords(b)[j])) ==>
        HashedContent(AllRecords(a)[i]) == HashedContent(AllRecords(b)[j])
  }

  lemma SameContentSameFields(r: Line, q: Line)
    requires r.Record? && q.Record? && HashedContent(r) == HashedContent(q)
    ensures Field(r, "sequence") == Field(q, "sequence") && Field(r, "previous_hash") == Field(q, "previous_hash")
  {
    var exclude := {"hash", "signature", "public_key_fingerprint"};
    assert r.fields - exclude == q.fields - exclude;
    assert "sequence" in r.fields <==> "sequence" in r.fields - exclude;
    assert "sequence" in q.fields <==> "sequence" in q.fields - exclude;
    assert "previous_hash" in r.fields <==> "previous_hash" in r.fields - exclude;
    assert "previous_hash" in q.fields <==> "previous_hash" in q.fields - exclude;
  }

  lemma SameHashSameStep(v: Verifier, a: seq<Line>, b: seq<Line>, c: string, d: string, i: nat, j: nat)
    requires NoCollision(v, a, b) && i < |AllRecords(a)| && j < |AllRecords(b)|
    requires IsChain(v, AllRecords(a), c) && IsChain(v, AllRecords(b), d)
    requires Field(AllRecords(a)[i], "hash") == Field(AllRecords(b)[j], "hash")
    ensures i == j && HashedContent(AllRecords(a)[i]) == HashedContent(AllRecords(b)[j])
    ensures i > 0 ==> Field(AllRecords(a)[i - 1], "hash") == Field(AllRecords(b)[j - 1], "hash")
  {
    hide AllRecords, HashedContent, WellSealed, IsChainAnchor, Field;
    var rs, qs := AllRecords(a), AllRecords(b);
    assert RecordInPlace(v, rs, i, c) && RecordInPlace(v, qs, j, d);
    SameContentSameFields(rs[i], qs[j]);
    assert Int(i + 1) == Int(j + 1);
  }

  /** Walking back from equal hashes at positions `i` and `j`. */
  lemma {:induction false} HistoriesAgree(v: Verifier, a: seq<Line>, b: seq<Line>, c: string, d: string, i: nat, j: nat)
    requires NoCollision(v, a, b) && i < |AllRecords(a)| && j < |AllRecords(b)|
    requires IsChain(v, AllRecords(a), c) && IsChain(v, AllRecords(b), d)
    requires Field(AllRecords(a)[i], "hash") == Field(AllRecords(b)[j], "hash")
    ensures i == j
    ensures forall k :: 0 <= k <= i ==> HashedContent(AllRecords(a)[k]) == HashedContent(AllRecords(b)[k])
    decreases i
  {
    hide AllRecords, HashedContent, NoCollision, IsChain, RecordInPlace;
    SameHashSameStep(v, a, b, c, d, i, j);
    if i > 0 {
      HistoriesAgree(v, a, b, c, d, i - 1, j - 1);
    }
  }

  /** Accepted logs that end in the same hash are the same history, record for record. */
  lemma TerminalHashFixesHistory(v: Verifier, a: seq<Line>, b: seq<Line>)
    requires Accepted(v, a) && Accepted(v, b) && NoCollision(v, a, b)
    requires TerminalHash(a, |a|) == TerminalHash(b, |b|)
    ensures |AllRecords(a)| == |AllRecords(b)|
    ensures forall k :: 0 <= k < |AllRecords(a)| ==> HashedContent(AllRecords(a)[k]) == HashedContent(AllRecords(b)[k])
  {
    hide AllRecords, Accepted, IsChain, OneChainOnly, Clean, AllCountable;
    hide TerminalHash, NoCollision, HashedContent, Field;
    var c := ChainOf(v, a);
    var d := ChainOf(v, b);
    HistoriesAgree(v, a, b, c, d, |AllRecords(a)| - 1, |AllRecords(b)| - 1);
  }

  // ----- what the summary always satisfies -----

  lemma KeyDecidesStatus(v: Verifier, r: Line)
    requires r.Record?
    ensures SignatureStatus(v, r) == Unchecked ==> v.key == None
    ensures SignatureStatus(v, r) == Verifies ==> v.key.Some?
  {
  }

  lemma {:induction false} StatusesCoverRecords(v: Verifier, lines: seq<Line>, n: nat)
    requires n <= |lines|
    ensures |Records(lines, n)| ==
              CountStatus(v, lines, n, Absent) + CountStatus(v, lines, n, Malformed)
              + CountStatus(v, lines, n, Unchecked)
              + CountStatus(v, lines, n, Verifies) + CountStatus(v, lines, n, Refuted)
    ensures v.key.Some? ==> CountStatus(v, lines, n, Unchecked) == 0
    ensures v.key == None ==> CountStatus(v, lines, n, Verifies) == 0
  {
    hide SignatureStatus;
    if n > 0 {
      StatusesCoverRecords(v, lines, n - 1);
      if lines[n - 1].Record? {
        KeyDecidesStatus(v, lines[n - 1]);
      }
    }
  }

  lemma {:induction false} CleanMeansSigned(v: Verifier, lines: seq<Line>, n: nat)
    requires n <= |lines| && v.key.Some? && Breaks(v, lines, n) == []
    ensures CountStatus(v, lines, n, Verifies) == |Records(lines, n)|
  {
    hide LineReasons, FingerprintReasons, SignatureReasons;
    if n > 0 {
      BreaksStep(v, lines, n);
      CleanMeansSigned(v, lines, n - 1);
      if lines[n - 1].Record? {
        RecordCleanIff(v, lines, n - 1);
        SealReasonsIff(v, lines[n - 1]);
      }
    }
  }

  lemma NotEmptyWhenClean(v: Verifier, lines: seq<Line>)
    requires AllBreaks(v, lines) == []
    ensures AllRecords(lines) != []
  {
    assert |FinalBreaks(lines)| == 0;
  }

  /** For every log: the counts balance, and authenticity is continuity under a supplied key. */
  lemma SummaryBalances(v: Verifier, lines: seq<Line>)
    ensures var s := SummaryOf(v, lines);
            && (s.state.notes.chainValid <==> s.state.notes.breaks == [])
            && s.state.tally.total == |AllRecords(lines)|
            && Total(s.state.tally.events) == s.state.tally.total
            && Total(s.state.tally.severities) == s.state.tally.total
            && (v.key.Some? ==>
                  s.state.seals.valid + s.state.seals.invalid + s.state.seals.unsigned == s.state.tally.total)
            && (s.authenticityVerified <==> v.key.Some? && s.state.notes.chainValid)
  {
    hide Breaks, CountsBy, FinalBreaks, CountStatus, Records, Unanchored, LinksAfter, OrderAfter, Total;
    var n := |lines|;
    CountsSumToRecords(lines, n, "event", Str("UNKNOWN"));
    CountsSumToRecords(lines, n, "severity", Str("INFO"));
    StatusesCoverRecords(v, lines, n);
    if v.key.Some? && AllBreaks(v, lines) == [] {
      CleanMeansSigned(v, lines, n);
      NotEmptyWhenClean(v, lines);
    }
  }
}
