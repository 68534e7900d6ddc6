/** The assertion: streaming an input in any of the chosen splits gives what filtering it whole gives. */
module ChunkInvariance {
  import opened Text
  import opened Splits
  import opened Redactor
  import opened Streaming

  const ALL_SPLITS_MAX_LENGTH := 16

  /** The `splits` argument, by its Python type. */
  datatype Request<T> =
    | Name(name: string)
    | Flag(flag: bool)
    | MaxParts(parts: int)
    | Explicit(lists: seq<seq<seq<T>>>)

  datatype Fault = ValueFault | TypeFault

  datatype Resolved<T> = Refused(fault: Fault) | Resolved(lists: seq<seq<seq<T>>>)

  datatype Verdict<T> =
    | Checked(count: nat)
    | Violation(chunks: seq<seq<T>>, expected: seq<T>, actual: seq<T>, tried: nat)
    | Failed(reason: Fault)

  /** The chunk lists a request stands for, in the order they are tried. */
  function Resolve<T>(text: seq<T>, request: Request<T>): Resolved<T> {
    match request
    case Name(name) =>
      if name == "all-two-part" then Resolved(Enumerated(text, MostParts(|text|, Some(2))))
      else if name == "all" && |text| <= ALL_SPLITS_MAX_LENGTH then Resolved(Enumerated(text, |text|))
      else Refused(ValueFault)
    case Flag(_) => Refused(TypeFault)
    case MaxParts(parts) =>
      if parts < 1 then Refused(ValueFault) else Resolved(Enumerated(text, MostParts(|text|, Some(parts))))
    case Explicit(lists) => Resolved(lists)
  }

  /** Exactly which requests are refused, and as what. */
  lemma RefusedIff<T>(text: seq<T>, request: Request<T>)
    ensures Resolve(text, request) == Refused(TypeFault) <==> request.Flag?
    ensures Resolve(text, request) == Refused(ValueFault) <==>
              || (request.Name? && request.name != "all-two-part" && (request.name != "all" || |text| > 16))
              || (request.MaxParts? && request.parts < 1)
    ensures request.Explicit? ==> Resolve(text, request) == Resolved(request.lists)
  {
    hide Enumerated;
  }

  /** Generated requests, as opposed to explicit chunk lists. */
  predicate Generated<T>(request: Request<T>) {
    !request.Explicit?
  }

  predicate Agrees<T(==)>(filter: seq<seq<T>> -> seq<seq<T>>, whole: seq<T> -> seq<T>,
                          text: seq<T>, chunks: seq<seq<T>>)
  {
    Join(filter(chunks)) == whole(text)
  }

  predicate Passes<T(==)>(filter: seq<seq<T>> -> seq<seq<T>>, whole: seq<T> -> seq<T>,
                          text: seq<T>, chunks: seq<seq<T>>)
  {
    Join(chunks) == text && Agrees(filter, whole, text, chunks)
  }

  /** `n` is the first position whose list does not join back or whose output differs. */
  ghost predicate FirstBad<T>(filter: seq<seq<T>> -> seq<seq<T>>, whole: seq<T> -> seq<T>, text: seq<T>,
                              lists: seq<seq<seq<T>>>, n: nat)
  {
    && n < |lists|
    && !Passes(filter, whole, text, lists[n])
    && forall i :: 0 <= i < n ==> Passes(filter, whole, text, lists[i])
  }

  /** What the caller of the assertion sees, in terms of the lists tried. */
  ghost predicate IsVerdict<T>(filter: seq<seq<T>> -> seq<seq<T>>, whole: seq<T> -> seq<T>, text: seq<T>,
                               resolved: Resolved<T>, v: Verdict<T>)
  {
    match resolved
    case Refused(fault) => v == Failed(fault)
    case Resolved(lists) =>
      match v
      case Checked(count) =>
        count == |lists| && forall i :: 0 <= i < |lists| ==> Passes(filter, whole, text, lists[i])
      case Violation(chunks, expected, actual, tried) =>
        && tried > 0 && FirstBad(filter, whole, text, lists, tried - 1)
        && chunks == lists[tried - 1] && Join(chunks) == text
        && expected == whole(text) && actual == Join(filter(chunks))
      case Failed(reason) =>
        reason == ValueFault && exists n: nat :: FirstBad(filter, whole, text, lists, n) && Join(lists[n]) != text
  }

  /** `assert_chunk_invariant`, with the filters as functions: each split starts from fresh state. */
  method AssertChunkInvariant<T(==)>(filter: seq<seq<T>> -> seq<seq<T>>, whole: seq<T> -> seq<T>,
                                     text: seq<T>, request: Request<T>)
    returns (v: Verdict<T>)
    ensures IsVerdict(filter, whole, text, Resolve(text, request), v)
  {
    var expected := whole(text);
    var resolved := Resolve(text, request);
    if resolved.Refused? {
      return Failed(resolved.fault);
    }
    var tried := 0;
    for n := 0 to |resolved.lists|
      invariant tried == n
      invariant forall i :: 0 <= i < n ==> Passes(filter, whole, text, resolved.lists[i])
    {
      var chunks := resolved.lists[n];
      if Join(chunks) != text {
        assert FirstBad(filter, whole, text, resolved.lists, n);
        return Failed(ValueFault);
      }
      tried := tried + 1;
      var actual := Join(filter(chunks));
      if actual != expected {
        return Violation(chunks, expected, actual, tried);
      }
    }
    return Checked(tried);
  }

  /** The verdict is determined by the filters, the text and the lists. */
  lemma VerdictIsUnique<T>(filter: seq<seq<T>> -> seq<seq<T>>, whole: seq<T> -> seq<T>, text: seq<T>,
                           resolved: Resolved<T>, v: Verdict<T>, w: Verdict<T>)
    requires IsVerdict(filter, whole, text, resolved, v) && IsVerdict(filter, whole, text, resolved, w)
    ensures v == w
  {
  }

  /** The splits a generated request tries: those with at most this many parts. */
  function PartsTried<T>(text: seq<T>, request: Request<T>): int
    requires Generated(request)
  {
    match request
    case Name(name) => if name == "all" then |text| else 2
    case MaxParts(parts) => parts
    case Flag(_) => 0
  }

  /** The filter agrees on every split of the text into at most `most` non-empty parts. */
  ghost predicate AgreesUpTo<T(!new)>(filter: seq<seq<T>> -> seq<seq<T>>, whole: seq<T> -> seq<T>,
                                      text: seq<T>, most: int)
  {
    forall parts :: IsSplit(text, parts) && |parts| <= most ==> Agrees(filter, whole, text, parts)
  }

  /**
    For a generated request on non-empty text: a count means the filter agrees on every
    split with at most that many parts; a reported split has the fewest parts of all
    disagreeing ones; nothing else can happen.
   */
  lemma GeneratedVerdict<T(!new)>(filter: seq<seq<T>> -> seq<seq<T>>, whole: seq<T> -> seq<T>, text: seq<T>,
                            request: Request<T>, v: Verdict<T>)
    requires text != [] && Generated(request) && Resolve(text, request).Resolved?
    requires IsVerdict(filter, whole, text, Resolve(text, request), v)
    ensures v.Checked? <==> AgreesUpTo(filter, whole, text, PartsTried(text, request))
    ensures v.Violation? ==>
              && IsSplit(text, v.chunks) && |v.chunks| <= PartsTried(text, request)
              && !Agrees(filter, whole, text, v.chunks)
              && AgreesUpTo(filter, whole, text, |v.chunks| - 1)
    ensures !v.Failed?
  {
    hide Resolve, PartsTried, IsSplit;
    var lists := Resolve(text, request).lists;
    TriedAreEverySplit(text, request);
    match v
    case Checked(_) =>
      assert forall parts :: parts in lists ==> Passes(filter, whole, text, parts);
    case Violation(chunks, _, _, tried) =>
      assert lists[tried - 1] in lists;
      FewestParts(filter, whole, text, request, tried - 1);
    case Failed(_) =>
      var n: nat :| FirstBad(filter, whole, text, lists, n) && Join(lists[n]) != text;
      assert lists[n] in lists;
      SplitJoins(text, lists[n]);
  }

  lemma SplitJoins<T>(text: seq<T>, parts: seq<seq<T>>)
    requires IsSplit(text, parts)
    ensures Join(parts) == text
  {
  }

  lemma FewestParts<T(!new)>(filter: seq<seq<T>> -> seq<seq<T>>, whole: seq<T> -> seq<T>, text: seq<T>,
                       request: Request<T>, n: nat)
    requires text != [] && Generated(request) && Resolve(text, request).Resolved?
    requires FirstBad(filter, whole, text, Resolve(text, request).lists, n)
    ensures AgreesUpTo(filter, whole, text, |Resolve(text, request).lists[n]| - 1)
  {
    hide Resolve, PartsTried, IsSplit;
    var lists := Resolve(text, request).lists;
    TriedAreEverySplit(text, request);
    assert lists[n] in lists;
    forall parts | IsSplit(text, parts) && |parts| < |lists[n]| ensures Agrees(filter, whole, text, parts) {
      assert parts in lists;
      var i :| 0 <= i < |lists| && lists[i] == parts;
      TriedFewestFirst(text, request, i, n);
    }
  }

  lemma TriedAreEverySplit<T>(text: seq<T>, request: Request<T>)
    requires text != [] && Generated(request) && Resolve(text, request).Resolved?
    ensures forall parts :: parts in Resolve(text, request).lists
              <==> IsSplit(text, parts) && |parts| <= PartsTried(text, request)
  {
    var most := PartsTried(text, request);
    EnumeratedIsEverySplit(text, if request == Name("all") then None else Some(most));
    forall parts | IsSplit(text, parts) ensures |parts| <= |text| {
      PartsBounded(parts);
    }
  }

  /** What a request that names no lists tries: every split, within its limit if it has one. */
  lemma TriedIff<T>(text: seq<T>, request: Request<T>, parts: seq<seq<T>>)
    requires text != [] && !request.Explicit? && Resolve(text, request).Resolved?
    ensures parts in Resolve(text, request).lists <==>
              && Join(parts) == text && [] !in parts
              && (request == Name("all-two-part") ==> |parts| <= 2)
              && (request.MaxParts? ==> |parts| <= request.parts)
  {
    hide Resolve;
    RefusedIff(text, request);
    TriedAreEverySplit(text, request);
    assert IsSplit(text, parts) <==> Join(parts) == text && [] !in parts;
    if IsSplit(text, parts) {
      PartsBounded(parts);
    }
  }

  /** Of an empty text there is one split, the text itself; "all" does not even try that one. */
  lemma EmptyTried<T>(request: Request<T>)
    requires !request.Explicit? && Resolve([], request).Resolved?
    ensures Resolve([], request).lists == if request == Name("all") then [] else [[[]]]
  {
    var most := if request == Name("all") then 0 else 1;
    assert Resolve([], request).lists == Enumerated([], most);
    EmptyEnumerated<T>(most);
  }

  lemma EmptyEnumerated<T>(most: nat)
    requires most <= 1
    ensures Enumerated<T>([], most) == if most == 0 then [] else [[[]]]
  {
    if most == 1 {
      assert AllCuts(0, 0) == [] && AllCuts(0, 1) == [[]];
      assert SplitFrom<T>([], 0, []) == [[]];
    }
  }

  lemma TriedFewestFirst<T>(text: seq<T>, request: Request<T>, i: nat, j: nat)
    requires text != [] && Generated(request) && Resolve(text, request).Resolved?
    requires var lists := Resolve(text, request).lists;
             i < |lists| && j < |lists| && |lists[i]| < |lists[j]|
    ensures i < j
  {
    var limit := if request == Name("all") then None else Some(PartsTried(text, request));
    assert Resolve(text, request).lists == Enumerated(text, MostParts(|text|, limit));
    if j < i {
      EnumeratedOrdered(text, MostParts(|text|, limit), j, i);
    }
  }

  /** With `"all"`, a normal return means the filter agrees on every split of that text. */
  lemma {:induction false} AllMeansEverySplit<T(!new)>(filter: seq<seq<T>> -> seq<seq<T>>, whole: seq<T> -> seq<T>,
                                                       text: seq<T>, v: Verdict<T>)
    requires text != [] && IsVerdict(filter, whole, text, Resolve(text, Name("all")), v)
    ensures |text| > ALL_SPLITS_MAX_LENGTH <==> v.Failed?
    ensures v.Checked? ==> v.count == Combinatorics.Pow2(|text| - 1)
    ensures |text| <= ALL_SPLITS_MAX_LENGTH ==>
              (v.Checked? <==> forall parts :: IsSplit(text, parts) ==> Agrees(filter, whole, text, parts))
  {
    hide Enumerated;
    if |text| <= ALL_SPLITS_MAX_LENGTH {
      GeneratedVerdict(filter, whole, text, Name("all"), v);
      EnumeratedCount(text, |text|);
      forall parts | IsSplit(text, parts) ensures |parts| <= |text| {
        PartsBounded(parts);
      }
    }
  }

  // ----- the assertion on the repository's own redactors -----

  /** `hold_back`, built by `per_chunk`, passes every request whose lists join back to the text. */
  lemma HoldBackAlwaysPasses(text: string, request: Request<char>, v: Verdict<char>)
    requires IsVerdict(HoldBackPieces, Redact, text, Resolve(text, request), v)
    ensures !v.Violation?
    ensures Generated(request) && text != "" && Resolve(text, request).Resolved? ==> v.Checked?
  {
    forall chunks | Join(chunks) == text ensures Agrees(HoldBackPieces, Redact, text, chunks) {
      HoldBackIsRedact(chunks);
    }
    if Generated(request) && text != "" && Resolve(text, request).Resolved? {
      GeneratedVerdict(HoldBackPieces, Redact, text, request, v);
    }
  }

  /** The default request catches `design_a` on exactly the texts that hold a key. */
  lemma DesignACaughtIffKey(text: string, v: Verdict<char>)
    requires text != ""
    requires IsVerdict(RedactEach, Redact, text, Resolve(text, Name("all-two-part")), v)
    ensures v.Checked? <==> KeyFree(text)
    ensures v.Violation? <==> !KeyFree(text)
  {
    GeneratedVerdict(RedactEach, Redact, text, Name("all-two-part"), v);
    if KeyFree(text) {
      forall parts: seq<string> | IsSplit(text, parts) ensures Agrees(RedactEach, Redact, text, parts) {
        DesignAIffNoKeyIsCut(parts);
      }
    } else {
      var parts := CutInsideKey(text);
      assert !Agrees(RedactEach, Redact, text, parts);
    }
  }

  lemma CutInsideKey(text: string) returns (parts: seq<string>)
    requires !KeyFree(text)
    ensures IsSplit(text, parts) && |parts| == 2 && Join(RedactEach(parts)) != Redact(text)
  {
    hide KeyAt, ScanFrom, RedactFrom, RedactEach, Join;
    var p :| 0 <= p <= |text| && KeyAt(text, p);
    ScanFindsKey(text, 0, p);
    var q := Scan(text)[0];
    KeyFits(text, q);
    var head, tail := text[..q + 1], text[q + 1..];
    parts := [head, tail];
    JoinOne(parts);
    JoinSnoc([head], tail);
    JoinSnoc([], head);
    assert [] + [head] == [head];
    assert parts[..1] == [head] && parts == [head] + [tail] && text == head + tail;
    assert q in Scan(text);
    assert KeyStraddles(text, 0, |Join(parts[..1])|);
    assert SomeKeyIsCut(parts);
    DesignAIffNoKeyIsCut(parts);
  }

  lemma {:induction false} ScanFindsKey(s: string, from: nat, p: nat)
    requires from <= p <= |s| && KeyAt(s, p)
    ensures ScanFrom(s, from) != []
    decreases |s| - from
  {
    if !KeyAt(s, from) {
      ScanFindsKey(s, from + 1, p);
    }
  }
}
