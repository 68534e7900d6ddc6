/**
  The gateway's retry and failover loops, over arbitrary upstream replies: how often
  they send, where, and with whose credential.
 */
module Failover {
  import opened Text

  // ----- credentials in a header dict -----

  type HeaderMap = map<string, string>

  const CREDENTIAL_HEADERS := ["authorization", "x-api-key", "x-goog-api-key", "api-key"]

  function Credentials(headers: HeaderMap): HeaderMap {
    map name | name in headers && name in CREDENTIAL_HEADERS :: headers[name]
  }

  function WithoutCredentials(headers: HeaderMap): HeaderMap {
    map name | name in headers && name !in CREDENTIAL_HEADERS :: headers[name]
  }

  /** The header a provider reads its key from, and how the key is written there. */
  function Bearing(key: string, anthropic: bool): (string, string) {
    if anthropic then ("x-api-key", key) else ("authorization", "Bearer " + key)
  }

  /** A dict the loop changes in place. */
  class HeaderDict {
    var entries: HeaderMap

    constructor (entries: HeaderMap)
      ensures this.entries == entries
    {
      this.entries := entries;
    }

    method PopCredentials()
      modifies this
      ensures entries == WithoutCredentials(old(entries))
    {
      for i := 0 to |CREDENTIAL_HEADERS|
        invariant entries == map name | name in old(entries) && name !in CREDENTIAL_HEADERS[..i] :: old(entries)[name]
      {
        assert CREDENTIAL_HEADERS[..i + 1] == CREDENTIAL_HEADERS[..i] + [CREDENTIAL_HEADERS[i]];
        entries := entries - {CREDENTIAL_HEADERS[i]};
      }
      assert CREDENTIAL_HEADERS[..|CREDENTIAL_HEADERS|] == CREDENTIAL_HEADERS;
    }

    /** `_replace_upstream_credential`: the key becomes the only credential; nothing else changes. */
    method ReplaceUpstreamCredential(key: string, anthropic: bool)
      modifies this
      ensures var (name, value) := Bearing(key, anthropic);
              Credentials(entries) == map[name := value]
              && WithoutCredentials(entries) == WithoutCredentials(old(entries))
              && entries == WithoutCredentials(old(entries))[name := value]
    {
      PopCredentials();
      var (name, value) := Bearing(key, anthropic);
      assert name == CREDENTIAL_HEADERS[0] || name == CREDENTIAL_HEADERS[1];
      entries := entries[name := value];
    }
  }

  // ----- the key a failover carries -----

  /** What the choice depends on; an empty string is an unset setting or header, and ports are the effective ones. */
  datatype Choice = Choice(
    overrideUrl: string,
    chosenHost: string, chosenScheme: string, chosenPort: Option<int>,
    configuredHost: string, configuredScheme: string, configuredPort: Option<int>,
    fallbackApiKey: string,
    proxyKeyInUse: bool,
    rolePinsKey: bool,
    proxyKeyForHost: Option<string>)

  datatype KeyChoice = Forbidden | Carry(key: string)

  predicate ConfiguredEndpoint(c: Choice) {
    c.chosenScheme == c.configuredScheme && c.chosenPort == c.configuredPort
  }

  function ChooseKey(c: Choice): KeyChoice {
    if c.overrideUrl == "" then Carry(c.fallbackApiKey)
    else if c.configuredHost != "" && c.chosenHost == c.configuredHost then
      if c.proxyKeyInUse && !ConfiguredEndpoint(c) then Forbidden else Carry(c.fallbackApiKey)
    else if c.proxyKeyInUse then
      if c.rolePinsKey || c.proxyKeyForHost == None then Forbidden else Carry(c.proxyKeyForHost.value)
    else Carry("")
  }

  // ----- the loop -----

  datatype Reply = Success(status: int) | StatusError(status: int) | TransportError

  datatype Send = Send(url: string, sni: Option<string>, headers: HeaderMap)

  /** The settings and the request, as far as the loop reads them. */
  datatype Route = Route(
    failover: bool,
    retries: int,
    url: string, sni: Option<string>, headers: HeaderMap,
    fallbackUrl: string, fallbackTarget: string, fallbackSni: Option<string>, fallbackHost: string,
    fallbackIsAnthropic: bool,
    fallbackKey: string,
    proxyKeyInUse: bool)

  function MaxRetries(r: Route): nat {
    if r.failover && r.retries > 0 then r.retries else 0
  }

  predicate HasFallback(r: Route) {
    r.failover && r.fallbackUrl != ""
  }

  predicate IsFinal(reply: Reply) {
    reply.Success? || (reply.StatusError? && reply.status in {400, 401, 403})
  }

  /** The headers a fallback send carries. */
  function FallbackHeaders(r: Route): HeaderMap {
    var (name, value) := Bearing(r.fallbackKey, r.fallbackIsAnthropic);
    var sealed :=
      if r.fallbackKey != "" then WithoutCredentials(r.headers)[name := value]
      else if r.proxyKeyInUse then WithoutCredentials(r.headers)
      else r.headers;
    if r.fallbackHost != "" then sealed["host" := r.fallbackHost] else sealed
  }

  function PrimarySend(r: Route): Send {
    Send(r.url, r.sni, r.headers)
  }

  function FallbackSend(r: Route): Send {
    Send(r.fallbackTarget, r.fallbackSni, FallbackHeaders(r))
  }

  /** Where a loop stands: its counters, the request it will send, the reply kept, and what was sent. */
  datatype State = State(
    attempt: nat,
    isFallback: bool,
    next: Send,
    response: Option<int>,
    errorHeaders: HeaderMap,
    sends: seq<Send>)

  datatype Move = Stop(state: State) | Again(state: State)

  function Start(r: Route): State {
    State(0, false, PrimarySend(r), None, r.headers, [])
  }

  /** The state once the request is sent and its reply noted. */
  function Noted(s: State, reply: Reply): State {
    var sent := s.(sends := s.sends + [s.next]);
    match reply
    case Success(status) => sent.(response := Some(status))
    case StatusError(status) => sent.(response := Some(status), errorHeaders := s.next.headers)
    case TransportError => sent
  }

  function Step(r: Route, s: State, reply: Reply): Move {
    var noted := Noted(s, reply);
    if IsFinal(reply) then Stop(noted)
    else if s.attempt < MaxRetries(r) then Again(noted.(attempt := s.attempt + 1))
    else if HasFallback(r) && !s.isFallback then
      Again(noted.(attempt := 0, isFallback := true, next := FallbackSend(r)))
    else Stop(noted)
  }

  /** `replies(n)` is the upstream's reply to the `n`-th send. */
  function Run(r: Route, replies: nat -> Reply, s: State): State
    decreases if s.isFallback then 0 else 1, MaxRetries(r) - s.attempt
  {
    match Step(r, s, replies(|s.sends|))
    case Stop(t) => t
    case Again(t) => Run(r, replies, t)
  }

  function Outcome(r: Route, replies: nat -> Reply): State {
    Run(r, replies, Start(r))
  }

  lemma RunStep(r: Route, replies: nat -> Reply, s: State)
    ensures var move := Step(r, s, replies(|s.sends|));
            Run(r, replies, s) == if move.Stop? then move.state else Run(r, replies, move.state)
  {
  }

  method SwitchCredential(r: Route, headers: HeaderDict)
    requires headers.entries == r.headers
    modifies headers
    ensures headers.entries == FallbackHeaders(r)
  {
    if r.fallbackKey != "" {
      headers.ReplaceUpstreamCredential(r.fallbackKey, r.fallbackIsAnthropic);
    } else if r.proxyKeyInUse {
      headers.PopCredentials();
    }
    if r.fallbackHost != "" {
      headers.entries := headers.entries["host" := r.fallbackHost];
    }
  }

  /** The non-streaming loop. The caller's header dict is copied, never changed. */
  method ProxyRequest(r: Route, headers: HeaderDict, replies: nat -> Reply) returns (t: State)
    requires headers.entries == r.headers
    ensures t == Outcome(r, replies)
  {
    hide IsFinal, Run, FallbackHeaders;
    var attempt, isFallback := 0, false;
    var currentUrl, currentSni := r.url, r.sni;
    var currentHeaders := new HeaderDict(headers.entries);
    var response: Option<int>, errorHeaders, sends: seq<Send> := None, headers.entries, [];
    while true
      invariant fresh(currentHeaders)
      invariant var next := Send(currentUrl, currentSni, currentHeaders.entries);
                && (isFallback || next == PrimarySend(r))
                && Run(r, replies, State(attempt, isFallback, next, response, errorHeaders, sends))
                   == Outcome(r, replies)
      decreases if isFallback then 0 else 1, MaxRetries(r) - attempt
    {
      var request := Send(currentUrl, currentSni, currentHeaders.entries);
      ghost var s := State(attempt, isFallback, request, response, errorHeaders, sends);
      RunStep(r, replies, s);
      var reply := replies(|sends|);
      sends := sends + [request];
      if reply.Success? {
        response := Some(reply.status);
      } else if reply.StatusError? {
        response, errorHeaders := Some(reply.status), currentHeaders.entries;
      }
      if IsFinal(reply) {
        break;
      }
      if attempt < MaxRetries(r) {
        attempt := attempt + 1;
        continue;
      }
      if r.failover && !isFallback {
        if r.fallbackUrl != "" {
          isFallback, attempt := true, 0;
          currentUrl, currentSni := r.fallbackTarget, r.fallbackSni;
          SwitchCredential(r, currentHeaders);
          continue;
        }
      }
      break;
    }
    var next := Send(currentUrl, currentSni, currentHeaders.entries);
    t := State(attempt, isFallback, next, response, errorHeaders, sends);
  }

  /** The error body kept is that of the last send that got one, with the headers of that very send. */
  ghost predicate KeptBody(replies: nat -> Reply, sends: seq<Send>, errorHeaders: HeaderMap, errorBody: Option<nat>) {
    match errorBody
    case None => forall i :: 0 <= i < |sends| ==> !replies(i).StatusError?
    case Some(n) =>
      && n < |sends| && replies(n).StatusError? && errorHeaders == sends[n].headers
      && forall i :: n < i < |sends| ==> !replies(i).StatusError?
  }

  lemma NothingKept(replies: nat -> Reply, errorHeaders: HeaderMap)
    ensures KeptBody(replies, [], errorHeaders, None)
  {
  }

  lemma KeepBody(replies: nat -> Reply, sends: seq<Send>, request: Send,
                 errorHeaders: HeaderMap, errorBody: Option<nat>)
    requires KeptBody(replies, sends, errorHeaders, errorBody)
    ensures if replies(|sends|).StatusError?
            then KeptBody(replies, sends + [request], request.headers, Some(|sends|))
            else KeptBody(replies, sends + [request], errorHeaders, errorBody)
  {
  }

  /**
    The streaming loop. It also keeps an error reply's body, here the number of the send
    that got it, and the credentials to scrub from that body: those the send carried.
   */
  method StreamRequest(r: Route, headers: HeaderDict, replies: nat -> Reply) returns (t: State, errorBody: Option<nat>)
    requires headers.entries == r.headers
    ensures t == Outcome(r, replies)
    ensures KeptBody(replies, t.sends, t.errorHeaders, errorBody)
  {
    hide IsFinal, Run, FallbackHeaders, KeptBody;
    var attempt, isFallback := 0, false;
    var currentUrl, currentSni := r.url, r.sni;
    var currentHeaders := new HeaderDict(headers.entries);
    var response: Option<int>, errorHeaders, sends: seq<Send> := None, headers.entries, [];
    errorBody := None;
    NothingKept(replies, errorHeaders);
    while true
      invariant fresh(currentHeaders)
      invariant var next := Send(currentUrl, currentSni, currentHeaders.entries);
                && (isFallback || next == PrimarySend(r))
                && Run(r, replies, State(attempt, isFallback, next, response, errorHeaders, sends))
                   == Outcome(r, replies)
      invariant KeptBody(replies, sends, errorHeaders, errorBody)
      decreases if isFallback then 0 else 1, MaxRetries(r) - attempt
    {
      var request := Send(currentUrl, currentSni, currentHeaders.entries);
      ghost var s := State(attempt, isFallback, request, response, errorHeaders, sends);
      RunStep(r, replies, s);
      var reply := replies(|sends|);
      KeepBody(replies, sends, request, errorHeaders, errorBody);
      sends := sends + [request];
      if reply.Success? {
        response := Some(reply.status);
      } else if reply.StatusError? {
        response, errorHeaders, errorBody := Some(reply.status), currentHeaders.entries, Some(|sends| - 1);
      }
      if IsFinal(reply) {
        break;
      }
      if attempt < MaxRetries(r) {
        attempt := attempt + 1;
        continue;
      }
      if r.failover && !isFallback {
        if r.fallbackUrl != "" {
          isFallback, attempt := true, 0;
          currentUrl, currentSni := r.fallbackTarget, r.fallbackSni;
          SwitchCredential(r, currentHeaders);
          continue;
        }
      }
      break;
    }
    var next := Send(currentUrl, currentSni, currentHeaders.entries);
    t := State(attempt, isFallback, next, response, errorHeaders, sends);
  }

  // ----- how often, and where to -----

  /** A state the loop can be in: within its retries, about to send where it should. */
  ghost predicate InPlace(r: Route, s: State) {
    s.attempt <= MaxRetries(r) && s.next == if s.isFallback then FallbackSend(r) else PrimarySend(r)
  }

  /** The sends still allowed. */
  function Budget(r: Route, s: State): int {
    MaxRetries(r) - s.attempt + 1 + if HasFallback(r) && !s.isFallback then MaxRetries(r) + 1 else 0
  }

  /** One step sends what was next and, unless the loop stops, uses up one of the sends allowed. */
  lemma StepInPlace(r: Route, s: State, reply: Reply)
    requires InPlace(r, s)
    ensures var move := Step(r, s, reply);
            && move.state.sends == s.sends + [s.next]
            && (move.Stop? ==> IsFinal(reply) || Budget(r, s) == 1)
            && (move.Again? ==>
                  && !IsFinal(reply) && InPlace(r, move.state) && Budget(r, move.state) == Budget(r, s) - 1
                  && (s.isFallback ==> move.state.isFallback)
                  && (move.state.isFallback == s.isFallback ==> move.state.attempt == s.attempt + 1 <= MaxRetries(r))
                  && (move.state.isFallback != s.isFallback ==> HasFallback(r) && s.attempt == MaxRetries(r)))
  {
    hide IsFinal, FallbackHeaders;
  }

  lemma BudgetIsPositive(r: Route, s: State)
    requires InPlace(r, s)
    ensures Budget(r, s) >= 1
  {
    hide FallbackHeaders;
  }

  lemma {:induction false} RunWithinBudget(r: Route, replies: nat -> Reply, s: State)
    requires InPlace(r, s)
    ensures var t, n := Run(r, replies, s), |s.sends|;
            && n < |t.sends| <= n + Budget(r, s) && s.sends + [s.next] <= t.sends
            && (forall i :: n <= i < |t.sends| - 1 ==> !IsFinal(replies(i)))
            && (IsFinal(replies(|t.sends| - 1)) || |t.sends| == n + Budget(r, s))
    decreases if s.isFallback then 0 else 1, MaxRetries(r) - s.attempt
  {
    hide IsFinal, FallbackHeaders, Step, Run, Budget, InPlace;
    StepInPlace(r, s, replies(|s.sends|));
    RunStep(r, replies, s);
    BudgetIsPositive(r, s);
    var move := Step(r, s, replies(|s.sends|));
    if move.Again? {
      RunWithinBudget(r, replies, move.state);
    }
  }

  /** Where the sends after `s` go: to the primary up to `switch`, to the fallback from there on. */
  ghost predicate SwitchesAt(r: Route, sends: seq<Send>, n: nat, switch: nat) {
    && n <= switch <= |sends|
    && (forall i :: n <= i < switch ==> sends[i] == PrimarySend(r))
    && (forall i :: switch <= i < |sends| ==> sends[i] == FallbackSend(r))
  }

  lemma {:induction false} RunSwitchesOnce(r: Route, replies: nat -> Reply, s: State) returns (switch: nat)
    requires InPlace(r, s)
    ensures var t, n := Run(r, replies, s), |s.sends|;
            && SwitchesAt(r, t.sends, n, switch)
            && (s.isFallback ==> switch == n)
            && (!s.isFallback ==> switch - n <= MaxRetries(r) - s.attempt + 1)
            && (!s.isFallback && switch < |t.sends| ==> HasFallback(r) && switch - n == MaxRetries(r) - s.attempt + 1)
    decreases if s.isFallback then 0 else 1, MaxRetries(r) - s.attempt
  {
    hide IsFinal, FallbackSend, Step, Run, Budget;
    var n := |s.sends|;
    StepInPlace(r, s, replies(n));
    RunStep(r, replies, s);
    RunWithinBudget(r, replies, s);
    var move := Step(r, s, replies(n));
    if move.Again? {
      switch := RunSwitchesOnce(r, replies, move.state);
      assert Run(r, replies, s).sends[n] == s.next;
      if s.isFallback {
        switch := n;
      }
    } else {
      switch := if s.isFallback then n else n + 1;
    }
  }

  /**
    For every sequence of replies: the loop sends again after every reply but a success, a 400,
    a 401 or a 403, until it has sent `retries + 1` times to the primary and then, if there is
    one, as often to the fallback. With failover off it sends once.
   */
  lemma SendsBounded(r: Route, replies: nat -> Reply)
    ensures var t := Outcome(r, replies);
            var each := if r.failover && r.retries > 0 then r.retries + 1 else 1;
            var most := each * (if r.failover && r.fallbackUrl != "" then 2 else 1);
            && 1 <= |t.sends| <= most
            && (forall i :: 0 <= i < |t.sends| - 1 ==> !replies(i).Success?)
            && (forall i :: 0 <= i < |t.sends| - 1 ==> replies(i).StatusError? ==>
                  replies(i).status != 400 && replies(i).status != 401 && replies(i).status != 403)
            && (var last := replies(|t.sends| - 1);
                last.Success? || last == StatusError(400) || last == StatusError(401) || last == StatusError(403)
                || |t.sends| == most)
            && (forall i :: 0 <= i < each && i < |t.sends| ==> t.sends[i] == Send(r.url, r.sni, r.headers))
            && (forall i :: each <= i < |t.sends| ==> t.sends[i] == FallbackSend(r))
  {
    hide IsFinal, FallbackHeaders;
    RunWithinBudget(r, replies, Start(r));
    var switch := RunSwitchesOnce(r, replies, Start(r));
    forall i: nat ensures FinalMeans(replies(i)) {
      Finals(replies(i));
    }
  }

  ghost predicate FinalMeans(reply: Reply) {
    IsFinal(reply) <==>
      reply.Success? || reply == StatusError(400) || reply == StatusError(401) || reply == StatusError(403)
  }

  lemma Finals(reply: Reply)
    ensures FinalMeans(reply)
  {
  }

  // ----- what the client gets -----

  /** The status kept is that of the last reply that had one, the headers those of the last error's send. */
  ghost predicate Kept(r: Route, replies: nat -> Reply, s: State) {
    && StatusKept(replies, |s.sends|, s.response)
    && (exists errorBody :: KeptBody(replies, s.sends, s.errorHeaders, errorBody))
    && ((forall i :: 0 <= i < |s.sends| ==> !replies(i).StatusError?) ==> s.errorHeaders == r.headers)
  }

  ghost predicate StatusKept(replies: nat -> Reply, n: nat, response: Option<int>) {
    match response
    case None => forall i :: 0 <= i < n ==> replies(i) == TransportError
    case Some(status) =>
      exists i :: 0 <= i < n && (replies(i) == Success(status) || replies(i) == StatusError(status))
                  && forall j :: i < j < n ==> replies(j) == TransportError
  }

  lemma StatusNoted(replies: nat -> Reply, n: nat, response: Option<int>)
    requires StatusKept(replies, n, response)
    ensures StatusKept(replies, n + 1,
              match replies(n)
              case Success(status) => Some(status)
              case StatusError(status) => Some(status)
              case TransportError => response)
  {
  }

  lemma NotedKeeps(r: Route, replies: nat -> Reply, s: State)
    requires Kept(r, replies, s)
    ensures Kept(r, replies, Noted(s, replies(|s.sends|)))
  {
    hide StatusKept, KeptBody;
    var n := |s.sends|;
    StatusNoted(replies, n, s.response);
    var errorBody :| KeptBody(replies, s.sends, s.errorHeaders, errorBody);
    KeepBody(replies, s.sends, s.next, s.errorHeaders, errorBody);
    var t := Noted(s, replies(n));
    assert KeptBody(replies, t.sends, t.errorHeaders, if replies(n).StatusError? then Some(n) else errorBody);
  }

  lemma {:induction false} RunKeeps(r: Route, replies: nat -> Reply, s: State)
    requires Kept(r, replies, s)
    ensures Kept(r, replies, Run(r, replies, s))
    decreases if s.isFallback then 0 else 1, MaxRetries(r) - s.attempt
  {
    hide IsFinal, FallbackHeaders, StatusKept, KeptBody, Run;
    NotedKeeps(r, replies, s);
    RunStep(r, replies, s);
    var move := Step(r, s, replies(|s.sends|));
    if move.Again? {
      RunKeeps(r, replies, move.state);
    }
  }

  /** What the loop hands on: the last status anyone answered, none if no one did, and that error's headers. */
  lemma OutcomeKeeps(r: Route, replies: nat -> Reply)
    ensures Kept(r, replies, Outcome(r, replies))
  {
    hide Run;
    NothingKept(replies, r.headers);
    RunKeeps(r, replies, Start(r));
  }

  // ----- with whose credential -----

  lemma Injected(headers: HeaderMap, name: string, value: string)
    requires name in CREDENTIAL_HEADERS
    ensures Credentials(WithoutCredentials(headers)[name := value]) == map[name := value]
    ensures WithoutCredentials(WithoutCredentials(headers)[name := value]) == WithoutCredentials(headers)
  {
  }

  lemma Removed(headers: HeaderMap)
    ensures Credentials(WithoutCredentials(headers)) == map[]
    ensures WithoutCredentials(WithoutCredentials(headers)) == WithoutCredentials(headers)
  {
  }

  lemma HostSet(headers: HeaderMap, host: string)
    requires "host" !in CREDENTIAL_HEADERS
    ensures Credentials(headers["host" := host]) == Credentials(headers)
    ensures WithoutCredentials(headers["host" := host]) - {"host"} == WithoutCredentials(headers) - {"host"}
  {
  }

  lemma HeaderNames(key: string, anthropic: bool)
    ensures Bearing(key, anthropic).0 in CREDENTIAL_HEADERS && "host" !in CREDENTIAL_HEADERS
  {
    assert CREDENTIAL_HEADERS[0] == "authorization" && CREDENTIAL_HEADERS[1] == "x-api-key";
    assert |"host"| == 4;
  }

  /** A fallback send: only the fallback key when there is one, and never the proxy's other key. */
  lemma FallbackCredential(r: Route)
    ensures var headers := FallbackSend(r).headers;
            var (name, value) := Bearing(r.fallbackKey, r.fallbackIsAnthropic);
            && (r.fallbackKey != "" ==> Credentials(headers) == map[name := value])
            && (r.fallbackKey == "" && r.proxyKeyInUse ==> Credentials(headers) == map[])
            && (r.fallbackKey == "" && !r.proxyKeyInUse ==> Credentials(headers) == Credentials(r.headers))
            && WithoutCredentials(headers) - {"host"} == WithoutCredentials(r.headers) - {"host"}
  {
    hide Credentials, WithoutCredentials, Bearing;
    var (name, value) := Bearing(r.fallbackKey, r.fallbackIsAnthropic);
    HeaderNames(r.fallbackKey, r.fallbackIsAnthropic);
    Injected(r.headers, name, value);
    Removed(r.headers);
    HostSet(WithoutCredentials(r.headers)[name := value], r.fallbackHost);
    HostSet(WithoutCredentials(r.headers), r.fallbackHost);
    HostSet(r.headers, r.fallbackHost);
  }

  /** Which headers are credentials. */
  lemma CredentialsIff(headers: HeaderMap, name: string)
    ensures name in Credentials(headers) <==>
              && name in headers
              && (name == "authorization" || name == "x-api-key" || name == "x-goog-api-key" || name == "api-key")
    ensures name in Credentials(headers) ==> Credentials(headers)[name] == headers[name]
    ensures name in WithoutCredentials(headers) <==> name in headers && name !in Credentials(headers)
    ensures name in WithoutCredentials(headers) ==> WithoutCredentials(headers)[name] == headers[name]
  {
  }

  /** A fallback send goes where the fallback is, and names its host; with no host known the request's own stays. */
  lemma FallbackHost(r: Route)
    ensures FallbackSend(r).url == r.fallbackTarget && FallbackSend(r).sni == r.fallbackSni
    ensures var headers := FallbackSend(r).headers;
            && (r.fallbackHost != "" ==> "host" in headers && headers["host"] == r.fallbackHost)
            && (r.fallbackHost == "" ==> ("host" in headers <==> "host" in r.headers))
            && (r.fallbackHost == "" && "host" in headers ==> headers["host"] == r.headers["host"])
  {
    hide CREDENTIAL_HEADERS, Bearing;
    HeaderNames(r.fallbackKey, r.fallbackIsAnthropic);
  }

  /** A host name as it is compared: in lower case, without trailing dots. */
  function HostKey(host: string): string {
    WithoutDots(Lower(host))
  }

  function WithoutDots(s: string): string {
    if s != "" && s[|s| - 1] == '.' then WithoutDots(s[..|s| - 1]) else s
  }

  lemma {:induction false} DotsCutOff(s: string) returns (n: nat)
    ensures var key := WithoutDots(s);
            && s == key + seq(n, _ => '.')
            && (key == "" || key[|key| - 1] != '.')
  {
    if s != "" && s[|s| - 1] == '.' {
      n := DotsCutOff(s[..|s| - 1]);
      n := n + 1;
    } else {
      n := 0;
    }
  }

  /** The operator's own fallback: the one it configured, or a host the caller named that is that very host. */
  ghost predicate IsOperators(c: Choice) {
    c.overrideUrl == "" || (c.configuredHost != "" && c.chosenHost == c.configuredHost)
  }

  /**
    Every choice. One is refused only to a caller who uses the proxy's key and names a host: the
    operator's on another scheme or port, or one the proxy holds no key for, or any other host
    when the role pins its key. The operator's fallback key is what its own fallback gets, and
    nobody else's.
   */
  lemma KeyChosen(c: Choice)
    ensures ChooseKey(c) == Forbidden <==>
              && c.overrideUrl != "" && c.proxyKeyInUse
              && (if c.configuredHost != "" && c.chosenHost == c.configuredHost
                  then c.chosenScheme != c.configuredScheme || c.chosenPort != c.configuredPort
                  else c.rolePinsKey || c.proxyKeyForHost == None)
    ensures ChooseKey(c).Carry? && IsOperators(c) ==> ChooseKey(c).key == c.fallbackApiKey
    ensures ChooseKey(c).Carry? && !IsOperators(c) && c.proxyKeyInUse ==>
              !c.rolePinsKey && c.proxyKeyForHost == Some(ChooseKey(c).key)
    ensures ChooseKey(c).Carry? && !IsOperators(c) && !c.proxyKeyInUse ==> ChooseKey(c).key == ""
  {
  }

  /** How a key is carried: as the only credential, or in place of every credential. */
  ghost predicate CarriesOnly(headers: HeaderMap, key: string, anthropic: bool) {
    Credentials(headers) ==
      if key == "" then map[]
      else if anthropic then map["x-api-key" := key]
      else map["authorization" := "Bearer " + key]
  }

  /**
    Whose credential every fallback send carries, over every choice and every run. The operator's
    fallback gets the operator's fallback key; with none set, or on any other host, a caller
    with a key of its own has that key carried on unchanged, and the proxy's key is taken off.
    Any other host gets the proxy's key for that very host, and that only when no role pins one.
   */
  lemma FallbackCarries(c: Choice, r: Route, replies: nat -> Reply, i: nat)
    requires r.proxyKeyInUse == c.proxyKeyInUse
    requires c.overrideUrl != "" ==> r.fallbackSni.Some? && c.chosenHost == HostKey(r.fallbackSni.value)
    requires ChooseKey(c).Carry? && r.fallbackKey == ChooseKey(c).key
    requires (if r.failover && r.retries > 0 then r.retries + 1 else 1) <= i < |Outcome(r, replies).sends|
    ensures var send := Outcome(r, replies).sends[i];
            && r.failover && r.fallbackUrl != ""
            && send.url == r.fallbackTarget && send.sni == r.fallbackSni
            && var operators := c.overrideUrl == ""
                                || (c.configuredHost != "" && HostKey(send.sni.value) == c.configuredHost);
               if operators && c.fallbackApiKey != "" then
                 && CarriesOnly(send.headers, c.fallbackApiKey, r.fallbackIsAnthropic)
                 && (c.overrideUrl != "" && c.proxyKeyInUse ==>
                       c.chosenScheme == c.configuredScheme && c.chosenPort == c.configuredPort)
               else if !c.proxyKeyInUse then Credentials(send.headers) == Credentials(r.headers)
               else if operators then Credentials(send.headers) == map[]
               else
                 && !c.rolePinsKey && c.proxyKeyForHost.Some?
                 && CarriesOnly(send.headers, c.proxyKeyForHost.value, r.fallbackIsAnthropic)
  {
    hide Run, Step, FallbackHeaders, Credentials, WithoutCredentials, HostKey;
    SendsBounded(r, replies);
    assert Outcome(r, replies).sends[i] == FallbackSend(r);
    FallbackCredential(r);
    KeyChosen(c);
  }
}
