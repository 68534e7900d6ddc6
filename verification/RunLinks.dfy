/** Links to workflow runs, and the key that names a run however its link is written. */
module RunLinks {
  import opened Text

  const HOST := "https://github.com/"
  const RUNS := "/actions/runs/"

  predicate IsNameChar(c: char) {
    'A' <= c <= 'Z' || 'a' <= c <= 'z' || '0' <= c <= '9' || c == '.' || c == '_' || c == '-'
  }

  predicate IsDigit(c: char) {
    '0' <= c <= '9'
  }

  /** What a greedy `[p]{..most}` takes off the front of `s`. */
  function Take(p: char -> bool, s: string, most: nat): (n: nat)
    ensures n <= most && n <= |s|
    ensures forall i :: 0 <= i < n ==> p(s[i])
    ensures n < most && n < |s| ==> !p(s[n])
  {
    if most == 0 || s == "" || !p(s[0]) then 0 else 1 + Take(p, s[1..], most - 1)
  }

  /** The groups of the run-link pattern. */
  datatype Groups = Groups(owner: string, repo: string, id: string)

  /** A name of up to a hundred characters, then `sep`: the name and what comes after. */
  function NameThen(s: string, sep: string): Option<(string, string)> {
    var n := Take(IsNameChar, s, 100);
    if n == 0 || !(sep <= s[n..]) then None else Some((s[..n], s[n..][|sep|..]))
  }

  /** The run-link pattern, anchored at the start only. */
  function Match(url: string): Option<Groups> {
    if !(HOST <= url) then None
    else match NameThen(url[|HOST|..], "/")
      case None => None
      case Some((owner, fromRepo)) =>
        match NameThen(fromRepo, RUNS)
        case None => None
        case Some((repo, fromId)) =>
          var k := Take(IsDigit, fromId, 20);
          if k == 0 then None else Some(Groups(owner, repo, fromId[..k]))
  }

  /** What `int` reads from a string of digits. */
  function NumberOf(digits: string): nat {
    if digits == "" then 0
    else
      var d := digits[|digits| - 1];
      10 * NumberOf(digits[..|digits| - 1]) + if IsDigit(d) then (d - '0') as nat else 0
  }

  /** What `str.strip` takes off. */
  predicate IsBlank(c: char) {
    || '\U{0009}' <= c <= '\U{000D}' || '\U{001C}' <= c <= '\U{0020}' || c == '\U{0085}' || c == '\U{00A0}'
    || c == '\U{1680}' || '\U{2000}' <= c <= '\U{200A}' || c == '\U{2028}' || c == '\U{2029}'
    || c == '\U{202F}' || c == '\U{205F}' || c == '\U{3000}'
  }

  function StripLeft(s: string): string {
    if s != "" && IsBlank(s[0]) then StripLeft(s[1..]) else s
  }

  function StripRight(s: string): (r: string)
    ensures r <= s
  {
    if s != "" && IsBlank(s[|s| - 1]) then StripRight(s[..|s| - 1]) else s
  }

  function GroupsOf(url: string): Option<Groups> {
    Match(StripRight(StripLeft(url)))
  }

  /** `canonical_run_key`: empty when the text is not a run link. */
  function RunKeyOf(url: string): string {
    match GroupsOf(url)
    case None => ""
    case Some(g) => Lower(g.owner) + ("/" + (Lower(g.repo) + ("/" + Decimal(NumberOf(g.id)))))
  }

  // ----- what matches -----

  ghost predicate AllOf(p: char -> bool, s: string) {
    forall i :: 0 <= i < |s| ==> p(s[i])
  }

  ghost predicate IsGroups(g: Groups) {
    && 1 <= |g.owner| <= 100 && AllOf(IsNameChar, g.owner)
    && 1 <= |g.repo| <= 100 && AllOf(IsNameChar, g.repo)
    && 1 <= |g.id| <= 20 && AllOf(IsDigit, g.id)
  }

  /** The link with these groups, whatever follows the run id. */
  function Link(g: Groups, rest: string): string {
    HOST + (g.owner + ("/" + (g.repo + (RUNS + (g.id + rest)))))
  }

  /** The id ends where it does: at its longest, or before something that is no digit. */
  predicate EndsId(g: Groups, rest: string) {
    |g.id| >= 20 || rest == "" || !IsDigit(rest[0])
  }

  lemma TakeIff(p: char -> bool, s: string, most: nat, head: string, rest: string)
    requires s == head + rest
    ensures Take(p, s, most) == |head|
            <==> AllOf(p, head) && |head| <= most && (|head| == most || rest == "" || !p(rest[0]))
  {
    assert forall i :: 0 <= i < |head| ==> s[i] == head[i];
    assert rest != "" ==> s[|head|] == rest[0];
    assert |s| == |head| + |rest|;
  }

  lemma Peel(s: string, prefix: string)
    requires prefix <= s
    ensures s == prefix + s[|prefix|..]
  {
  }

  lemma NameThenIff(s: string, sep: string, name: string, after: string)
    requires sep != "" && !IsNameChar(sep[0])
    ensures NameThen(s, sep) == Some((name, after))
            <==> 1 <= |name| <= 100 && AllOf(IsNameChar, name) && s == name + (sep + after)
  {
    hide Take, IsNameChar, AllOf;
    var n := Take(IsNameChar, s, 100);
    Peel(s, s[..n]);
    if NameThen(s, sep) == Some((name, after)) {
      Peel(s[n..], sep);
      TakeIff(IsNameChar, s, 100, name, sep + after);
    }
    if 1 <= |name| <= 100 && AllOf(IsNameChar, name) && s == name + (sep + after) {
      TakeIff(IsNameChar, s, 100, name, sep + after);
      assert s[..n] == name && s[n..] == sep + after && (sep + after)[|sep|..] == after;
    }
  }

  lemma LinkMatches(g: Groups, rest: string)
    requires IsGroups(g) && EndsId(g, rest)
    ensures Match(Link(g, rest)) == Some(g)
  {
    hide Take, AllOf, NameThen;
    var fromId := g.id + rest;
    var fromRepo := g.repo + (RUNS + fromId);
    var fromOwner := g.owner + ("/" + fromRepo);
    NameThenIff(fromOwner, "/", g.owner, fromRepo);
    NameThenIff(fromRepo, RUNS, g.repo, fromId);
    TakeIff(IsDigit, fromId, 20, g.id, rest);
    assert Link(g, rest)[|HOST|..] == fromOwner;
    assert fromId[..|g.id|] == g.id;
  }

  lemma MatchIsLink(url: string) returns (rest: string)
    requires Match(url).Some?
    ensures var g := Match(url).value;
            IsGroups(g) && url == Link(g, rest) && EndsId(g, rest)
  {
    hide Take, AllOf, NameThen;
    var g := Match(url).value;
    var fromOwner := url[|HOST|..];
    var fromRepo := NameThen(fromOwner, "/").value.1;
    var fromId := NameThen(fromRepo, RUNS).value.1;
    Peel(url, HOST);
    NameThenIff(fromOwner, "/", g.owner, fromRepo);
    NameThenIff(fromRepo, RUNS, g.repo, fromId);
    rest := fromId[|g.id|..];
    Peel(fromId, g.id);
    TakeIff(IsDigit, fromId, 20, g.id, rest);
  }

  /** A text matches with some groups exactly when it is the link with those groups, then anything. */
  lemma MatchIff(url: string, g: Groups)
    ensures Match(url) == Some(g) <==> IsGroups(g) && exists rest :: EndsId(g, rest) && url == Link(g, rest)
  {
    hide Match, IsGroups, Link;
    if Match(url) == Some(g) {
      var rest := MatchIsLink(url);
    }
    if rest :| IsGroups(g) && EndsId(g, rest) && url == Link(g, rest) {
      LinkMatches(g, rest);
    }
  }

  /** The characters of a name, a digit and a blank, code by code. */
  lemma CharClasses(c: char)
    ensures IsNameChar(c) <==>
              || 48 <= c as int <= 57 || 65 <= c as int <= 90 || 97 <= c as int <= 122
              || c as int in {45, 46, 95}
    ensures IsDigit(c) <==> 48 <= c as int <= 57
    ensures IsBlank(c) <==>
              || 9 <= c as int <= 13 || 28 <= c as int <= 32 || 8192 <= c as int <= 8202
              || c as int in {133, 160, 5760, 8232, 8233, 8239, 8287, 12288}
  {
  }

  /** The link written out, and the key a link gives. */
  lemma LinkIs(g: Groups, rest: string)
    ensures Link(g, rest) == "https://github.com/" + g.owner + "/" + g.repo + "/actions/runs/" + g.id + rest
  {
  }

  lemma RunKeyIs(url: string)
    ensures RunKeyOf(url) ==
              if GroupsOf(url) == None then ""
              else Lower(GroupsOf(url).value.owner) + "/" + Lower(GroupsOf(url).value.repo)
                   + "/" + Decimal(NumberOf(GroupsOf(url).value.id))
  {
    hide Lower, Decimal, NumberOf, GroupsOf;
  }

  /** Leading zeros do not change the number, and otherwise it is the one its decimal form names. */
  lemma {:induction false} ZerosIgnored(zeros: string, n: nat)
    requires forall i :: 0 <= i < |zeros| ==> zeros[i] == '0'
    ensures NumberOf(zeros + Decimal(n)) == n
  {
    hide Decimal;
    DecimalDigits(n);
    ZerosThen(zeros, Decimal(n));
  }

  lemma {:induction false} ZerosThen(zeros: string, digits: string)
    requires forall i :: 0 <= i < |zeros| ==> zeros[i] == '0'
    ensures NumberOf(zeros + digits) == NumberOf(digits)
    decreases |zeros| + |digits|
  {
    var all := zeros + digits;
    if digits != "" {
      assert all[|all| - 1] == digits[|digits| - 1];
      assert all[..|all| - 1] == zeros + digits[..|digits| - 1];
      ZerosThen(zeros, digits[..|digits| - 1]);
    } else if zeros != "" {
      assert all == zeros && zeros[..|zeros| - 1] == zeros[..|zeros| - 1] + "";
      ZerosThen(zeros[..|zeros| - 1], "");
    }
  }

  // ----- what the key tells apart -----

  lemma {:induction false} DecimalDigits(n: nat)
    ensures AllOf(IsDigit, Decimal(n)) && NumberOf(Decimal(n)) == n
  {
    if n >= 10 {
      DecimalDigits(n / 10);
      assert Decimal(n)[..|Decimal(n)| - 1] == Decimal(n / 10);
    } else {
      assert Decimal(n)[..0] == "";
    }
  }

  lemma DecimalIsInjective(a: nat, b: nat)
    requires Decimal(a) == Decimal(b)
    ensures a == b
  {
    DecimalDigits(a);
    DecimalDigits(b);
  }

  /** Text before the first slash, and after it. */
  lemma SlashSplits(a: string, x: string, b: string, y: string)
    requires '/' !in a && '/' !in b && a + ("/" + x) == b + ("/" + y)
    ensures a == b && x == y
  {
    var s := a + ("/" + x);
    assert s[|a|] == '/' == s[|b|];
    assert forall i :: 0 <= i < |a| ==> s[i] == a[i] != '/';
    assert forall i :: 0 <= i < |b| ==> s[i] == b[i] != '/';
    assert a == s[..|a|] && x == s[|a| + 1..] && y == s[|b| + 1..];
  }

  lemma LowerKeepsNames(s: string)
    requires AllOf(IsNameChar, s)
    ensures '/' !in Lower(s)
  {
    forall i | 0 <= i < |s| ensures Lower(s)[i] != '/' {
      assert IsNameChar(s[i]);
    }
  }

  lemma {:induction false} StripBefore(before: string, s: string)
    requires AllOf(IsBlank, before) && s != "" && !IsBlank(s[0])
    ensures StripLeft(before + s) == s
  {
    hide IsBlank;
    if before == "" {
      assert before + s == s;
    } else {
      assert (before + s)[0] == before[0] && (before + s)[1..] == before[1..] + s;
      StripBefore(before[1..], s);
    }
  }

  lemma {:induction false} StripAfter(s: string, rest: string)
    requires s != "" && !IsBlank(s[|s| - 1])
    ensures StripRight(s + rest) == s + StripRight(rest)
  {
    hide IsBlank;
    if rest == "" {
      assert s + rest == s;
    } else {
      assert (s + rest)[|s + rest| - 1] == rest[|rest| - 1];
      assert (s + rest)[..|s + rest| - 1] == s + rest[..|rest| - 1];
      if IsBlank(rest[|rest| - 1]) {
        StripAfter(s, rest[..|rest| - 1]);
      }
    }
  }

  lemma LinkThen(g: Groups, rest: string)
    ensures Link(g, "") + rest == Link(g, rest)
  {
    assert g.id + "" == g.id;
    Assoc(g.id, "", rest);
    Assoc(RUNS, g.id, rest);
    Assoc(g.repo, RUNS + g.id, rest);
    Assoc("/", g.repo + (RUNS + g.id), rest);
    Assoc(g.owner, "/" + (g.repo + (RUNS + g.id)), rest);
    Assoc(HOST, g.owner + ("/" + (g.repo + (RUNS + g.id))), rest);
  }

  lemma LinkEnds(g: Groups)
    requires IsGroups(g)
    ensures Link(g, "") != "" && Link(g, "")[0] == 'h' && Link(g, "")[|Link(g, "")| - 1] == g.id[|g.id| - 1]
  {
    assert Link(g, "")[0] == HOST[0];
    assert g.id + "" == g.id;
    assert Link(g, "") == HOST + (g.owner + ("/" + (g.repo + (RUNS + g.id))));
  }

  /** Blanks around a link and whatever follows its run id name the same run. */
  lemma SurroundingsIgnored(g: Groups, before: string, rest: string)
    requires IsGroups(g) && EndsId(g, rest) && AllOf(IsBlank, before)
    ensures GroupsOf(before + Link(g, rest)) == Some(g)
  {
    hide Match, Link, IsGroups, IsBlank, AllOf, StripLeft, StripRight;
    var link, stripped := Link(g, ""), StripRight(rest);
    LinkThen(g, rest);
    LinkThen(g, stripped);
    LinkEnds(g);
    IdIsNotBlank(g);
    assert (link + rest)[0] == 'h' && !IsBlank('h');
    StripBefore(before, link + rest);
    StripAfter(link, rest);
    LinkMatches(g, stripped);
  }

  lemma IdIsNotBlank(g: Groups)
    requires IsGroups(g)
    ensures g.id != "" && !IsBlank(g.id[|g.id| - 1]) && !IsBlank('h')
  {
    assert IsDigit(g.id[|g.id| - 1]);
  }

  /** Two links have one key exactly when they name the same owner and repository, up to letter case, and run number. */
  lemma KeyNamesTheRun(a: string, b: string)
    requires GroupsOf(a).Some?
    ensures var g := GroupsOf(a).value;
            RunKeyOf(a) != "" &&
            (RunKeyOf(a) == RunKeyOf(b) <==>
               GroupsOf(b).Some? &&
               var h := GroupsOf(b).value;
               Lower(g.owner) == Lower(h.owner) && Lower(g.repo) == Lower(h.repo) && NumberOf(g.id) == NumberOf(h.id))
  {
    hide Match, Lower, Decimal, NumberOf, StripLeft, StripRight;
    var g := GroupsOf(a).value;
    var rest := MatchIsLink(StripRight(StripLeft(a)));
    LowerKeepsNames(g.owner);
    LowerKeepsNames(g.repo);
    if GroupsOf(b).Some? && RunKeyOf(a) == RunKeyOf(b) {
      var h := GroupsOf(b).value;
      rest := MatchIsLink(StripRight(StripLeft(b)));
      LowerKeepsNames(h.owner);
      LowerKeepsNames(h.repo);
      var idA, idB := Decimal(NumberOf(g.id)), Decimal(NumberOf(h.id));
      SlashSplits(Lower(g.owner), Lower(g.repo) + ("/" + idA), Lower(h.owner), Lower(h.repo) + ("/" + idB));
      SlashSplits(Lower(g.repo), idA, Lower(h.repo), idB);
      DecimalIsInjective(NumberOf(g.id), NumberOf(h.id));
    }
  }
}
