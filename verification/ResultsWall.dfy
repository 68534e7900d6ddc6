/** The results wall: the table of published rows, and the gate a submission passes to reach it. */
module ResultsWall {
  import opened Text
  import opened RunLinks

  const MAX_ROWS_PER_SUBMITTER := 12

  // ----- rows -----

  /** A table entry: a row, or something that is not a JSON object. Issue 0 is no issue. */
  datatype Entry =
    | Junk
    | Row(issue: int, submitter: string, runUrl: string, project: string, version: string)

  datatype Identity = Run(key: string) | Target(project: string, version: string)

  function RowIdentity(row: Entry): Identity
    requires row.Row?
  {
    if row.runUrl == "" then Target(Lower(row.project), Lower(row.version))
    else if RunKeyOf(row.runUrl) != "" then Run(RunKeyOf(row.runUrl))
    else Run(row.runUrl)
  }

  function Submitter(row: Entry): string
    requires row.Row?
  {
    Lower(row.submitter)
  }

  /** `_same_row`: the same issue, or the same account's same run. */
  predicate SameRow(existing: Entry, row: Entry)
    requires row.Row?
  {
    && existing.Row?
    && ((row.issue != 0 && existing.issue == row.issue)
        || (RowIdentity(existing) == RowIdentity(row) && Submitter(existing) == Submitter(row)))
  }

  /** `is_replacement`. */
  predicate IsReplacement(row: Entry, entries: seq<Entry>)
    requires row.Row?
  {
    exists i :: 0 <= i < |entries| && SameRow(entries[i], row)
  }

  /** `existing` is another account's row, on another issue, for this row's run. */
  predicate ClaimsRun(existing: Entry, row: Entry)
    requires row.Row?
  {
    && existing.Row? && RunKeyOf(row.runUrl) != ""
    && RunKeyOf(existing.runUrl) == RunKeyOf(row.runUrl)
    && Submitter(existing) != Submitter(row) && existing.issue != row.issue
  }

  predicate IsBy(entry: Entry, submitter: string) {
    entry.Row? && entry.submitter == submitter
  }

  /** `submissions_by`. */
  function SubmissionsBy(entries: seq<Entry>, submitter: string): nat {
    if entries == [] then 0
    else (if IsBy(entries[0], submitter) then 1 else 0) + SubmissionsBy(entries[1..], submitter)
  }

  function Others(entries: seq<Entry>, row: Entry): seq<Entry>
    requires row.Row?
  {
    if entries == [] then []
    else (if SameRow(entries[0], row) then [] else [entries[0]]) + Others(entries[1..], row)
  }

  /** `append_row`: what the row replaces goes, everything else stays in order, the row comes last. */
  function Appended(entries: seq<Entry>, row: Entry): seq<Entry>
    requires row.Row?
  {
    Others(entries, row) + [row]
  }

  datatype Verdict = ClaimedByOther | AtCap | NotArchived | NotLanded | Published

  function Judge(entries: seq<Entry>, row: Entry): Verdict
    requires row.Row?
  {
    if exists i :: 0 <= i < |entries| && ClaimsRun(entries[i], row) then ClaimedByOther
    else if !IsReplacement(row, entries) && SubmissionsBy(entries, row.submitter) >= MAX_ROWS_PER_SUBMITTER then AtCap
    else Published
  }

  /** The table after a submission. */
  function After(entries: seq<Entry>, row: Entry): seq<Entry>
    requires row.Row?
  {
    if Judge(entries, row) == Published then Appended(entries, row) else entries
  }

  // ----- the gate, clause by clause -----

  /** Two rows are of one run, or, when neither links one, of one project and version. */
  lemma SameIdentityIff(a: Entry, b: Entry)
    requires a.Row? && b.Row?
    ensures RowIdentity(a) == RowIdentity(b) <==>
              if a.runUrl == "" || b.runUrl == "" then
                a.runUrl == b.runUrl && Lower(a.project) == Lower(b.project) && Lower(a.version) == Lower(b.version)
              else
                (if RunKeyOf(a.runUrl) != "" then RunKeyOf(a.runUrl) else a.runUrl)
                == (if RunKeyOf(b.runUrl) != "" then RunKeyOf(b.runUrl) else b.runUrl)
  {
    hide RunKeyOf, Lower;
  }

  ghost function By(submitter: string): Entry -> bool {
    (entry: Entry) => entry.Row? && entry.submitter == submitter
  }

  lemma {:induction false} SubmissionsAreCounted(entries: seq<Entry>, submitter: string)
    ensures SubmissionsBy(entries, submitter) == |Positions(entries, By(submitter))|
  {
    hide Positions;
    if entries == [] {
      PositionsSnoc([], Junk, By(submitter));
    } else {
      SubmissionsAreCounted(entries[1..], submitter);
      PositionsCons(entries[0], entries[1..], By(submitter));
      assert entries == [entries[0]] + entries[1..];
    }
  }

  /** Another account, on another issue, holds this row's run. */
  ghost predicate Claims(x: Entry, row: Entry)
    requires row.Row?
  {
    && x.Row? && x.issue != row.issue && Lower(x.submitter) != Lower(row.submitter)
    && RunKeyOf(x.runUrl) == RunKeyOf(row.runUrl) != ""
  }

  /** A row of the same issue, or of the same account and the same run. */
  ghost predicate Replaces(row: Entry, x: Entry)
    requires row.Row?
  {
    && x.Row?
    && ((x.issue == row.issue && row.issue != 0)
        || (Lower(x.submitter) == Lower(row.submitter) && RowIdentity(x) == RowIdentity(row)))
  }

  /** What the gate decides: a run another account holds is refused first, then a thirteenth row. */
  lemma JudgeIff(entries: seq<Entry>, row: Entry)
    requires row.Row?
    ensures Judge(entries, row) == ClaimedByOther <==> exists x :: x in entries && Claims(x, row)
    ensures Judge(entries, row) == AtCap <==>
              && (forall x :: x in entries ==> !Claims(x, row) && !Replaces(row, x))
              && |Positions(entries, By(row.submitter))| >= 12
    ensures Judge(entries, row) in {ClaimedByOther, AtCap, Published}
  {
    hide RunKeyOf, Lower, RowIdentity, SubmissionsBy, By, Positions;
    SubmissionsAreCounted(entries, row.submitter);
    forall x ensures (Claims(x, row) <==> ClaimsRun(x, row)) && (Replaces(row, x) <==> SameRow(x, row)) {
    }
    if x :| x in entries && Claims(x, row) {
      var i :| 0 <= i < |entries| && entries[i] == x;
      assert ClaimsRun(entries[i], row);
    }
    if x :| x in entries && Replaces(row, x) {
      var i :| 0 <= i < |entries| && entries[i] == x;
      assert SameRow(entries[i], row);
    }
  }

  lemma OthersFrom(entries: seq<Entry>, row: Entry, kept: seq<Entry>, i: nat)
    requires row.Row? && i <= |entries|
    ensures i == 0 ==> [] + Others(entries[i..], row) == Others(entries, row)
    ensures i == |entries| ==> kept + Others(entries[i..], row) == kept
    ensures i < |entries| ==>
              kept + Others(entries[i..], row)
              == (if SameRow(entries[i], row) then kept else kept + [entries[i]]) + Others(entries[i + 1..], row)
  {
    hide SameRow;
    assert i == 0 ==> entries[i..] == entries;
    if i < |entries| {
      assert entries[i..][1..] == entries[i + 1..];
      Assoc(kept, [entries[i]], Others(entries[i + 1..], row));
      assert [] + Others(entries[i + 1..], row) == Others(entries[i + 1..], row);
    }
  }

  /** The rows file: the copy worked on, the table on the main branch, and the gate in front of it. */
  class RowsFile {
    var entries: seq<Entry>
    var main: seq<Entry>

    constructor (main: seq<Entry>)
      ensures this.entries == this.main == main
    {
      this.entries := main;
      this.main := main;
    }

    /** `run_claimed_by_other`: the first such row, if any. */
    method RunClaimedByOther(row: Entry) returns (claim: Option<Entry>)
      requires row.Row?
      ensures claim.Some? <==> exists i :: 0 <= i < |entries| && ClaimsRun(entries[i], row)
      ensures claim.Some? ==> exists i :: 0 <= i < |entries| && entries[i] == claim.value && ClaimsRun(claim.value, row)
                                && forall j :: 0 <= j < i ==> !ClaimsRun(entries[j], row)
    {
      hide RunKeyOf, Submitter;
      if RunKeyOf(row.runUrl) == "" {
        return None;
      }
      for i := 0 to |entries|
        invariant forall j :: 0 <= j < i ==> !ClaimsRun(entries[j], row)
      {
        if ClaimsRun(entries[i], row) {
          return Some(entries[i]);
        }
      }
      return None;
    }

    method AppendRow(row: Entry)
      requires row.Row?
      modifies `entries
      ensures entries == Appended(old(entries), row)
    {
      hide SameRow, Others;
      var kept: seq<Entry> := [];
      OthersFrom(entries, row, kept, 0);
      for i := 0 to |entries|
        invariant entries == old(entries) && kept + Others(entries[i..], row) == Others(entries, row)
      {
        OthersFrom(entries, row, kept, i);
        if !SameRow(entries[i], row) {
          kept := kept + [entries[i]];
        }
      }
      OthersFrom(entries, row, kept, |entries|);
      entries := kept + [row];
    }

    /**
      What the intake decides on a row it could read and verify, and what it does to the
      table; `archived` says whether a copy of the row's report could be kept, `landed`
      whether the scan, the build and the merge went through.
     */
    method Submit(row: Entry, archived: bool, landed: bool) returns (verdict: Verdict)
      requires row.Row?
      modifies this
      ensures var judged := Judge(old(main), row);
              && verdict == (if judged != Published then judged
                             else if !archived then NotArchived else if !landed then NotLanded else Published)
              && main == (if verdict == Published then Appended(old(main), row) else old(main))
              && entries == (if verdict in {Published, NotLanded} then Appended(old(main), row) else old(main))
    {
      hide ClaimsRun, SameRow, Appended, Others;
      entries := main;
      var claim := RunClaimedByOther(row);
      if claim.Some? {
        return ClaimedByOther;
      }
      var replacing := IsReplacement(row, entries);
      if !replacing && SubmissionsBy(entries, row.submitter) >= MAX_ROWS_PER_SUBMITTER {
        return AtCap;
      }
      if !archived {
        return NotArchived;
      }
      AppendRow(row);
      if !landed {
        return NotLanded;
      }
      main := entries;
      return Published;
    }
  }

  // ----- one submission -----

  lemma {:induction false} OthersMembers(entries: seq<Entry>, row: Entry, x: Entry)
    requires row.Row?
    ensures x in Others(entries, row) <==> x in entries && !SameRow(x, row)
  {
    hide SameRow;
    if entries != [] {
      OthersMembers(entries[1..], row, x);
    }
  }

  /** A published row takes out what it replaces and nothing else; a refused one changes nothing. */
  lemma RowsAfter(entries: seq<Entry>, row: Entry, x: Entry)
    requires row.Row?
    ensures x in After(entries, row) <==>
              if Judge(entries, row) == Published then x == row || (x in entries && !SameRow(x, row)) else x in entries
  {
    hide Judge, SameRow;
    OthersMembers(entries, row, x);
  }

  // ----- every reachable table -----

  /** A submission the intake hands to the gate: a numbered issue and a valid run link. */
  predicate Submittable(row: Entry) {
    row.Row? && row.issue != 0 && RunKeyOf(row.runUrl) != ""
  }

  ghost predicate AllSubmittable(rows: seq<Entry>) {
    forall i :: 0 <= i < |rows| ==> Submittable(rows[i])
  }

  /** The table after a history of submissions to an empty wall. */
  function Wall(history: seq<Entry>): seq<Entry>
    requires forall i :: 0 <= i < |history| ==> history[i].Row?
  {
    if history == [] then [] else After(Wall(history[..|history| - 1]), history[|history| - 1])
  }

  predicate Apart(x: Entry, y: Entry)
    requires x.Row? && y.Row?
  {
    x.issue != y.issue && RunKeyOf(x.runUrl) != RunKeyOf(y.runUrl)
  }

  /** One row per issue, and one row per run. */
  ghost predicate Unique(entries: seq<Entry>) {
    && AllSubmittable(entries)
    && forall i, j :: 0 <= i < j < |entries| ==> Apart(entries[i], entries[j])
  }

  lemma {:induction false} OthersUnique(entries: seq<Entry>, row: Entry)
    requires row.Row? && Unique(entries)
    ensures Unique(Others(entries, row))
  {
    hide SameRow, RunKeyOf;
    if entries != [] {
      var first, rest := entries[0], Others(entries[1..], row);
      assert Unique(entries[1..]);
      OthersUnique(entries[1..], row);
      forall i | 0 <= i < |rest| ensures Apart(first, rest[i]) {
        OthersMembers(entries[1..], row, rest[i]);
        var j :| 0 <= j < |entries[1..]| && entries[1..][j] == rest[i];
        assert entries[j + 1] == rest[i];
      }
    }
  }

  /** A published row meets no row that stays on its issue or its run. */
  lemma PublishedIsApart(entries: seq<Entry>, row: Entry, x: Entry)
    requires Submittable(row) && AllSubmittable(entries) && Judge(entries, row) == Published
    requires x in entries && !SameRow(x, row)
    ensures Submittable(x) && Apart(x, row)
  {
    hide RunKeyOf;
    var i :| 0 <= i < |entries| && entries[i] == x;
    assert Submittable(entries[i]) && !ClaimsRun(entries[i], row);
    assert RunKeyOf("") == "" by {
      NoRunWithoutLink();
    }
  }

  lemma NoRunWithoutLink()
    ensures RunKeyOf("") == ""
  {
  }

  lemma AfterKeepsUnique(entries: seq<Entry>, row: Entry)
    requires Submittable(row) && Unique(entries)
    ensures Unique(After(entries, row))
  {
    hide SameRow, RunKeyOf, Judge;
    if Judge(entries, row) == Published {
      var others := Others(entries, row);
      OthersUnique(entries, row);
      forall i | 0 <= i < |others| ensures Apart(others[i], row) {
        OthersMembers(entries, row, others[i]);
        PublishedIsApart(entries, row, others[i]);
      }
    }
  }

  /** In every reachable table, issue numbers and canonical run keys are unique. */
  lemma {:induction false} WallIsUnique(history: seq<Entry>)
    requires AllSubmittable(history)
    ensures Unique(Wall(history))
  {
    hide After, RunKeyOf;
    if history != [] {
      WallIsUnique(history[..|history| - 1]);
      assert Submittable(history[|history| - 1]);
      AfterKeepsUnique(Wall(history[..|history| - 1]), history[|history| - 1]);
    }
  }

  // ----- the cap -----

  /** The rows of one account that a row replaces. */
  function ReplacedOf(entries: seq<Entry>, row: Entry, submitter: string): nat
    requires row.Row?
  {
    if entries == [] then 0
    else (if IsBy(entries[0], submitter) && SameRow(entries[0], row) then 1 else 0)
         + ReplacedOf(entries[1..], row, submitter)
  }

  lemma {:induction false} CountAppend(a: seq<Entry>, b: seq<Entry>, submitter: string)
    ensures SubmissionsBy(a + b, submitter) == SubmissionsBy(a, submitter) + SubmissionsBy(b, submitter)
  {
    if a == [] {
      assert a + b == b;
    } else {
      assert (a + b)[1..] == a[1..] + b;
      CountAppend(a[1..], b, submitter);
    }
  }

  lemma {:induction false} OthersCount(entries: seq<Entry>, row: Entry, submitter: string)
    requires row.Row?
    ensures SubmissionsBy(Others(entries, row), submitter) + ReplacedOf(entries, row, submitter)
         == SubmissionsBy(entries, submitter)
  {
    hide SameRow;
    if entries != [] {
      var first := if SameRow(entries[0], row) then [] else [entries[0]];
      OthersCount(entries[1..], row, submitter);
      CountAppend(first, Others(entries[1..], row), submitter);
      assert SubmissionsBy([entries[0]], submitter) == if IsBy(entries[0], submitter) then 1 else 0;
    }
  }

  /** How a published row changes the count of every account. */
  lemma CountAfter(entries: seq<Entry>, row: Entry, submitter: string)
    requires row.Row? && Judge(entries, row) == Published
    ensures SubmissionsBy(After(entries, row), submitter)
         == SubmissionsBy(entries, submitter) - ReplacedOf(entries, row, submitter)
            + if row.submitter == submitter then 1 else 0
  {
    hide Judge, SameRow;
    OthersCount(entries, row, submitter);
    CountAppend(Others(entries, row), [row], submitter);
    assert SubmissionsBy([row], submitter) == if row.submitter == submitter then 1 else 0;
  }

  lemma {:induction false} ReplacedIff(entries: seq<Entry>, row: Entry, submitter: string)
    requires row.Row?
    ensures ReplacedOf(entries, row, submitter) > 0
            <==> exists i :: 0 <= i < |entries| && IsBy(entries[i], submitter) && SameRow(entries[i], row)
  {
    hide SameRow, IsBy;
    if entries != [] {
      ReplacedIff(entries[1..], row, submitter);
      if i :| 0 <= i < |entries| && IsBy(entries[i], submitter) && SameRow(entries[i], row) {
        assert i > 0 ==> entries[1..][i - 1] == entries[i];
      }
      if i :| 0 <= i < |entries[1..]| && IsBy(entries[1..][i], submitter) && SameRow(entries[1..][i], row) {
        assert entries[i + 1] == entries[1..][i];
      }
    }
  }

  ghost predicate WithinCap(entries: seq<Entry>) {
    forall submitter :: SubmissionsBy(entries, submitter) <= MAX_ROWS_PER_SUBMITTER
  }

  /** A full account's row, for a run no other account claims, that replaces rows but none of its own. */
  ghost predicate Overfills(entries: seq<Entry>, row: Entry)
    requires row.Row?
  {
    && SubmissionsBy(entries, row.submitter) == MAX_ROWS_PER_SUBMITTER
    && (forall i :: 0 <= i < |entries| ==> !ClaimsRun(entries[i], row))
    && IsReplacement(row, entries)
    && forall i :: 0 <= i < |entries| ==> !(IsBy(entries[i], row.submitter) && SameRow(entries[i], row))
  }

  /** A submission breaks the cap in exactly one way. */
  lemma CapKeptIff(entries: seq<Entry>, row: Entry)
    requires row.Row? && WithinCap(entries)
    ensures WithinCap(After(entries, row)) <==> !Overfills(entries, row)
  {
    hide SameRow, ClaimsRun, SubmissionsBy, Appended;
    if Judge(entries, row) == Published {
      ReplacedIff(entries, row, row.submitter);
      CountAfter(entries, row, row.submitter);
      forall submitter | submitter != row.submitter
        ensures SubmissionsBy(After(entries, row), submitter) <= MAX_ROWS_PER_SUBMITTER
      {
        CountAfter(entries, row, submitter);
      }
    }
  }

  /** Whoever submits to an issue once submits to it always. */
  ghost predicate IssuesFixSubmitters(history: seq<Entry>)
    requires AllSubmittable(history)
  {
    forall x, y :: x in history && y in history && x.issue == y.issue ==> x.submitter == y.submitter
  }

  /** No login is written in two ways. */
  ghost predicate OneSpelling(history: seq<Entry>)
    requires AllSubmittable(history)
  {
    forall x, y :: x in history && y in history && Submitter(x) == Submitter(y) ==> x.submitter == y.submitter
  }

  lemma {:induction false} WallHoldsSubmissions(history: seq<Entry>, x: Entry)
    requires AllSubmittable(history) && x in Wall(history)
    ensures x in history
  {
    hide After, RunKeyOf, SameRow;
    if history != [] {
      var earlier, row := history[..|history| - 1], history[|history| - 1];
      assert Submittable(row);
      WallRow(Wall(earlier), row, x);
      if x in Wall(earlier) {
        WallHoldsSubmissions(earlier, x);
      }
    }
  }

  lemma WallRow(entries: seq<Entry>, row: Entry, x: Entry)
    requires row.Row? && x in After(entries, row)
    ensures x == row || x in entries
  {
    RowsAfter(entries, row, x);
  }

  /** No account holds more than twelve rows, as long as issues keep their submitter and logins their spelling. */
  lemma {:induction false} CapHolds(history: seq<Entry>)
    requires AllSubmittable(history) && IssuesFixSubmitters(history) && OneSpelling(history)
    ensures WithinCap(Wall(history))
  {
    hide After, Judge, RowIdentity, Submitter, RunKeyOf;
    if history != [] {
      var earlier, row := history[..|history| - 1], history[|history| - 1];
      assert forall x :: x in earlier ==> x in history;
      CapHolds(earlier);
      CapKeptIff(Wall(earlier), row);
      FullAccountReplacesItsOwn(Wall(earlier), row);
      forall i | 0 <= i < |Wall(earlier)|
        ensures SameRow(Wall(earlier)[i], row) ==> IsBy(Wall(earlier)[i], row.submitter)
      {
        WallHoldsSubmissions(earlier, Wall(earlier)[i]);
      }
    }
  }

  lemma FullAccountReplacesItsOwn(entries: seq<Entry>, row: Entry)
    requires row.Row?
    ensures Judge(entries, row) == Published && SubmissionsBy(entries, row.submitter) >= MAX_ROWS_PER_SUBMITTER
            ==> exists i :: 0 <= i < |entries| && SameRow(entries[i], row)
  {
    hide SameRow, ClaimsRun;
  }

  // ----- both conditions are needed -----

  lemma {:induction false} NothingReplaced(entries: seq<Entry>, row: Entry)
    requires row.Row? && forall i :: 0 <= i < |entries| ==> !SameRow(entries[i], row)
    ensures Others(entries, row) == entries
  {
    hide SameRow;
    if entries != [] {
      forall i | 0 <= i < |entries[1..]| ensures !SameRow(entries[1..][i], row) {
        assert !SameRow(entries[i + 1], row);
      }
      NothingReplaced(entries[1..], row);
    }
  }

  lemma ApartIsNew(x: Entry, row: Entry)
    requires Submittable(x) && Submittable(row) && Apart(x, row)
    ensures !SameRow(x, row) && !ClaimsRun(x, row)
  {
    hide RunKeyOf;
    NoRunWithoutLink();
  }

  /** Submissions on different issues for different runs, twelve at most from each account, all stay. */
  lemma {:induction false} DistinctStay(history: seq<Entry>)
    requires Unique(history) && WithinCap(history)
    ensures Wall(history) == history
  {
    hide RunKeyOf, SameRow, ClaimsRun, SubmissionsBy;
    if history != [] {
      var earlier, row := history[..|history| - 1], history[|history| - 1];
      assert history == earlier + [row];
      forall submitter
        ensures SubmissionsBy(earlier, submitter) + SubmissionsBy([row], submitter) <= MAX_ROWS_PER_SUBMITTER
      {
        CountAppend(earlier, [row], submitter);
      }
      CountOne(row, row.submitter);
      DistinctStay(earlier);
      forall i | 0 <= i < |earlier| ensures !SameRow(earlier[i], row) && !ClaimsRun(earlier[i], row) {
        assert Apart(history[i], history[|history| - 1]);
        ApartIsNew(earlier[i], row);
      }
      NothingReplaced(earlier, row);
    }
  }

  lemma CountOne(row: Entry, submitter: string)
    ensures SubmissionsBy([row], submitter) == if IsBy(row, submitter) then 1 else 0
  {
    assert SubmissionsBy([row][1..], submitter) == 0;
  }

  function Example(issue: nat, submitter: string, run: nat): Entry {
    Row(issue, submitter, Link(Groups("o", "r", Decimal(run)), ""), "proxy", "1")
  }

  lemma ExampleGroups(run: nat)
    requires run < 100
    ensures GroupsOf(Example(1, "", run).runUrl) == Some(Groups("o", "r", Decimal(run)))
  {
    hide Link, GroupsOf;
    var g := Groups("o", "r", Decimal(run));
    DecimalDigits(run);
    SurroundingsIgnored(g, "", "");
    assert "" + Link(g, "") == Link(g, "");
  }

  lemma ExampleKeys(run: nat, other: nat)
    requires run < 100 && other < 100
    ensures var a, b := Example(1, "", run).runUrl, Example(1, "", other).runUrl;
            RunKeyOf(a) != "" && (RunKeyOf(a) == RunKeyOf(b) <==> run == other)
  {
    hide RunKeyOf, Link, GroupsOf, Decimal, NumberOf, Lower;
    ExampleGroups(run);
    ExampleGroups(other);
    DecimalDigits(run);
    DecimalDigits(other);
    KeyNamesTheRun(Example(1, "", run).runUrl, Example(1, "", other).runUrl);
  }

  /** Runs `1..n`, each on the issue of its number. */
  function Examples(submitter: string, n: nat): (rows: seq<Entry>)
    ensures |rows| == n && forall i :: 0 <= i < n ==> rows[i] == Example(i + 1, submitter, i + 1)
  {
    if n == 0 then [] else Examples(submitter, n - 1) + [Example(n, submitter, n)]
  }

  lemma {:induction false} ExamplesCount(submitter: string, n: nat, other: string)
    ensures SubmissionsBy(Examples(submitter, n), other) == if submitter == other then n else 0
  {
    if n > 0 {
      ExamplesCount(submitter, n - 1, other);
      CountAppend(Examples(submitter, n - 1), [Example(n, submitter, n)], other);
      CountOne(Example(n, submitter, n), other);
    }
  }

  lemma ExamplesApart(i: nat, a: string, issue: nat, b: string, run: nat)
    requires 0 < i < 100 && 0 < issue && run < 100 && i != issue && i != run
    ensures Submittable(Example(i, a, i)) && Submittable(Example(issue, b, run))
    ensures Apart(Example(i, a, i), Example(issue, b, run))
  {
    hide RunKeyOf, Link;
    ExampleKeys(i, run);
    ExampleKeys(run, i);
  }

  /** Twelve rows of one account and a thirteenth row of another's. */
  function FullAndOne(other: string): seq<Entry> {
    Examples("bob", 12) + [Example(13, other, 13)]
  }

  lemma FullAndOneStay(other: string)
    requires other != "bob"
    ensures Unique(FullAndOne(other)) && Wall(FullAndOne(other)) == FullAndOne(other)
    ensures SubmissionsBy(FullAndOne(other), "bob") == 12
  {
    hide RunKeyOf, Link, SubmissionsBy, Examples;
    var rows := FullAndOne(other);
    assert forall i :: 0 <= i < 13 ==> rows[i] == Example(i + 1, if i < 12 then "bob" else other, i + 1);
    forall i | 0 <= i < 13 ensures Submittable(rows[i]) {
      ExamplesApart(99, "", i + 1, rows[i].submitter, i + 1);
    }
    forall i, j | 0 <= i < j < 13 ensures Apart(rows[i], rows[j]) {
      ExamplesApart(i + 1, rows[i].submitter, j + 1, rows[j].submitter, j + 1);
    }
    forall submitter
      ensures SubmissionsBy(rows, submitter) == if submitter == "bob" then 12 else if submitter == other then 1 else 0
    {
      ExamplesCount("bob", 12, submitter);
      CountAppend(Examples("bob", 12), [Example(13, other, 13)], submitter);
      CountOne(Example(13, other, 13), submitter);
    }
    DistinctStay(rows);
  }

  /** A thirteenth row gets in by replacing a row that is the account's only by issue, or only up to spelling. */
  lemma Thirteenth(other: string, issue: nat, run: nat)
    requires other != "bob"
    requires (issue == 13 && run == 14) || (issue == 14 && run == 13 && Lower(other) == Lower("bob"))
    ensures var history := FullAndOne(other) + [Example(issue, "bob", run)];
            AllSubmittable(history) && SubmissionsBy(Wall(history), "bob") == 13
  {
    hide RunKeyOf, Link, SubmissionsBy, Examples, Lower;
    var rows, row := FullAndOne(other), Example(issue, "bob", run);
    FullAndOneStay(other);
    ExamplesApart(99, "", issue, "bob", run);
    assert forall i :: 0 <= i < 12 ==> rows[i] == Example(i + 1, "bob", i + 1);
    forall i | 0 <= i < 12 ensures !SameRow(rows[i], row) && !ClaimsRun(rows[i], row) {
      ExamplesApart(i + 1, "bob", issue, "bob", run);
      ApartIsNew(rows[i], row);
    }
    ExampleKeys(13, run);
    NoRunWithoutLink();
    assert SameRow(rows[12], row) && !ClaimsRun(rows[12], row);
    ReplacedIff(rows, row, "bob");
    CountAfter(rows, row, "bob");
    var history := rows + [row];
    assert history[..|history| - 1] == rows;
  }

  /** The cap fails when an issue passes to another submitter. */
  lemma IssuesMustFixSubmitters()
    ensures exists history :: AllSubmittable(history) && OneSpelling(history) && !WithinCap(Wall(history))
  {
    hide RunKeyOf, Link, SubmissionsBy, Examples, Wall;
    Thirteenth("eve", 13, 14);
    var history := FullAndOne("eve") + [Example(13, "bob", 14)];
    assert Lower("eve")[0] != Lower("bob")[0];
    assert forall x :: x in history ==> x.submitter == "eve" || x.submitter == "bob";
    assert OneSpelling(history);
  }

  /** And when one account's login is written in two ways. */
  lemma LoginsMustHaveOneSpelling()
    ensures exists history :: AllSubmittable(history) && IssuesFixSubmitters(history) && !WithinCap(Wall(history))
  {
    hide RunKeyOf, Link, SubmissionsBy, Examples, Wall;
    assert Lower("Bob") == Lower("bob");
    Thirteenth("Bob", 14, 13);
    var history := FullAndOne("Bob") + [Example(14, "bob", 13)];
    assert forall i :: 0 <= i < 14 ==> history[i].issue == i + 1;
    assert IssuesFixSubmitters(history);
  }
}
