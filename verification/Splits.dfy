/** Enumerating the ways to cut an input into non-empty parts. */
module Splits {
  import opened Text
  import opened Combinatorics

  // ----- choosing cut positions -----

  /** `cuts` is strictly increasing, within `start..count`. */
  predicate IsCuts(cuts: seq<int>, count: int, start: int) {
    cuts == [] || (start <= cuts[0] <= count && IsCuts(cuts[1..], count, cuts[0] + 1))
  }

  /** Every choice of `choose` positions from `start..count`, smallest first position first. */
  function Combinations(count: int, choose: nat, start: int): seq<seq<int>>
    decreases choose, if start > count then 0 else count - start + 1
  {
    if choose == 0 then [[]]
    else if start > count - choose + 1 then []
    else Prepend(start, Combinations(count, choose - 1, start + 1)) + Combinations(count, choose, start + 1)
  }

  /** The enumeration holds a list exactly when it is an increasing choice of that many positions. */
  lemma {:induction false} CombinationsMembers(count: int, choose: nat, start: int, c: seq<int>)
    ensures c in Combinations(count, choose, start) <==> |c| == choose && IsCuts(c, count, start)
    decreases choose, if start > count then 0 else count - start + 1
  {
    hide Prepend;
    if choose > 0 && start <= count - choose + 1 {
      var inner, later := Combinations(count, choose - 1, start + 1), Combinations(count, choose, start + 1);
      assert c in Prepend(start, inner) + later <==> c in Prepend(start, inner) || c in later;
      PrependMembers(start, inner, c);
      if c != [] {
        CombinationsMembers(count, choose - 1, start + 1, c[1..]);
      }
      CombinationsMembers(count, choose, start + 1, c);
    } else if choose > 0 && |c| == choose {
      if IsCuts(c, count, start) {
        TooManyCuts(c, count, start);
      }
    }
  }

  lemma {:induction false} TooManyCuts(c: seq<int>, count: int, start: int)
    requires IsCuts(c, count, start)
    ensures c == [] || |c| <= count - start + 1
  {
    if c != [] {
      TooManyCuts(c[1..], count, c[0] + 1);
    }
  }

  lemma {:induction false} CombinationsCount(count: int, choose: nat, start: int)
    requires count - start + 1 >= 0
    ensures |Combinations(count, choose, start)| == Binom(count - start + 1, choose)
    decreases choose, count - start + 1
  {
    if choose > 0 && start <= count - choose + 1 {
      CombinationsCount(count, choose - 1, start + 1);
      CombinationsCount(count, choose, start + 1);
    } else if choose > 0 {
      BinomAbove(count - start + 1, choose);
    }
  }

  predicate LexLess(a: seq<int>, b: seq<int>) {
    b != [] && (a == [] || a[0] < b[0] || (a[0] == b[0] && LexLess(a[1..], b[1..])))
  }

  /** The first place where two lists differ decides, and a shorter one comes before what extends it. */
  lemma {:induction false} LexLessIff(a: seq<int>, b: seq<int>)
    ensures LexLess(a, b) <==>
              exists n :: 0 <= n <= |a| && n < |b| && a[..n] == b[..n] && (n == |a| || a[n] < b[n])
  {
    if a != [] && b != [] && a[0] == b[0] {
      LexLessIff(a[1..], b[1..]);
      if n :| 0 <= n <= |a| && n < |b| && a[..n] == b[..n] && (n == |a| || a[n] < b[n]) {
        assert n > 0;
        assert a[1..][..n - 1] == a[..n][1..] == b[..n][1..] == b[1..][..n - 1];
        assert n < |a| ==> a[1..][n - 1] == a[n] && b[1..][n - 1] == b[n];
      }
      if n :| 0 <= n <= |a[1..]| && n < |b[1..]| && a[1..][..n] == b[1..][..n]
              && (n == |a[1..]| || a[1..][n] < b[1..][n]) {
        assert a[..n + 1] == [a[0]] + a[1..][..n] == [b[0]] + b[1..][..n] == b[..n + 1];
      }
    } else if LexLess(a, b) {
      assert a[..0] == b[..0];
    }
  }

  /** Fewer cuts first; among equally many, lexicographically smaller first. */
  predicate Before(a: seq<int>, b: seq<int>) {
    |a| < |b| || (|a| == |b| && LexLess(a, b))
  }

  lemma {:induction false} LexIrreflexive(a: seq<int>)
    ensures !LexLess(a, a)
  {
    if a != [] {
      LexIrreflexive(a[1..]);
    }
  }

  lemma {:induction false} CombinationsOrdered(count: int, choose: nat, start: int, i: nat, j: nat)
    requires i < j < |Combinations(count, choose, start)|
    ensures LexLess(Combinations(count, choose, start)[i], Combinations(count, choose, start)[j])
    decreases choose, if start > count then 0 else count - start + 1
  {
    hide Prepend;
    var inner := Combinations(count, choose - 1, start + 1);
    var later := Combinations(count, choose, start + 1);
    var all := Combinations(count, choose, start);
    var n := |inner|;
    if j < n {
      CombinationsOrdered(count, choose - 1, start + 1, i, j);
      PrependAt(start, inner, i);
      PrependAt(start, inner, j);
    } else {
      assert all[j] == later[j - n];
      if i >= n {
        CombinationsOrdered(count, choose, start + 1, i - n, j - n);
      } else {
        CombinationsMembers(count, choose, start + 1, later[j - n]);
        PrependAt(start, inner, i);
      }
    }
  }

  /** All choices of at most `most - 1` cuts of an `n`-character input, in the order tried. */
  function AllCuts(n: nat, most: nat): seq<seq<int>> {
    if most == 0 then [] else AllCuts(n, most - 1) + Combinations(n - 1, most - 1, 1)
  }

  lemma {:induction false} AllCutsMembers(n: nat, most: nat, c: seq<int>)
    ensures c in AllCuts(n, most) <==> |c| < most && IsCuts(c, n - 1, 1)
  {
    hide IsCuts, Combinations;
    if most > 0 {
      var few, last := AllCuts(n, most - 1), Combinations(n - 1, most - 1, 1);
      assert c in few + last <==> c in few || c in last;
      AllCutsMembers(n, most - 1, c);
      CombinationsMembers(n - 1, most - 1, 1, c);
    }
  }

  lemma {:induction false} AllCutsOrdered(n: nat, most: nat, i: nat, j: nat)
    requires i < j < |AllCuts(n, most)|
    ensures Before(AllCuts(n, most)[i], AllCuts(n, most)[j])
  {
    hide Combinations, IsCuts, LexLess;
    var few, last := AllCuts(n, most - 1), Combinations(n - 1, most - 1, 1);
    if j < |few| {
      AllCutsOrdered(n, most - 1, i, j);
    } else {
      CombinationsMembers(n - 1, most - 1, 1, last[j - |few|]);
      if i < |few| {
        AllCutsMembers(n, most - 1, few[i]);
      } else {
        CombinationsMembers(n - 1, most - 1, 1, last[i - |few|]);
        CombinationsOrdered(n - 1, most - 1, 1, i - |few|, j - |few|);
      }
    }
  }

  lemma {:induction false} AllCutsCount(n: nat, most: nat)
    requires n > 0
    ensures |AllCuts(n, most)| == BinomPrefix(n - 1, most)
  {
    if most > 0 {
      AllCutsCount(n, most - 1);
      CombinationsCount(n - 1, most - 1, 1);
    }
  }

  // ----- cutting the text, and reading the cuts back -----

  /** `text[from:]` cut at `cuts`. */
  function SplitFrom<T>(text: seq<T>, from: int, cuts: seq<int>): (parts: seq<seq<T>>)
    requires 0 <= from <= |text| && IsCuts(cuts, |text| - 1, from + 1)
    ensures |parts| == |cuts| + 1
    decreases cuts
  {
    if cuts == [] then [text[from..]]
    else [text[from..cuts[0]]] + SplitFrom(text, cuts[0], cuts[1..])
  }

  /** The offsets at which `parts` meet, the first part beginning at `from`. */
  function CutsOf<T>(from: int, parts: seq<seq<T>>): seq<int>
    decreases parts
  {
    if |parts| <= 1 then []
    else [from + |parts[0]|] + CutsOf(from + |parts[0]|, parts[1..])
  }

  ghost predicate AllNonEmpty<T>(parts: seq<seq<T>>) {
    forall i :: 0 <= i < |parts| ==> parts[i] != []
  }

  /** `parts` is a split of `text` into one or more non-empty parts. */
  ghost predicate IsSplit<T>(text: seq<T>, parts: seq<seq<T>>) {
    parts != [] && AllNonEmpty(parts) && Join(parts) == text
  }

  lemma {:induction false} CutThenRead<T>(text: seq<T>, from: int, cuts: seq<int>)
    requires 0 <= from < |text| && IsCuts(cuts, |text| - 1, from + 1)
    ensures var parts := SplitFrom(text, from, cuts);
            AllNonEmpty(parts) && Join(parts) == text[from..] && CutsOf(from, parts) == cuts
    decreases cuts
  {
    var parts := SplitFrom(text, from, cuts);
    if cuts == [] {
      assert Join(parts) == text[from..] + Join<T>([]);
    } else {
      CutThenRead(text, cuts[0], cuts[1..]);
      assert parts[1..] == SplitFrom(text, cuts[0], cuts[1..]);
      assert text[from..] == text[from..cuts[0]] + text[cuts[0]..];
      assert cuts == [cuts[0]] + cuts[1..];
    }
  }

  lemma {:induction false} ReadThenCut<T>(text: seq<T>, from: int, parts: seq<seq<T>>)
    requires 0 <= from <= |text| && IsSplit(text[from..], parts)
    ensures IsCuts(CutsOf(from, parts), |text| - 1, from + 1)
    ensures SplitFrom(text, from, CutsOf(from, parts)) == parts
    decreases parts
  {
    var rest := text[from..];
    if |parts| == 1 {
      assert Join(parts) == parts[0] + Join(parts[1..]) == parts[0];
    } else {
      var cut := from + |parts[0]|;
      var tail := Join(parts[1..]);
      assert rest == parts[0] + tail;
      assert parts[1] == parts[1..][0] && tail == parts[1] + Join(parts[1..][1..]);
      assert text[cut..] == rest[|parts[0]|..] == tail;
      assert text[from..cut] == rest[..|parts[0]|] == parts[0];
      forall i | 0 <= i < |parts[1..]| ensures parts[1..][i] != [] {
        assert parts[1..][i] == parts[i + 1];
      }
      ReadThenCut(text, cut, parts[1..]);
    }
  }

  /** `_cut_points`: the running offset after each chunk but the last. */
  method CutPoints<T>(chunks: seq<seq<T>>) returns (cuts: seq<int>)
    ensures cuts == CutsOf(0, chunks)
  {
    var offset: int := 0;
    cuts := [];
    var last := if chunks == [] then 0 else |chunks| - 1;
    for n := 0 to last
      invariant cuts + CutsOf(offset, chunks[n..]) == CutsOf(0, chunks)
    {
      assert chunks[n..][1..] == chunks[n + 1..];
      offset := offset + |chunks[n]|;
      Assoc(cuts, [offset], CutsOf(offset, chunks[n + 1..]));
      cuts := cuts + [offset];
    }
  }

  // ----- the enumeration -----

  datatype Splitting<T> = BadMaxParts | Splitting(splits: seq<seq<seq<T>>>)

  /** The most parts the Python form tries; `None` means no limit was asked for. */
  function MostParts(n: nat, maxParts: Option<int>): int {
    match maxParts
    case None => n
    case Some(m) => if m < (if n < 1 then 1 else n) then m else if n < 1 then 1 else n
  }

  /** The most parts the TypeScript form tries. */
  function MostPartsTs(n: nat, maxParts: Option<int>): int {
    var atLeastOne := if n < 1 then 1 else n;
    match maxParts
    case None => atLeastOne
    case Some(m) => if m < atLeastOne then m else atLeastOne
  }

  /** The two forms differ on exactly one kind of call: empty text and no limit. */
  lemma FormsDifferOnlyOnEmptyText(n: nat, maxParts: Option<int>)
    ensures MostParts(n, maxParts) != MostPartsTs(n, maxParts) <==> n == 0 && maxParts == None
  {
  }

  function CutAll<T>(text: seq<T>, cutLists: seq<seq<int>>): seq<seq<seq<T>>>
    requires forall i :: 0 <= i < |cutLists| ==> IsCuts(cutLists[i], |text| - 1, 1)
  {
    seq(|cutLists|, i requires 0 <= i < |cutLists| => SplitFrom(text, 0, cutLists[i]))
  }

  function Enumerated<T>(text: seq<T>, most: nat): seq<seq<seq<T>>> {
    AllCutsAreCuts(|text|, most);
    CutAll(text, AllCuts(|text|, most))
  }

  lemma AllCutsAreCuts(n: nat, most: nat)
    ensures forall i :: 0 <= i < |AllCuts(n, most)| ==>
              |AllCuts(n, most)[i]| < most && IsCuts(AllCuts(n, most)[i], n - 1, 1)
  {
    forall i | 0 <= i < |AllCuts(n, most)|
      ensures |AllCuts(n, most)[i]| < most && IsCuts(AllCuts(n, most)[i], n - 1, 1)
    {
      AllCutsMembers(n, most, AllCuts(n, most)[i]);
    }
  }

  /** Exactly the splits of the text into at most `most` non-empty parts are enumerated. */
  lemma EnumeratedMembers<T>(text: seq<T>, most: nat, parts: seq<seq<T>>)
    requires text != []
    ensures parts in Enumerated(text, most) <==> IsSplit(text, parts) && |parts| <= most
  {
    hide SplitFrom, CutsOf, AllCuts, IsCuts, Join;
    var cutLists, all := AllCuts(|text|, most), Enumerated(text, most);
    assert text[0..] == text;
    if parts in all {
      var i :| 0 <= i < |all| && all[i] == parts;
      AllCutsAreCuts(|text|, most);
      CutThenRead(text, 0, cutLists[i]);
    }
    if IsSplit(text, parts) && |parts| <= most {
      ReadThenCut(text, 0, parts);
      CutsLength(0, parts);
      AllCutsMembers(|text|, most, CutsOf(0, parts));
      var i :| 0 <= i < |cutLists| && cutLists[i] == CutsOf(0, parts);
      assert all[i] == parts;
    }
  }

  lemma {:induction false} CutsLength<T>(from: int, parts: seq<seq<T>>)
    ensures |CutsOf(from, parts)| == if parts == [] then 0 else |parts| - 1
    decreases parts
  {
    if |parts| > 1 {
      CutsLength(from + |parts[0]|, parts[1..]);
    }
  }

  /** No split comes twice; fewer parts come first, then smaller cut positions. */
  lemma EnumeratedOrdered<T>(text: seq<T>, most: nat, i: nat, j: nat)
    requires text != [] && i < j < |Enumerated(text, most)|
    ensures var a, b := Enumerated(text, most)[i], Enumerated(text, most)[j];
            a != b && |a| <= |b| && Before(CutsOf(0, a), CutsOf(0, b))
  {
    var cutLists := AllCuts(|text|, most);
    AllCutsAreCuts(|text|, most);
    AllCutsOrdered(|text|, most, i, j);
    CutThenRead(text, 0, cutLists[i]);
    CutThenRead(text, 0, cutLists[j]);
    LexIrreflexive(cutLists[i]);
  }

  /** The number of splits is a partial row sum, and `2^(n-1)` without a limit. */
  lemma EnumeratedCount<T>(text: seq<T>, most: nat)
    requires text != []
    ensures |Enumerated(text, most)| == BinomPrefix(|text| - 1, most)
    ensures most >= |text| ==> |Enumerated(text, most)| == Pow2(|text| - 1)
  {
    AllCutsCount(|text|, most);
    if most >= |text| {
      PrefixAll(|text| - 1, most);
    }
  }

  /** `all_splits`: for each number of parts, every choice of cuts. */
  method AllSplits<T>(text: seq<T>, maxParts: Option<int>) returns (r: Splitting<T>)
    ensures r.BadMaxParts? <==> maxParts.Some? && maxParts.value < 1
    ensures r.Splitting? ==> MostParts(|text|, maxParts) >= 0
                             && r.splits == Enumerated(text, MostParts(|text|, maxParts))
    ensures r.Splitting? && text != [] ==>
              forall parts :: parts in r.splits <==>
                IsSplit(text, parts) && (maxParts.Some? ==> |parts| <= maxParts.value)
  {
    if maxParts.Some? && maxParts.value < 1 {
      return BadMaxParts;
    }
    var most := MostParts(|text|, maxParts);
    var splits: seq<seq<seq<T>>> := [];
    for parts := 1 to most + 1
      invariant splits == Enumerated(text, parts - 1)
    {
      EnumeratedExtends(text, parts);
      splits := SplitsInto(text, Combinations(|text| - 1, parts - 1, 1), splits);
    }
    r := Splitting(splits);
    if text != [] {
      EnumeratedIsEverySplit(text, maxParts);
    }
  }

  /** The inner loop: one split for every choice of cuts. */
  method SplitsInto<T>(text: seq<T>, choices: seq<seq<int>>, before: seq<seq<seq<T>>>)
    returns (splits: seq<seq<seq<T>>>)
    requires forall i :: 0 <= i < |choices| ==> IsCuts(choices[i], |text| - 1, 1)
    ensures splits == before + CutAll(text, choices)
  {
    hide SplitFrom, IsCuts;
    splits := before;
    for n := 0 to |choices|
      invariant splits == before + CutAll(text, choices[..n])
    {
      assert CutAll(text, choices[..n + 1]) == CutAll(text, choices[..n]) + [SplitFrom(text, 0, choices[n])];
      splits := splits + [SplitFrom(text, 0, choices[n])];
    }
    assert choices[..|choices|] == choices;
  }

  lemma EnumeratedExtends<T>(text: seq<T>, parts: nat)
    requires parts > 0
    ensures var choices := Combinations(|text| - 1, parts - 1, 1);
            && (forall i :: 0 <= i < |choices| ==> IsCuts(choices[i], |text| - 1, 1))
            && Enumerated(text, parts) == Enumerated(text, parts - 1) + CutAll(text, choices)
  {
    hide Combinations, SplitFrom, IsCuts;
    var choices := Combinations(|text| - 1, parts - 1, 1);
    forall i | 0 <= i < |choices| ensures IsCuts(choices[i], |text| - 1, 1) {
      CombinationsMembers(|text| - 1, parts - 1, 1, choices[i]);
    }
    AllCutsAreCuts(|text|, parts - 1);
  }

  lemma EnumeratedIsEverySplit<T>(text: seq<T>, maxParts: Option<int>)
    requires text != [] && (maxParts.Some? ==> maxParts.value >= 1)
    ensures forall parts ::
              parts in Enumerated(text, MostParts(|text|, maxParts))
              <==> IsSplit(text, parts) && (maxParts.Some? ==> |parts| <= maxParts.value)
  {
    forall parts
      ensures parts in Enumerated(text, MostParts(|text|, maxParts))
              <==> IsSplit(text, parts) && (maxParts.Some? ==> |parts| <= maxParts.value)
    {
      EnumeratedMembers(text, MostParts(|text|, maxParts), parts);
      PartsBounded(parts);
    }
  }

  lemma {:induction false} PartsBounded<T>(parts: seq<seq<T>>)
    ensures AllNonEmpty(parts) ==> |parts| <= |Join(parts)|
  {
    if parts != [] && AllNonEmpty(parts) {
      assert forall i :: 0 <= i < |parts[1..]| ==> parts[1..][i] == parts[i + 1];
      PartsBounded(parts[1..]);
    }
  }
}
