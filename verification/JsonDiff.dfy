/** The leaf-by-leaf comparison of a published report with a reproduced one. */
module JsonDiff {
  import opened Text
  import opened Json
  import opened KeyOrder

  datatype Report = Report(path: string, published: Json, produced: Json)

  /** One step from a value to a value inside it. */
  datatype Step = Field(key: string) | Item(index: nat)

  function Render(path: string, step: Step): string {
    match step
    case Field(key) => path + "." + key
    case Item(index) => path + "[" + Decimal(index) + "]"
  }

  /** `type(a) is type(b)`. */
  predicate SameType(a: Json, b: Json) {
    match a
    case Null => b.Null?
    case Bool(_) => b.Bool?
    case Int(_) => b.Int?
    case Float(_) => b.Float?
    case Str(_) => b.Str?
    case Arr(_) => b.Arr?
    case Obj(_, _) => b.Obj?
  }

  function FieldOrMissing(j: Json, key: string): Json {
    if j.Obj? && key in j.fields then j.fields[key] else Str("<missing>")
  }

  function ItemCount(n: nat): Json {
    Str(Decimal(n) + " items")
  }

  // ----- the comparison -----

  function Diff(ignored: set<string>, a: Json, b: Json, path: string): seq<Report>
    decreases a, 1, 0
  {
    if path in ignored then []
    else if !SameType(a, b) then [Report(path, a, b)]
    else match a
      case Obj(_, fields) => DiffFields(ignored, a, b, path, SortedKeys(fields.Keys + b.fields.Keys))
      case Arr(items) =>
        if |items| != |b.items| then [Report(path + "[]", ItemCount(|items|), ItemCount(|b.items|))]
        else DiffItems(ignored, a, b, path, 0)
      case _ => if a != b then [Report(path, a, b)] else []
  }

  function DiffFields(ignored: set<string>, a: Json, b: Json, path: string, keys: seq<string>): seq<Report>
    requires a.Obj? && b.Obj?
    decreases a, 0, |keys|
  {
    if keys == [] then []
    else
      var key, child := keys[0], Render(path, Field(keys[0]));
      (if key in a.fields && key in b.fields then Diff(ignored, a.fields[key], b.fields[key], child)
       else [Report(child, FieldOrMissing(a, key), FieldOrMissing(b, key))])
      + DiffFields(ignored, a, b, path, keys[1..])
  }

  function DiffItems(ignored: set<string>, a: Json, b: Json, path: string, from: nat): seq<Report>
    requires a.Arr? && b.Arr? && |a.items| == |b.items| && from <= |a.items|
    decreases a, 0, |a.items| - from
  {
    if from == |a.items| then []
    else Diff(ignored, a.items[from], b.items[from], Render(path, Item(from)))
         + DiffItems(ignored, a, b, path, from + 1)
  }

  // ----- the children of a pair of values, one at a time -----

  lemma {:induction false} FieldsReport(ignored: set<string>, a: Json, b: Json, path: string,
                                        keys: seq<string>, r: Report)
    requires a.Obj? && b.Obj?
    ensures r in DiffFields(ignored, a, b, path, keys)
            <==> exists key :: key in keys && FieldReports(ignored, a, b, path, key, r)
    decreases |keys|
  {
    if keys != [] {
      var first, rest := keys[0], keys[1..];
      FieldsReport(ignored, a, b, path, rest, r);
      assert forall key :: key in keys <==> key == first || key in rest;
      assert r in DiffFields(ignored, a, b, path, keys)
        <==> FieldReports(ignored, a, b, path, first, r) || r in DiffFields(ignored, a, b, path, rest);
      if FieldReports(ignored, a, b, path, first, r) {
        assert first in keys;
      }
    }
  }

  ghost predicate FieldReports(ignored: set<string>, a: Json, b: Json, path: string, key: string, r: Report)
    requires a.Obj? && b.Obj?
  {
    if key in a.fields && key in b.fields then
      r in Diff(ignored, a.fields[key], b.fields[key], Render(path, Field(key)))
    else
      r == Report(Render(path, Field(key)), FieldOrMissing(a, key), FieldOrMissing(b, key))
  }

  lemma {:induction false} ItemsReport(ignored: set<string>, a: Json, b: Json, path: string, from: nat, r: Report)
    requires a.Arr? && b.Arr? && |a.items| == |b.items| && from <= |a.items|
    ensures r in DiffItems(ignored, a, b, path, from) <==>
              exists i :: from <= i < |a.items| && ItemReports(ignored, a, b, path, i, r)
    decreases |a.items| - from
  {
    hide Render, Diff;
    if from < |a.items| {
      ItemsReport(ignored, a, b, path, from + 1, r);
      assert r in DiffItems(ignored, a, b, path, from)
        <==> ItemReports(ignored, a, b, path, from, r) || r in DiffItems(ignored, a, b, path, from + 1);
    }
  }

  ghost predicate ItemReports(ignored: set<string>, a: Json, b: Json, path: string, i: nat, r: Report)
    requires a.Arr? && b.Arr? && |a.items| == |b.items| && i < |a.items|
  {
    r in Diff(ignored, a.items[i], b.items[i], Render(path, Item(i)))
  }

  // ----- exactly what is reported -----

  /** The two values met at an address, as long as the comparison walks down to it. */
  function Meet(a: Json, b: Json, addr: seq<Step>): Option<(Json, Json)>
    decreases addr
  {
    if addr == [] then Some((a, b))
    else match addr[0]
      case Field(key) =>
        if a.Obj? && b.Obj? && key in a.fields && key in b.fields
        then Meet(a.fields[key], b.fields[key], addr[1..]) else None
      case Item(i) =>
        if a.Arr? && b.Arr? && |a.items| == |b.items| && i < |a.items|
        then Meet(a.items[i], b.items[i], addr[1..]) else None
  }

  function RenderAll(path: string, addr: seq<Step>): string
    decreases addr
  {
    if addr == [] then path else RenderAll(Render(path, addr[0]), addr[1..])
  }

  /** No value on the way to the address, itself included, has an ignored path. */
  predicate Visible(ignored: set<string>, path: string, addr: seq<Step>)
    decreases addr
  {
    path !in ignored && (addr == [] || Visible(ignored, Render(path, addr[0]), addr[1..]))
  }

  /** The report on a key that one side lacks. */
  ghost function Lacking(a: Json, b: Json, path: string, key: string): Report
    requires a.Obj? && b.Obj?
  {
    Report(path + "." + key,
           if key in a.fields then a.fields[key] else Str("<missing>"),
           if key in b.fields then b.fields[key] else Str("<missing>"))
  }

  /** The path of an address names its steps one after the other. */
  lemma {:induction false} PathOfAddress(path: string, addr: seq<Step>, key: string, index: nat)
    ensures RenderAll(path, []) == path
    ensures RenderAll(path, addr + [Field(key)]) == RenderAll(path, addr) + "." + key
    ensures RenderAll(path, addr + [Item(index)]) == RenderAll(path, addr) + "[" + Decimal(index) + "]"
    decreases addr
  {
    if addr != [] {
      assert (addr + [Field(key)])[1..] == addr[1..] + [Field(key)];
      assert (addr + [Item(index)])[1..] == addr[1..] + [Item(index)];
      PathOfAddress(Render(path, addr[0]), addr[1..], key, index);
    }
  }

  /** An address is visible exactly when no path on the way to it is ignored. */
  lemma {:induction false} VisibleIff(ignored: set<string>, path: string, addr: seq<Step>)
    ensures Visible(ignored, path, addr) <==> forall n :: 0 <= n <= |addr| ==> RenderAll(path, addr[..n]) !in ignored
    decreases addr
  {
    hide Render;
    assert addr[..0] == [] && RenderAll(path, addr[..0]) == path;
    if addr != [] {
      var below := Render(path, addr[0]);
      VisibleIff(ignored, below, addr[1..]);
      forall n | 0 < n <= |addr| ensures RenderAll(path, addr[..n]) == RenderAll(below, addr[1..][..n - 1]) {
        assert addr[..n][0] == addr[0] && addr[..n][1..] == addr[1..][..n - 1];
      }
      if forall n :: 0 <= n <= |addr| ==> RenderAll(path, addr[..n]) !in ignored {
        forall n | 0 <= n <= |addr[1..]| ensures RenderAll(below, addr[1..][..n]) !in ignored {
          assert RenderAll(path, addr[..n + 1]) == RenderAll(below, addr[1..][..n]);
        }
      }
    }
  }

  /** What a disagreement between two values is reported as, not looking inside their children. */
  ghost predicate Local(a: Json, b: Json, path: string, r: Report) {
    if !SameType(a, b) then r == Report(path, a, b)
    else match a
      case Obj(_, fields) =>
        exists key :: (key in fields) != (key in b.fields) && r == Lacking(a, b, path, key)
      case Arr(items) =>
        |items| != |b.items|
        && r == Report(path + "[]", Str(Decimal(|items|) + " items"), Str(Decimal(|b.items|) + " items"))
      case _ => a != b && r == Report(path, a, b)
  }

  ghost predicate ReportedAt(ignored: set<string>, a: Json, b: Json, path: string, addr: seq<Step>, r: Report) {
    && Visible(ignored, path, addr)
    && Meet(a, b, addr).Some?
    && Local(Meet(a, b, addr).value.0, Meet(a, b, addr).value.1, RenderAll(path, addr), r)
  }

  /** The comparison goes on inside the two values. */
  predicate Descends(a: Json, b: Json) {
    SameType(a, b) && (a.Obj? || (a.Arr? && |a.items| == |b.items|))
  }

  lemma NoDescent(ignored: set<string>, a: Json, b: Json, path: string, r: Report)
    requires path !in ignored && !Descends(a, b)
    ensures r in Diff(ignored, a, b, path) <==> Local(a, b, path, r)
    ensures forall addr :: addr != [] ==> Meet(a, b, addr) == None
  {
  }

  lemma NothingUnderIgnored(ignored: set<string>, a: Json, b: Json, path: string, r: Report)
    requires path in ignored
    ensures r !in Diff(ignored, a, b, path) && forall addr :: !ReportedAt(ignored, a, b, path, addr, r)
  {
  }

  /** A report is made exactly for each local disagreement at an address that is visible. */
  lemma {:induction false} ReportsAreLocalDisagreements(ignored: set<string>, a: Json, b: Json, path: string, r: Report)
    ensures r in Diff(ignored, a, b, path) <==> exists addr :: ReportedAt(ignored, a, b, path, addr, r)
    decreases a, 1
  {
    hide Diff, Meet, Local, ReportedAt;
    if path in ignored {
      NothingUnderIgnored(ignored, a, b, path, r);
    } else if !Descends(a, b) {
      NoDescent(ignored, a, b, path, r);
      OnlyHere(ignored, a, b, path, r);
    } else if a.Obj? {
      FieldsAreLocalDisagreements(ignored, a, b, path, r);
    } else {
      ItemsAreLocalDisagreements(ignored, a, b, path, r);
    }
  }

  lemma {:induction false} FieldsAreLocalDisagreements(ignored: set<string>, a: Json, b: Json, path: string, r: Report)
    requires path !in ignored && a.Obj? && b.Obj?
    ensures r in Diff(ignored, a, b, path) <==> exists addr :: ReportedAt(ignored, a, b, path, addr, r)
    decreases a, 0
  {
    hide Meet, Local, ReportedAt, FieldReports, Render, DiffFields, SortedKeys;
    var keys := SortedKeys(a.fields.Keys + b.fields.Keys);
    FieldsReport(ignored, a, b, path, keys, r);
    forall key ensures key in keys <==> key in a.fields.Keys + b.fields.Keys {
      SortedKeysMembers(a.fields.Keys + b.fields.Keys, key);
    }
    forall key | key in a.fields && key in b.fields
      ensures FieldReports(ignored, a, b, path, key, r)
              <==> exists addr :: ReportedAt(ignored, a, b, path, [Field(key)] + addr, r)
    {
      ReportsAreLocalDisagreements(ignored, a.fields[key], b.fields[key], Render(path, Field(key)), r);
      BelowField(ignored, a, b, path, key, r);
    }
    FieldsDisagree(ignored, a, b, path, r);
  }

  lemma {:induction false} ItemsAreLocalDisagreements(ignored: set<string>, a: Json, b: Json, path: string, r: Report)
    requires path !in ignored && a.Arr? && b.Arr? && |a.items| == |b.items|
    ensures r in Diff(ignored, a, b, path) <==> exists addr :: ReportedAt(ignored, a, b, path, addr, r)
    decreases a, 0
  {
    hide Meet, Local, ReportedAt, ItemReports, Render, DiffItems;
    ItemsReport(ignored, a, b, path, 0, r);
    forall i | 0 <= i < |a.items|
      ensures ItemReports(ignored, a, b, path, i, r)
              <==> exists addr :: ReportedAt(ignored, a, b, path, [Item(i)] + addr, r)
    {
      ReportsAreLocalDisagreements(ignored, a.items[i], b.items[i], Render(path, Item(i)), r);
      BelowItem(ignored, a, b, path, i, r);
    }
    ItemsDisagree(ignored, a, b, path, r);
  }

  lemma OnlyHere(ignored: set<string>, a: Json, b: Json, path: string, r: Report)
    requires path !in ignored
    requires forall addr :: addr != [] ==> Meet(a, b, addr) == None
    ensures (exists addr :: ReportedAt(ignored, a, b, path, addr, r)) <==> Local(a, b, path, r)
  {
    if Local(a, b, path, r) {
      assert ReportedAt(ignored, a, b, path, [], r);
    }
  }

  lemma BelowField(ignored: set<string>, a: Json, b: Json, path: string, key: string, r: Report)
    requires path !in ignored && a.Obj? && b.Obj? && key in a.fields && key in b.fields
    ensures forall addr :: ReportedAt(ignored, a.fields[key], b.fields[key], Render(path, Field(key)), addr, r)
              <==> ReportedAt(ignored, a, b, path, [Field(key)] + addr, r)
    ensures FieldReports(ignored, a, b, path, key, r)
            <==> r in Diff(ignored, a.fields[key], b.fields[key], Render(path, Field(key)))
  {
    assert forall addr: seq<Step> :: ([Field(key)] + addr)[1..] == addr;
  }

  lemma BelowItem(ignored: set<string>, a: Json, b: Json, path: string, i: nat, r: Report)
    requires path !in ignored && a.Arr? && b.Arr? && |a.items| == |b.items| && i < |a.items|
    ensures forall addr :: ReportedAt(ignored, a.items[i], b.items[i], Render(path, Item(i)), addr, r)
              <==> ReportedAt(ignored, a, b, path, [Item(i)] + addr, r)
    ensures ItemReports(ignored, a, b, path, i, r)
            <==> r in Diff(ignored, a.items[i], b.items[i], Render(path, Item(i)))
  {
    assert forall addr: seq<Step> :: ([Item(i)] + addr)[1..] == addr;
  }

  lemma FieldsDisagree(ignored: set<string>, a: Json, b: Json, path: string, r: Report)
    requires path !in ignored && a.Obj? && b.Obj?
    requires forall key :: key in a.fields && key in b.fields ==>
               (FieldReports(ignored, a, b, path, key, r)
                <==> exists addr :: ReportedAt(ignored, a, b, path, [Field(key)] + addr, r))
    ensures (exists addr :: ReportedAt(ignored, a, b, path, addr, r)) <==>
              exists key :: key in a.fields.Keys + b.fields.Keys && FieldReports(ignored, a, b, path, key, r)
  {
    hide Diff;
    if addr: seq<Step> :| ReportedAt(ignored, a, b, path, addr, r) {
      if addr == [] {
        var key :| (key in a.fields) != (key in b.fields)
                   && r == Lacking(a, b, path, key);
        assert FieldReports(ignored, a, b, path, key, r);
      } else {
        assert addr == [Field(addr[0].key)] + addr[1..];
        assert FieldReports(ignored, a, b, path, addr[0].key, r);
      }
    }
    if key :| key in a.fields.Keys + b.fields.Keys && FieldReports(ignored, a, b, path, key, r) {
      if !(key in a.fields && key in b.fields) {
        assert Local(a, b, path, r);
        assert ReportedAt(ignored, a, b, path, [], r);
      }
    }
  }

  lemma ItemsDisagree(ignored: set<string>, a: Json, b: Json, path: string, r: Report)
    requires path !in ignored && a.Arr? && b.Arr? && |a.items| == |b.items|
    requires forall i :: 0 <= i < |a.items| ==>
               (ItemReports(ignored, a, b, path, i, r)
                <==> exists addr :: ReportedAt(ignored, a, b, path, [Item(i)] + addr, r))
    ensures (exists addr :: ReportedAt(ignored, a, b, path, addr, r)) <==>
              exists i :: 0 <= i < |a.items| && ItemReports(ignored, a, b, path, i, r)
  {
    if addr: seq<Step> :| ReportedAt(ignored, a, b, path, addr, r) {
      assert addr != [];
      assert addr == [Item(addr[0].index)] + addr[1..];
      assert ItemReports(ignored, a, b, path, addr[0].index, r);
    }
  }

  // ----- no report means agreement outside the ignored paths -----

  /** What a value shows at one place: its keys, its length, or itself. */
  datatype View = KeysView(keys: set<string>) | LengthView(length: nat) | LeafView(leaf: Json)

  function ViewOf(j: Json): View {
    match j
    case Obj(_, fields) => KeysView(fields.Keys)
    case Arr(items) => LengthView(|items|)
    case _ => LeafView(j)
  }

  function ViewAt(j: Json, addr: seq<Step>): Option<View>
    decreases addr
  {
    if addr == [] then Some(ViewOf(j))
    else match addr[0]
      case Field(key) => if j.Obj? && key in j.fields then ViewAt(j.fields[key], addr[1..]) else None
      case Item(i) => if j.Arr? && i < |j.items| then ViewAt(j.items[i], addr[1..]) else None
  }

  /** The two values show the same at every address that is not under an ignored path. */
  ghost predicate AgreeOutside(ignored: set<string>, a: Json, b: Json, path: string) {
    forall addr :: Visible(ignored, path, addr) ==> ViewAt(a, addr) == ViewAt(b, addr)
  }

  lemma LocalIffViewsDiffer(a: Json, b: Json, path: string)
    ensures (exists r :: Local(a, b, path, r)) <==> ViewOf(a) != ViewOf(b)
  {
    if !SameType(a, b) {
      assert Local(a, b, path, Report(path, a, b));
    } else if a.Obj? {
      if a.fields.Keys != b.fields.Keys {
        var key :| (key in a.fields) != (key in b.fields);
        assert Local(a, b, path, Lacking(a, b, path, key));
      }
    } else if a.Arr? {
      if |a.items| != |b.items| {
        assert Local(a, b, path,
                     Report(path + "[]", Str(Decimal(|a.items|) + " items"), Str(Decimal(|b.items|) + " items")));
      }
    } else if a != b {
      assert Local(a, b, path, Report(path, a, b));
    }
  }

  lemma {:induction false} MeetShowsBoth(a: Json, b: Json, addr: seq<Step>)
    ensures Meet(a, b, addr).Some? ==>
              && ViewAt(a, addr) == Some(ViewOf(Meet(a, b, addr).value.0))
              && ViewAt(b, addr) == Some(ViewOf(Meet(a, b, addr).value.1))
    decreases addr
  {
    if addr != [] && Meet(a, b, addr).Some? {
      match addr[0]
      case Field(key) => MeetShowsBoth(a.fields[key], b.fields[key], addr[1..]);
      case Item(i) => MeetShowsBoth(a.items[i], b.items[i], addr[1..]);
    }
  }

  /** Where the views part, the comparison meets a first difference on the way. */
  lemma {:induction false} FirstDifference(ignored: set<string>, a: Json, b: Json, path: string, addr: seq<Step>)
    returns (first: seq<Step>)
    requires Visible(ignored, path, addr) && ViewAt(a, addr) != ViewAt(b, addr)
    ensures Visible(ignored, path, first) && Meet(a, b, first).Some?
    ensures ViewOf(Meet(a, b, first).value.0) != ViewOf(Meet(a, b, first).value.1)
    decreases addr
  {
    if ViewOf(a) != ViewOf(b) {
      return [];
    }
    var rest: seq<Step>;
    match addr[0] {
      case Field(key) =>
        assert key in a.fields.Keys <==> key in b.fields.Keys;
        rest := FirstDifference(ignored, a.fields[key], b.fields[key], Render(path, addr[0]), addr[1..]);
      case Item(i) =>
        rest := FirstDifference(ignored, a.items[i], b.items[i], Render(path, addr[0]), addr[1..]);
    }
    first := [addr[0]] + rest;
    assert first[1..] == rest;
  }

  /**
    Nothing is reported exactly when the two values have the same types, keys, lengths
    and leaves everywhere outside the ignored paths.
   */
  lemma EmptyIffAgree(ignored: set<string>, a: Json, b: Json, path: string)
    ensures Diff(ignored, a, b, path) == [] <==> AgreeOutside(ignored, a, b, path)
  {
    hide Diff, Local, Meet, ViewAt, ViewOf, RenderAll, Visible;
    var reports := Diff(ignored, a, b, path);
    if reports != [] {
      var r := reports[0];
      ReportsAreLocalDisagreements(ignored, a, b, path, r);
      var addr :| ReportedAt(ignored, a, b, path, addr, r);
      MeetShowsBoth(a, b, addr);
      LocalIffViewsDiffer(Meet(a, b, addr).value.0, Meet(a, b, addr).value.1, RenderAll(path, addr));
      assert ViewAt(a, addr) != ViewAt(b, addr);
    }
    if !AgreeOutside(ignored, a, b, path) {
      var addr :| Visible(ignored, path, addr) && ViewAt(a, addr) != ViewAt(b, addr);
      var first := FirstDifference(ignored, a, b, path, addr);
      LocalIffViewsDiffer(Meet(a, b, first).value.0, Meet(a, b, first).value.1, RenderAll(path, first));
      var r :| Local(Meet(a, b, first).value.0, Meet(a, b, first).value.1, RenderAll(path, first), r);
      assert ReportedAt(ignored, a, b, path, first, r);
      ReportsAreLocalDisagreements(ignored, a, b, path, r);
    }
  }

  /** A key on one side only is reported even when its own path is on the ignore list. */
  lemma MissingKeyAlwaysReported(ignored: set<string>, a: Json, b: Json, path: string, key: string)
    requires path !in ignored && a.Obj? && b.Obj? && (key in a.fields) != (key in b.fields)
    ensures (if key in a.fields then Report(path + "." + key, a.fields[key], Str("<missing>"))
             else Report(path + "." + key, Str("<missing>"), b.fields[key])) in Diff(ignored, a, b, path)
  {
    var r := Lacking(a, b, path, key);
    assert Local(a, b, path, r);
    assert ReportedAt(ignored, a, b, path, [], r);
    ReportsAreLocalDisagreements(ignored, a, b, path, r);
  }

  // ----- swapping the arguments -----

  function Mirrored(reports: seq<Report>): seq<Report> {
    seq(|reports|, i requires 0 <= i < |reports| => Report(reports[i].path, reports[i].produced, reports[i].published))
  }

  /** Swapping the arguments reports the same paths, in the same order, with the sides exchanged. */
  lemma {:induction false} SwapMirrors(ignored: set<string>, a: Json, b: Json, path: string)
    ensures Diff(ignored, b, a, path) == Mirrored(Diff(ignored, a, b, path))
    decreases a, 1, 0
  {
    if path !in ignored && SameType(a, b) {
      if a.Obj? {
        assert a.fields.Keys + b.fields.Keys == b.fields.Keys + a.fields.Keys;
        SwapFields(ignored, a, b, path, SortedKeys(a.fields.Keys + b.fields.Keys));
      } else if a.Arr? && |a.items| == |b.items| {
        SwapItems(ignored, a, b, path, 0);
      }
    }
  }

  lemma {:induction false} SwapFields(ignored: set<string>, a: Json, b: Json, path: string, keys: seq<string>)
    requires a.Obj? && b.Obj?
    ensures DiffFields(ignored, b, a, path, keys) == Mirrored(DiffFields(ignored, a, b, path, keys))
    decreases a, 0, |keys|
  {
    if keys != [] {
      if keys[0] in a.fields && keys[0] in b.fields {
        SwapMirrors(ignored, a.fields[keys[0]], b.fields[keys[0]], Render(path, Field(keys[0])));
      }
      SwapFields(ignored, a, b, path, keys[1..]);
    }
  }

  lemma {:induction false} SwapItems(ignored: set<string>, a: Json, b: Json, path: string, from: nat)
    requires a.Arr? && b.Arr? && |a.items| == |b.items| && from <= |a.items|
    ensures DiffItems(ignored, b, a, path, from) == Mirrored(DiffItems(ignored, a, b, path, from))
    decreases a, 0, |a.items| - from
  {
    hide Render, Diff;
    if from < |a.items| {
      SwapMirrors(ignored, a.items[from], b.items[from], Render(path, Item(from)));
      SwapItems(ignored, a, b, path, from + 1);
    }
  }
}
