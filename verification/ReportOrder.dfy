/** The report diff as a list: every disagreement once, in the order of the places where it stands. */
module ReportOrder {
  import opened Text
  import opened Json
  import opened KeyOrder
  import opened JsonDiff

  /** `r` reports a disagreement at `place`: of values met there, or of a key one side lacks. */
  ghost predicate Placed(ignored: set<string>, a: Json, b: Json, path: string, place: seq<Step>, r: Report)
    decreases place
  {
    && path !in ignored
    && if place == [] then !(a.Obj? && b.Obj?) && Local(a, b, path, r)
       else match place[0]
         case Field(key) =>
           && a.Obj? && b.Obj? && (key in a.fields || key in b.fields)
           && (if key in a.fields && key in b.fields then
                 Placed(ignored, a.fields[key], b.fields[key], path + "." + key, place[1..], r)
               else place[1..] == [] && r == Lacking(a, b, path, key))
         case Item(i) =>
           && a.Arr? && b.Arr? && i < |a.items| == |b.items|
           && Placed(ignored, a.items[i], b.items[i], path + "[" + Decimal(i) + "]", place[1..], r)
  }

  ghost predicate StepLess(x: Step, y: Step) {
    match x
    case Field(key) => y.Field? && key != y.key && StringLe(key, y.key)
    case Item(i) => y.Item? && i < y.index
  }

  /** The first step in which two places differ decides. */
  ghost predicate PlaceLess(x: seq<Step>, y: seq<Step>)
    decreases x
  {
    x != [] && y != [] && (StepLess(x[0], y[0]) || (x[0] == y[0] && PlaceLess(x[1..], y[1..])))
  }

  ghost predicate Ascend(places: seq<seq<Step>>) {
    forall i, j :: 0 <= i < j < |places| ==> PlaceLess(places[i], places[j])
  }

  ghost predicate Occurs(places: seq<seq<Step>>, reports: seq<Report>, place: seq<Step>, r: Report)
    requires |places| == |reports|
  {
    exists i :: 0 <= i < |places| && places[i] == place && reports[i] == r
  }

  /** The reports are exactly the disagreements, each at its place, and the places ascend. */
  ghost predicate Lists(ignored: set<string>, a: Json, b: Json, path: string,
                        places: seq<seq<Step>>, reports: seq<Report>)
  {
    && |places| == |reports| && Ascend(places)
    && forall place, r :: Occurs(places, reports, place, r) <==> Placed(ignored, a, b, path, place, r)
  }

  /** Likewise for the places that begin with one of `steps`. */
  ghost predicate ListsUnder(ignored: set<string>, a: Json, b: Json, path: string, steps: set<Step>,
                             places: seq<seq<Step>>, reports: seq<Report>)
  {
    && |places| == |reports| && Ascend(places)
    && forall place, r :: Occurs(places, reports, place, r) <==>
         place != [] && place[0] in steps && Placed(ignored, a, b, path, place, r)
  }

  lemma PrependAscends(step: Step, places: seq<seq<Step>>)
    requires Ascend(places)
    ensures Ascend(Prepend(step, places))
  {
    forall i, j | 0 <= i < j < |places| ensures PlaceLess(Prepend(step, places)[i], Prepend(step, places)[j]) {
      PrependAt(step, places, i);
      PrependAt(step, places, j);
    }
  }

  lemma PrependOccurs(step: Step, places: seq<seq<Step>>, reports: seq<Report>, place: seq<Step>, r: Report)
    requires |places| == |reports|
    ensures Occurs(Prepend(step, places), reports, place, r)
            <==> place != [] && place[0] == step && Occurs(places, reports, place[1..], r)
  {
    if Occurs(Prepend(step, places), reports, place, r) {
      var i :| 0 <= i < |places| && Prepend(step, places)[i] == place && reports[i] == r;
      PrependAt(step, places, i);
    }
    if place != [] && place[0] == step && Occurs(places, reports, place[1..], r) {
      var i :| 0 <= i < |places| && places[i] == place[1..] && reports[i] == r;
      PrependAt(step, places, i);
      assert Prepend(step, places)[i] == place;
    }
  }

  lemma OccursJoin(p: seq<seq<Step>>, x: seq<Report>, q: seq<seq<Step>>, y: seq<Report>, place: seq<Step>, r: Report)
    requires |p| == |x| && |q| == |y|
    ensures Occurs(p + q, x + y, place, r) <==> Occurs(p, x, place, r) || Occurs(q, y, place, r)
  {
    if Occurs(p, x, place, r) {
      var i :| 0 <= i < |p| && p[i] == place && x[i] == r;
      assert (p + q)[i] == place && (x + y)[i] == r;
    }
    if Occurs(q, y, place, r) {
      var i :| 0 <= i < |q| && q[i] == place && y[i] == r;
      assert (p + q)[|p| + i] == place && (x + y)[|p| + i] == r;
    }
  }

  lemma ListsJoin(ignored: set<string>, a: Json, b: Json, path: string, first: Step, later: set<Step>,
                  p: seq<seq<Step>>, x: seq<Report>, q: seq<seq<Step>>, y: seq<Report>)
    requires ListsUnder(ignored, a, b, path, {first}, p, x) && ListsUnder(ignored, a, b, path, later, q, y)
    requires forall step :: step in later ==> StepLess(first, step)
    ensures ListsUnder(ignored, a, b, path, {first} + later, p + q, x + y)
  {
    hide Placed, StepLess, Occurs, PlaceLess;
    forall place, r
      ensures Occurs(p + q, x + y, place, r) <==>
                place != [] && place[0] in {first} + later && Placed(ignored, a, b, path, place, r)
    {
      OccursJoin(p, x, q, y, place, r);
    }
    forall i, j | 0 <= i < j < |p + q| ensures PlaceLess((p + q)[i], (p + q)[j]) {
      if i < |p| <= j {
        OccursAt(p, x, i);
        OccursAt(q, y, j - |p|);
        FirstDecides(p[i], q[j - |p|]);
      }
    }
  }

  lemma OccursAt(places: seq<seq<Step>>, reports: seq<Report>, i: nat)
    requires i < |places| == |reports|
    ensures Occurs(places, reports, places[i], reports[i])
  {
  }

  lemma FirstDecides(x: seq<Step>, y: seq<Step>)
    requires x != [] && y != [] && StepLess(x[0], y[0])
    ensures PlaceLess(x, y)
  {
  }

  lemma NothingListed(ignored: set<string>, a: Json, b: Json, path: string)
    ensures ListsUnder(ignored, a, b, path, {}, [], [])
  {
  }

  // ----- one child -----

  lemma FieldListed(ignored: set<string>, a: Json, b: Json, path: string, key: string,
                    p: seq<seq<Step>>, x: seq<Report>)
    requires path !in ignored && a.Obj? && b.Obj? && key in a.fields && key in b.fields
    requires Lists(ignored, a.fields[key], b.fields[key], path + "." + key, p, x)
    ensures ListsUnder(ignored, a, b, path, {Field(key)}, Prepend(Field(key), p), x)
  {
    hide PlaceLess, Occurs, Local;
    PrependAscends(Field(key), p);
    forall place, r
      ensures Occurs(Prepend(Field(key), p), x, place, r) <==>
                place != [] && place[0] in {Field(key)} && Placed(ignored, a, b, path, place, r)
    {
      PrependOccurs(Field(key), p, x, place, r);
    }
  }

  lemma LackListed(ignored: set<string>, a: Json, b: Json, path: string, key: string)
    requires path !in ignored && a.Obj? && b.Obj? && (key in a.fields) != (key in b.fields)
    ensures ListsUnder(ignored, a, b, path, {Field(key)}, [[Field(key)]], [Lacking(a, b, path, key)])
  {
    hide PlaceLess, Local;
    var p, x := [[Field(key)]], [Lacking(a, b, path, key)];
    forall place, r
      ensures Occurs(p, x, place, r) <==>
                place != [] && place[0] in {Field(key)} && Placed(ignored, a, b, path, place, r)
    {
      if place != [] && place[0] == Field(key) && place[1..] == [] {
        assert place == [Field(key)];
        assert p[0] == place;
      }
    }
  }

  lemma ItemListed(ignored: set<string>, a: Json, b: Json, path: string, i: nat, p: seq<seq<Step>>, x: seq<Report>)
    requires path !in ignored && a.Arr? && b.Arr? && i < |a.items| == |b.items|
    requires Lists(ignored, a.items[i], b.items[i], path + "[" + Decimal(i) + "]", p, x)
    ensures ListsUnder(ignored, a, b, path, {Item(i)}, Prepend(Item(i), p), x)
  {
    hide PlaceLess, Occurs, Local;
    PrependAscends(Item(i), p);
    forall place, r
      ensures Occurs(Prepend(Item(i), p), x, place, r) <==>
                place != [] && place[0] in {Item(i)} && Placed(ignored, a, b, path, place, r)
    {
      PrependOccurs(Item(i), p, x, place, r);
    }
  }

  // ----- the whole diff -----

  ghost function FieldSteps(keys: seq<string>): set<Step> {
    set key | key in keys :: Field(key)
  }

  ghost predicate KeysAscend(keys: seq<string>) {
    forall i, j :: 0 <= i < j < |keys| ==> keys[i] != keys[j] && StringLe(keys[i], keys[j])
  }

  lemma FieldStepsCons(keys: seq<string>)
    requires keys != [] && KeysAscend(keys)
    ensures FieldSteps(keys) == {Field(keys[0])} + FieldSteps(keys[1..])
    ensures KeysAscend(keys[1..])
    ensures forall step :: step in FieldSteps(keys[1..]) ==> StepLess(Field(keys[0]), step)
  {
    hide StringLe;
    assert keys == [keys[0]] + keys[1..];
  }

  lemma {:induction false} FieldsListed(ignored: set<string>, a: Json, b: Json, path: string, keys: seq<string>)
    returns (places: seq<seq<Step>>)
    requires path !in ignored && a.Obj? && b.Obj? && KeysAscend(keys)
    requires forall key :: key in keys ==> key in a.fields || key in b.fields
    ensures ListsUnder(ignored, a, b, path, FieldSteps(keys), places, DiffFields(ignored, a, b, path, keys))
    decreases a, 0, |keys|
  {
    hide Diff, ListsUnder, Lists, KeysAscend, FieldSteps;
    if keys == [] {
      places := [];
      NothingListed(ignored, a, b, path);
      NoSteps();
    } else {
      var key := keys[0];
      FieldStepsCons(keys);
      var later := FieldsListed(ignored, a, b, path, keys[1..]);
      var rest := DiffFields(ignored, a, b, path, keys[1..]);
      if key in a.fields && key in b.fields {
        var p := DiffListed(ignored, a.fields[key], b.fields[key], path + "." + key);
        var x := Diff(ignored, a.fields[key], b.fields[key], path + "." + key);
        FieldListed(ignored, a, b, path, key, p, x);
        ListsJoin(ignored, a, b, path, Field(key), FieldSteps(keys[1..]), Prepend(Field(key), p), x, later, rest);
        places := Prepend(Field(key), p) + later;
      } else {
        LackListed(ignored, a, b, path, key);
        var x := [Lacking(a, b, path, key)];
        ListsJoin(ignored, a, b, path, Field(key), FieldSteps(keys[1..]), [[Field(key)]], x, later, rest);
        places := [[Field(key)]] + later;
      }
    }
  }

  lemma NoSteps()
    ensures FieldSteps([]) == {}
  {
  }

  ghost function ItemSteps(from: nat, to: nat): set<Step> {
    set i: nat | from <= i < to :: Item(i)
  }

  lemma {:induction false} ItemsListed(ignored: set<string>, a: Json, b: Json, path: string, from: nat)
    returns (places: seq<seq<Step>>)
    requires path !in ignored && a.Arr? && b.Arr? && |a.items| == |b.items| && from <= |a.items|
    ensures ListsUnder(ignored, a, b, path, ItemSteps(from, |a.items|), places, DiffItems(ignored, a, b, path, from))
    decreases a, 0, |a.items| - from
  {
    hide Diff, ListsUnder, Lists;
    if from == |a.items| {
      places := [];
      NothingListed(ignored, a, b, path);
      assert ItemSteps(from, from) == {};
    } else {
      var n := |a.items|;
      var later := ItemsListed(ignored, a, b, path, from + 1);
      var child := path + "[" + Decimal(from) + "]";
      var p := DiffListed(ignored, a.items[from], b.items[from], child);
      var x := Diff(ignored, a.items[from], b.items[from], child);
      ItemListed(ignored, a, b, path, from, p, x);
      assert ItemSteps(from, n) == {Item(from)} + ItemSteps(from + 1, n);
      ListsJoin(ignored, a, b, path, Item(from), ItemSteps(from + 1, n), Prepend(Item(from), p), x, later,
                DiffItems(ignored, a, b, path, from + 1));
      places := Prepend(Item(from), p) + later;
    }
  }

  /** The diff yields every disagreement exactly once, in the order of the places where they stand. */
  lemma {:induction false} DiffListed(ignored: set<string>, a: Json, b: Json, path: string)
    returns (places: seq<seq<Step>>)
    ensures Lists(ignored, a, b, path, places, Diff(ignored, a, b, path))
    decreases a, 1, 0
  {
    hide ListsUnder, DiffFields, DiffItems, Local, SortedKeys;
    if path in ignored || !Descends(a, b) {
      places := LeafListed(ignored, a, b, path);
    } else if a.Obj? {
      var all := a.fields.Keys + b.fields.Keys;
      var keys := SortedKeys(all);
      SortedKeysAreKeys(all);
      places := FieldsListed(ignored, a, b, path, keys);
      ObjectListed(ignored, a, b, path, keys, places, DiffFields(ignored, a, b, path, keys));
    } else {
      places := ItemsListed(ignored, a, b, path, 0);
      ArrayListed(ignored, a, b, path, places, DiffItems(ignored, a, b, path, 0));
    }
  }

  lemma SortedKeysAreKeys(s: set<string>)
    ensures KeysAscend(SortedKeys(s)) && forall key :: key in SortedKeys(s) <==> key in s
  {
    hide StringLe, SortedKeys;
    forall i, j | 0 <= i < j < |SortedKeys(s)|
      ensures SortedKeys(s)[i] != SortedKeys(s)[j] && StringLe(SortedKeys(s)[i], SortedKeys(s)[j])
    {
      SortedKeysAscend(s, i, j);
    }
    forall key ensures key in SortedKeys(s) <==> key in s {
      SortedKeysMembers(s, key);
    }
  }

  lemma LeafListed(ignored: set<string>, a: Json, b: Json, path: string) returns (places: seq<seq<Step>>)
    requires path in ignored || !Descends(a, b)
    ensures Lists(ignored, a, b, path, places, Diff(ignored, a, b, path))
  {
    var reports := Diff(ignored, a, b, path);
    places := if reports == [] then [] else [[]];
  }

  lemma ObjectListed(ignored: set<string>, a: Json, b: Json, path: string, keys: seq<string>,
                     places: seq<seq<Step>>, reports: seq<Report>)
    requires a.Obj? && b.Obj? && (forall key :: key in a.fields || key in b.fields ==> key in keys)
    requires ListsUnder(ignored, a, b, path, FieldSteps(keys), places, reports)
    ensures Lists(ignored, a, b, path, places, reports)
  {
    hide Ascend, Occurs, Local;
  }

  lemma ArrayListed(ignored: set<string>, a: Json, b: Json, path: string,
                    places: seq<seq<Step>>, reports: seq<Report>)
    requires a.Arr? && b.Arr? && |a.items| == |b.items|
    requires ListsUnder(ignored, a, b, path, ItemSteps(0, |a.items|), places, reports)
    ensures Lists(ignored, a, b, path, places, reports)
  {
    hide Ascend, Occurs;
  }
}
