/** Text helpers shared by the models: joining pieces, decimal rendering, optional values. */
module Text {

  datatype Option<+T> = None | Some(value: T)

  /** `"".join(pieces)`. */
  function Join<T>(pieces: seq<seq<T>>): seq<T> {
    if pieces == [] then [] else pieces[0] + Join(pieces[1..])
  }

  lemma Assoc<T>(a: seq<T>, b: seq<T>, c: seq<T>)
    ensures a + b + c == a + (b + c)
  {
  }

  lemma SliceCons<T>(s: seq<T>, lo: nat, hi: nat)
    requires lo < hi <= |s|
    ensures s[lo..hi] == [s[lo]] + s[lo + 1..hi]
  {
  }

  lemma {:induction false} JoinAppend<T>(a: seq<seq<T>>, b: seq<seq<T>>)
    ensures Join(a + b) == Join(a) + Join(b)
  {
    if a == [] {
      assert a + b == b;
    } else {
      assert (a + b)[1..] == a[1..] + b;
      JoinAppend(a[1..], b);
    }
  }

  lemma JoinSnoc<T>(a: seq<seq<T>>, x: seq<T>)
    ensures Join(a + [x]) == Join(a) + x
  {
    JoinAppend(a, [x]);
    assert Join([x]) == x + Join([]);
  }

  /** Where in a list `p` holds. */
  function Positions<T>(s: seq<T>, p: T -> bool): set<int> {
    set i | 0 <= i < |s| && p(s[i])
  }

  lemma PositionsSnoc<T>(s: seq<T>, x: T, p: T -> bool)
    ensures Positions<T>([], p) == {}
    ensures |Positions(s + [x], p)| == |Positions(s, p)| + if p(x) then 1 else 0
  {
    PositionsGrow(s, x, p);
    PositionsWithin(s, p);
    hide Positions;
  }

  lemma {:induction false} PositionsCons<T>(x: T, s: seq<T>, p: T -> bool)
    ensures |Positions([x] + s, p)| == |Positions(s, p)| + if p(x) then 1 else 0
  {
    hide Positions;
    if s == [] {
      assert [x] + s == [] + [x];
      PositionsSnoc([], x, p);
    } else {
      var n := |s| - 1;
      PositionsCons(x, s[..n], p);
      assert s == s[..n] + [s[n]] && [x] + s == [x] + s[..n] + [s[n]];
      PositionsSnoc(s[..n], s[n], p);
      PositionsSnoc([x] + s[..n], s[n], p);
    }
  }

  lemma PositionsGrow<T>(s: seq<T>, x: T, p: T -> bool)
    ensures Positions(s + [x], p) == Positions(s, p) + if p(x) then {|s|} else {}
  {
    assert forall i :: 0 <= i < |s| ==> (s + [x])[i] == s[i];
  }

  lemma PositionsWithin<T>(s: seq<T>, p: T -> bool)
    ensures |s| !in Positions(s, p)
    ensures Positions<T>([], p) == {}
  {
  }

  /** Each list with `first` put in front. */
  function Prepend<T>(first: T, lists: seq<seq<T>>): (r: seq<seq<T>>)
    ensures |r| == |lists|
  {
    seq(|lists|, i requires 0 <= i < |lists| => [first] + lists[i])
  }

  lemma PrependAt<T>(first: T, lists: seq<seq<T>>, i: nat)
    requires i < |lists|
    ensures var list := Prepend(first, lists)[i];
            list != [] && list[0] == first && list[1..] == lists[i]
  {
  }

  lemma PrependMembers<T>(first: T, lists: seq<seq<T>>, c: seq<T>)
    ensures c in Prepend(first, lists) <==> c != [] && c[0] == first && c[1..] in lists
  {
    var out := Prepend(first, lists);
    if c in out {
      var i :| 0 <= i < |out| && out[i] == c;
      assert c[1..] == lists[i];
    }
    if c != [] && c[0] == first && c[1..] in lists {
      var i :| 0 <= i < |lists| && lists[i] == c[1..];
      assert out[i] == c;
    }
  }

  /** `lower()` of ASCII text. */
  function Lower(s: string): (r: string)
    ensures |r| == |s|
  {
    seq(|s|, i requires 0 <= i < |s| => if 'A' <= s[i] <= 'Z' then (s[i] - 'A') + 'a' else s[i])
  }

  /** Code by code: the capitals, 65 to 90, go to the small letters 32 above them; nothing else changes. */
  lemma LowerAt(s: string, i: nat)
    requires i < |s|
    ensures Lower(s)[i] as int == if 65 <= s[i] as int <= 90 then s[i] as int + 32 else s[i] as int
  {
  }

  /** `str(n)` for a natural number. */
  function Decimal(n: nat): (s: string)
    ensures s != []
  {
    if n < 10 then [Digit(n)] else Decimal(n / 10) + [Digit(n % 10)]
  }

  /** A digit put at the end of a number other than zero is put at the end of its decimal form. */
  lemma DecimalAppends(n: nat, d: nat)
    requires d < 10
    ensures Decimal(10 * n + d) == (if n == 0 then "" else Decimal(n)) + ["0123456789"[d]]
  {
  }

  function Digit(d: nat): char
    requires d < 10
  {
    "0123456789"[d]
  }
}
