/** `sorted()` of a set of dict keys. */
module KeyOrder {

  /** Python's order on strings. */
  predicate StringLe(a: string, b: string) {
    a == [] || (b != [] && (a[0] < b[0] || (a[0] == b[0] && StringLe(a[1..], b[1..]))))
  }

  lemma {:induction false} StringLeTotal(a: string, b: string)
    ensures StringLe(a, b) || StringLe(b, a)
    ensures StringLe(a, b) && StringLe(b, a) ==> a == b
  {
    if a != [] && b != [] {
      StringLeTotal(a[1..], b[1..]);
      assert a == [a[0]] + a[1..] && b == [b[0]] + b[1..];
    }
  }

  lemma {:induction false} StringLeTransitive(a: string, b: string, c: string)
    requires StringLe(a, b) && StringLe(b, c)
    ensures StringLe(a, c)
  {
    if a != [] && a[0] == b[0] == c[0] {
      StringLeTransitive(a[1..], b[1..], c[1..]);
    }
  }

  /** The first character in which two keys differ decides, and a key comes before what extends it. */
  lemma {:induction false} StringLeIff(a: string, b: string)
    ensures StringLe(a, b) <==>
              a <= b || exists n :: 0 <= n < |a| && n < |b| && a[..n] == b[..n] && a[n] < b[n]
  {
    if a != [] && b != [] && a[0] == b[0] {
      StringLeIff(a[1..], b[1..]);
      assert a <= b <==> a[1..] <= b[1..];
      if n :| 0 <= n < |a| && n < |b| && a[..n] == b[..n] && a[n] < b[n] {
        assert n > 0;
        assert a[1..][..n - 1] == a[..n][1..] == b[..n][1..] == b[1..][..n - 1];
        assert a[1..][n - 1] < b[1..][n - 1];
      }
      if n :| 0 <= n < |a[1..]| && n < |b[1..]| && a[1..][..n] == b[1..][..n] && a[1..][n] < b[1..][n] {
        assert a[..n + 1] == [a[0]] + a[1..][..n] == [b[0]] + b[1..][..n] == b[..n + 1];
      }
    } else if a != [] && b != [] && a[0] < b[0] {
      assert a[..0] == b[..0];
    }
  }

  predicate IsLeast(s: set<string>, k: string) {
    k in s && forall x :: x in s ==> StringLe(k, x)
  }

  lemma {:induction false} LeastExists(s: set<string>) returns (k: string)
    requires s != {}
    ensures IsLeast(s, k)
    decreases |s|
  {
    hide StringLe;
    var x :| x in s;
    StringLeTotal(x, x);
    if s == {x} {
      return x;
    }
    var m := LeastExists(s - {x});
    StringLeTotal(x, m);
    k := if StringLe(x, m) then x else m;
    forall y | y in s ensures StringLe(k, y) {
      if y != x && k == x {
        StringLeTransitive(x, m, y);
      }
    }
  }

  lemma LeastIsUnique(s: set<string>)
    requires s != {}
    ensures exists k :: IsLeast(s, k)
    ensures forall a, b :: IsLeast(s, a) && IsLeast(s, b) ==> a == b
  {
    hide StringLe;
    var k := LeastExists(s);
    forall a, b | IsLeast(s, a) && IsLeast(s, b) ensures a == b {
      StringLeTotal(a, b);
    }
  }

  function SortedKeys(s: set<string>): seq<string>
    decreases |s|
  {
    if s == {} then [] else
      LeastIsUnique(s);
      var k :| k in s && IsLeast(s, k);
      [k] + SortedKeys(s - {k})
  }

  lemma {:induction false} SortedKeysMembers(s: set<string>, key: string)
    ensures key in SortedKeys(s) <==> key in s
    decreases |s|
  {
    hide StringLe;
    if s != {} {
      LeastIsUnique(s);
      var k :| k in s && IsLeast(s, k);
      SortedKeysMembers(s - {k}, key);
    }
  }

  /** The keys come in strictly ascending order. */
  lemma {:induction false} SortedKeysAscend(s: set<string>, i: nat, j: nat)
    requires i < j < |SortedKeys(s)|
    ensures StringLe(SortedKeys(s)[i], SortedKeys(s)[j]) && SortedKeys(s)[i] != SortedKeys(s)[j]
    decreases |s|
  {
    hide StringLe;
    LeastIsUnique(s);
    var k :| k in s && IsLeast(s, k);
    if i == 0 {
      SortedKeysMembers(s - {k}, SortedKeys(s - {k})[j - 1]);
    } else {
      SortedKeysAscend(s - {k}, i - 1, j - 1);
    }
  }
}
