/** Listings: the elements of an unordered collection in strictly ascending order. */
module Sorting {

  ghost predicate StrictOrder<T(!new)>(less: (T, T) -> bool) {
    && (forall x :: !less(x, x))
    && (forall x, y, z :: less(x, y) && less(y, z) ==> less(x, z))
    && (forall x, y :: x != y ==> less(x, y) || less(y, x))
  }

  predicate SortedBy<T>(less: (T, T) -> bool, s: seq<T>) {
    forall i, j :: 0 <= i < j < |s| ==> less(s[i], s[j])
  }

  ghost predicate Lists<T(!new)>(s: seq<T>, items: set<T>) {
    forall x :: x in s <==> x in items
  }

  function Insert<T>(less: (T, T) -> bool, x: T, s: seq<T>): seq<T> {
    if s == [] || less(x, s[0]) then [x] + s else [s[0]] + Insert(less, x, s[1..])
  }

  lemma {:induction false} InsertSorted<T(!new)>(less: (T, T) -> bool, x: T, s: seq<T>)
    requires StrictOrder(less) && SortedBy(less, s) && x !in s
    ensures SortedBy(less, Insert(less, x, s))
    ensures forall y :: y in Insert(less, x, s) <==> y == x || y in s
  {
    if s != [] && !less(x, s[0]) {
      InsertSorted(less, x, s[1..]);
      var rest := Insert(less, x, s[1..]);
      assert forall y :: y in rest ==> y == x || y in s[1..];
      forall j | 0 <= j < |rest|
        ensures less(s[0], rest[j])
      {
        assert rest[j] in rest;
      }
    }
  }

  /** A strictly ascending sequence is determined by its elements. */
  lemma {:induction false} SortedUnique<T(!new)>(less: (T, T) -> bool, a: seq<T>, b: seq<T>)
    requires StrictOrder(less) && SortedBy(less, a) && SortedBy(less, b)
    requires forall x :: x in a <==> x in b
    ensures a == b
    decreases |a|
  {
    assert a != [] ==> a[0] in a;
    assert b != [] ==> b[0] in b;
    if a != [] {
      assert a[0] == b[0];
      forall x
        ensures x in a[1..] <==> x in b[1..]
      {
        TailElements(less, a, x);
        TailElements(less, b, x);
      }
      SortedUnique(less, a[1..], b[1..]);
      assert a == [a[0]] + a[1..] && b == [b[0]] + b[1..];
    }
  }

  lemma TailElements<T(!new)>(less: (T, T) -> bool, s: seq<T>, x: T)
    requires StrictOrder(less) && SortedBy(less, s) && s != []
    ensures x in s[1..] <==> x in s && x != s[0]
  {
    assert s == [s[0]] + s[1..];
  }

  ghost predicate IsLeast<T(!new)>(less: (T, T) -> bool, items: set<T>, x: T) {
    x in items && forall y :: y in items ==> y == x || less(x, y)
  }

  lemma {:induction false} Least<T(!new)>(less: (T, T) -> bool, items: set<T>) returns (x: T)
    requires StrictOrder(less) && items != {}
    ensures IsLeast(less, items, x)
  {
    x :| x in items;
    if items != {x} {
      var least := Least(less, items - {x});
      if less(least, x) {
        x := least;
      }
    }
  }

  /** The one ascending listing of a set. */
  function Listing<T(!new, ==)>(less: (T, T) -> bool, items: set<T>): (s: seq<T>)
    requires StrictOrder(less)
    ensures SortedBy(less, s) && Lists(s, items) && |s| == |items|
  {
    if items == {} then []
    else
      assert exists x :: x in items && IsLeast(less, items, x) by {
        var x := Least(less, items);
      }
      var x :| x in items && forall y :: y in items ==> y == x || less(x, y);
      [x] + Listing(less, items - {x})
  }

  lemma IsListing<T(!new)>(less: (T, T) -> bool, s: seq<T>, items: set<T>)
    requires StrictOrder(less) && SortedBy(less, s) && Lists(s, items)
    ensures s == Listing(less, items)
  {
    SortedUnique(less, s, Listing(less, items));
  }

  /** Whatever order a collection is ranged over in, sorting what was collected gives its listing. */
  method Sort<T(!new, ==)>(less: (T, T) -> bool, items: set<T>) returns (s: seq<T>)
    requires StrictOrder(less)
    ensures s == Listing(less, items)
  {
    s := [];
    var rest := items;
    while rest != {}
      invariant rest <= items && SortedBy(less, s) && Lists(s, items - rest)
      decreases rest
    {
      var x :| x in rest;
      InsertSorted(less, x, s);
      s := Insert(less, x, s);
      rest := rest - {x};
    }
    IsListing(less, s, items);
  }

  // ---- selection --------------------------------------------------------------

  /** The elements that satisfy a condition, in order. */
  function Select<T>(s: seq<T>, keep: T -> bool): (r: seq<T>)
  {
    if s == [] then [] else (if keep(s[0]) then [s[0]] else []) + Select(s[1..], keep)
  }

  lemma {:induction false} SelectElements<T>(s: seq<T>, keep: T -> bool)
    ensures forall x :: x in Select(s, keep) <==> x in s && keep(x)
    ensures |Select(s, keep)| <= |s|
  {
    if s != [] {
      SelectElements(s[1..], keep);
      assert s == [s[0]] + s[1..];
    }
  }

  lemma SelectFirst<T>(first: T, rest: seq<T>, keep: T -> bool)
    ensures Select([first] + rest, keep) == (if keep(first) then [first] else []) + Select(rest, keep)
  {
    assert ([first] + rest)[1..] == rest;
  }

  lemma {:induction false} SelectAppend<T>(a: seq<T>, b: seq<T>, keep: T -> bool)
    ensures Select(a + b, keep) == Select(a, keep) + Select(b, keep)
  {
    if a == [] {
      assert a + b == b;
      assert Select(a, keep) == [];
    } else {
      hide Select;
      SelectAppend(a[1..], b, keep);
      SelectFirst(a[0], a[1..], keep);
      SelectFirst(a[0], a[1..] + b, keep);
      assert a == [a[0]] + a[1..] && a + b == [a[0]] + (a[1..] + b);
    }
  }

  lemma SelectOne<T>(x: T, p: T -> bool)
    ensures Select([x], p) == if p(x) then [x] else []
  {
    assert [x][1..] == [];
  }

  lemma {:induction false} SelectSame<T>(s: seq<T>, p: T -> bool, q: T -> bool)
    requires forall x :: x in s ==> p(x) == q(x)
    ensures Select(s, p) == Select(s, q)
  {
    if s != [] {
      SelectSame(s[1..], p, q);
    }
  }

  lemma {:induction false} SelectEverything<T>(s: seq<T>, p: T -> bool)
    requires forall x :: x in s ==> p(x)
    ensures Select(s, p) == s
  {
    if s != [] {
      SelectEverything(s[1..], p);
    }
  }

  /** Selecting from a sequence where only a middle part is in question. */
  lemma SplitSelect<T>(a: seq<T>, b: seq<T>, c: seq<T>, p: T -> bool, q: T -> bool)
    requires (forall x :: x in a ==> p(x)) && (forall x :: x in c ==> p(x))
    requires forall x :: x in b ==> p(x) == q(x)
    ensures Select(a + b + c, p) == a + Select(b, q) + c
  {
    hide Select;
    SelectAppend(a + b, c, p);
    SelectAppend(a, b, p);
    SelectEverything(a, p);
    SelectEverything(c, p);
    SelectSame(b, p, q);
  }

  lemma {:induction false} SelectSorted<T(!new)>(less: (T, T) -> bool, s: seq<T>, keep: T -> bool)
    requires SortedBy(less, s)
    ensures SortedBy(less, Select(s, keep))
  {
    if s != [] {
      SelectSorted(less, s[1..], keep);
      SelectElements(s[1..], keep);
      var rest := Select(s[1..], keep);
      forall j | 0 <= j < |rest|
        ensures less(s[0], rest[j])
      {
        assert rest[j] in s[1..];
      }
    }
  }

  // ---- the orders in use --------------------------------------------------------

  /** Go's string order on the character codes. */
  predicate StringLess(a: string, b: string) {
    b != "" && (a == "" || a[0] < b[0] || (a[0] == b[0] && StringLess(a[1..], b[1..])))
  }

  /** The first differing character decides, and a proper prefix comes first. */
  lemma {:induction false} StringLessDecided(a: string, b: string, k: nat)
    requires k <= |a| && k <= |b| && a[..k] == b[..k]
    ensures k < |a| && k < |b| && a[k] != b[k] ==> (StringLess(a, b) <==> a[k] < b[k])
    ensures k == |a| < |b| ==> StringLess(a, b) && !StringLess(b, a)
  {
    if k > 0 {
      assert a[0] == a[..k][0] && b[0] == b[..k][0];
      assert a[1..][..k - 1] == a[..k][1..] && b[1..][..k - 1] == b[..k][1..];
      StringLessDecided(a[1..], b[1..], k - 1);
    }
  }

  lemma {:induction false} StringIrreflexive(a: string)
    ensures !StringLess(a, a)
  {
    if a != "" {
      StringIrreflexive(a[1..]);
    }
  }

  lemma {:induction false} StringTransitive(a: string, b: string, c: string)
    requires StringLess(a, b) && StringLess(b, c)
    ensures StringLess(a, c)
  {
    if a != "" && a[0] == b[0] && b[0] == c[0] {
      StringTransitive(a[1..], b[1..], c[1..]);
    }
  }

  lemma {:induction false} StringTotal(a: string, b: string)
    requires a != b
    ensures StringLess(a, b) || StringLess(b, a)
  {
    if a != "" && b != "" && a[0] == b[0] {
      assert a == [a[0]] + a[1..] && b == [b[0]] + b[1..];
      StringTotal(a[1..], b[1..]);
    }
  }

  lemma StringOrder()
    ensures StrictOrder(StringLess)
  {
    forall a: string, b: string, c: string
      ensures !StringLess(a, a)
      ensures StringLess(a, b) && StringLess(b, c) ==> StringLess(a, c)
      ensures a != b ==> StringLess(a, b) || StringLess(b, a)
    {
      StringIrreflexive(a);
      if StringLess(a, b) && StringLess(b, c) {
        StringTransitive(a, b, c);
      }
      if a != b {
        StringTotal(a, b);
      }
    }
  }

  /** Pairs by first component, then by second. */
  predicate PairLess(a: (string, string), b: (string, string)) {
    if a.0 != b.0 then StringLess(a.0, b.0) else StringLess(a.1, b.1)
  }

  lemma PairOrder()
    ensures StrictOrder(PairLess)
  {
    StringOrder();
    assert forall a: string, b: string :: StringLess(a, b) ==> !StringLess(b, a);
  }
}
