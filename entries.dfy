/** The items of a balance dictionary, the creditor and debtor lists taken
    from them, and the stable sort that orders those lists. */
module Entries {
  import opened Money

  /** One item of a balance dictionary: a person and their balance in cents. */
  datatype Entry = Entry(name: Name, cents: Cents)

  /** The names a list of entries is about. */
  function Names(s: seq<Entry>): set<Name>
  {
    if s == [] then {} else {s[0].name} + Names(s[1..])
  }

  /** No two entries name the same person, as in a dictionary. */
  predicate Distinct(s: seq<Entry>)
  {
    s == [] || (s[0].name !in Names(s[1..]) && Distinct(s[1..]))
  }

  /** No name occurs twice. */
  predicate NoDuplicates(order: seq<Name>)
  {
    forall a, b :: 0 <= a < b < |order| ==> order[a] != order[b]
  }

  lemma {:induction false} NamesHas(s: seq<Entry>, p: Name)
    ensures p in Names(s) <==> exists k :: 0 <= k < |s| && s[k].name == p
  {
    if s != [] {
      NamesHas(s[1..], p);
      if p in Names(s[1..]) {
        var k :| 0 <= k < |s| - 1 && s[1..][k].name == p;
        assert s[k + 1].name == p;
      }
      forall k | 0 < k < |s| && s[k].name == p
        ensures p in Names(s[1..])
      {
        assert s[1..][k - 1].name == p;
      }
    }
  }

  lemma NameOfMember(s: seq<Entry>, e: Entry)
    requires e in s
    ensures e.name in Names(s)
  {
    var k :| 0 <= k < |s| && s[k] == e;
    NamesHas(s, e.name);
  }

  /** The entries of a balance dictionary in its iteration order `order`. */
  function Items(b: map<Name, Cents>, order: seq<Name>): (r: seq<Entry>)
    requires forall p :: p in order ==> p in b
    ensures |r| == |order|
    ensures forall k :: 0 <= k < |r| ==> r[k] == Entry(order[k], b[order[k]])
    ensures forall e :: e in r <==> e.name in order && e.cents == b[e.name]
    ensures Names(r) == set p | p in order
  {
    if order == [] then []
    else [Entry(order[0], b[order[0]])] + Items(b, order[1..])
  }

  /** The items of a dictionary name each key once. */
  lemma {:induction false} ItemsDistinct(b: map<Name, Cents>, order: seq<Name>)
    requires forall p :: p in order ==> p in b
    requires NoDuplicates(order)
    ensures Distinct(Items(b, order))
  {
    if order != [] {
      var r := Items(b, order);
      assert r[1..] == Items(b, order[1..]);
      ItemsDistinct(b, order[1..]);
      assert order[0] !in order[1..];
    }
  }

  /** The entries owed more than the dust tolerance, in their original order. */
  function Creditors(s: seq<Entry>): (r: seq<Entry>)
    ensures forall e :: e in r <==> e in s && e.cents > Dust
    ensures Names(r) <= Names(s)
    ensures Distinct(s) ==> Distinct(r)
  {
    if s == [] then []
    else
      var rest := Creditors(s[1..]);
      if s[0].cents > Dust then
        assert ([s[0]] + rest)[1..] == rest;
        [s[0]] + rest
      else rest
  }

  /** The entries owing more than the dust tolerance, in their original order. */
  function Debtors(s: seq<Entry>): (r: seq<Entry>)
    ensures forall e :: e in r <==> e in s && e.cents < -Dust
    ensures Names(r) <= Names(s)
    ensures Distinct(s) ==> Distinct(r)
  {
    if s == [] then []
    else
      var rest := Debtors(s[1..]);
      if s[0].cents < -Dust then
        assert ([s[0]] + rest)[1..] == rest;
        [s[0]] + rest
      else rest
  }

  // ---------------------------------------------------------------------
  // Stable sort by amount

  /** The sort key: the amount itself when sorting in descending order, its
      negation when sorting in ascending order. */
  function Key(e: Entry, descending: bool): int
  {
    if descending then e.cents else -e.cents
  }

  /** Keys never grow along the list. */
  predicate Ordered(s: seq<Entry>, descending: bool)
  {
    forall a, b :: 0 <= a < b < |s| ==> Key(s[a], descending) >= Key(s[b], descending)
  }

  /** `x` placed before the first entry whose key is not larger than its own. */
  function Insert(x: Entry, s: seq<Entry>, descending: bool): seq<Entry>
  {
    if s == [] || Key(x, descending) >= Key(s[0], descending) then [x] + s
    else [s[0]] + Insert(x, s[1..], descending)
  }

  /** Insertion sort; an entry that comes first in the input stays ahead of
      the entries with the same key. */
  function Sort(s: seq<Entry>, descending: bool): seq<Entry>
  {
    if s == [] then [] else Insert(s[0], Sort(s[1..], descending), descending)
  }

  /** The entries whose key is `v`, in list order. */
  function Tied(s: seq<Entry>, descending: bool, v: int): seq<Entry>
  {
    if s == [] then []
    else (if Key(s[0], descending) == v then [s[0]] else []) + Tied(s[1..], descending, v)
  }

  lemma {:induction false} InsertPermutes(x: Entry, s: seq<Entry>, descending: bool)
    ensures multiset(Insert(x, s, descending)) == multiset(s) + multiset{x}
    ensures Names(Insert(x, s, descending)) == Names(s) + {x.name}
  {
    InsertMultiset(x, s, descending);
    InsertNames(x, s, descending);
  }

  lemma {:induction false} InsertMultiset(x: Entry, s: seq<Entry>, descending: bool)
    ensures multiset(Insert(x, s, descending)) == multiset(s) + multiset{x}
  {
    if s != [] && Key(x, descending) < Key(s[0], descending) {
      InsertMultiset(x, s[1..], descending);
      assert s == [s[0]] + s[1..];
      assert Insert(x, s, descending) == [s[0]] + Insert(x, s[1..], descending);
    }
  }

  lemma {:induction false} InsertNames(x: Entry, s: seq<Entry>, descending: bool)
    ensures Names(Insert(x, s, descending)) == Names(s) + {x.name}
  {
    if s != [] && Key(x, descending) < Key(s[0], descending) {
      InsertNames(x, s[1..], descending);
      var r := Insert(x, s, descending);
      assert r[0] == s[0] && r[1..] == Insert(x, s[1..], descending);
    } else {
      assert ([x] + s)[1..] == s;
    }
  }

  lemma {:induction false} InsertOrdered(x: Entry, s: seq<Entry>, descending: bool)
    requires Ordered(s, descending)
    ensures Ordered(Insert(x, s, descending), descending)
  {
    if s != [] && Key(x, descending) < Key(s[0], descending) {
      var t := Insert(x, s[1..], descending);
      assert Ordered(s[1..], descending);
      InsertOrdered(x, s[1..], descending);
      assert forall k :: 0 <= k < |t| ==> Key(s[0], descending) >= Key(t[k], descending) by {
        InsertMultiset(x, s[1..], descending);
        forall k | 0 <= k < |t|
          ensures Key(s[0], descending) >= Key(t[k], descending)
        {
          assert t[k] in multiset(t);
          assert t[k] in multiset(s[1..]) + multiset{x};
        }
      }
      OrderedCons(s[0], t, descending);
    }
  }

  /** An entry whose key is at least every key of an ordered list can go in
      front of it. */
  lemma OrderedCons(h: Entry, t: seq<Entry>, descending: bool)
    requires Ordered(t, descending)
    requires forall k :: 0 <= k < |t| ==> Key(h, descending) >= Key(t[k], descending)
    ensures Ordered([h] + t, descending)
  {
    var r := [h] + t;
    forall a, b | 0 <= a < b < |r|
      ensures Key(r[a], descending) >= Key(r[b], descending)
    {
      assert r[b] == t[b - 1];
      if a > 0 {
        assert r[a] == t[a - 1];
      }
    }
  }

  lemma {:induction false} InsertDistinct(x: Entry, s: seq<Entry>, descending: bool)
    requires Distinct(s) && x.name !in Names(s)
    ensures Distinct(Insert(x, s, descending))
  {
    if s != [] && Key(x, descending) < Key(s[0], descending) {
      InsertDistinct(x, s[1..], descending);
      InsertPermutes(x, s[1..], descending);
      var r := Insert(x, s, descending);
      assert r[1..] == Insert(x, s[1..], descending);
    } else {
      assert ([x] + s)[1..] == s;
    }
  }

  lemma {:induction false} InsertTied(x: Entry, s: seq<Entry>, descending: bool, v: int)
    requires Ordered(s, descending)
    ensures Tied(Insert(x, s, descending), descending, v)
         == (if Key(x, descending) == v then [x] else []) + Tied(s, descending, v)
  {
    if s != [] && Key(x, descending) < Key(s[0], descending) {
      InsertTied(x, s[1..], descending, v);
      var r := Insert(x, s, descending);
      assert r[1..] == Insert(x, s[1..], descending);
    } else {
      assert ([x] + s)[1..] == s;
    }
  }

  /** The sort orders by key. */
  lemma {:induction false} SortOrders(s: seq<Entry>, descending: bool)
    ensures Ordered(Sort(s, descending), descending)
  {
    if s != [] {
      SortOrders(s[1..], descending);
      InsertOrdered(s[0], Sort(s[1..], descending), descending);
    }
  }

  /** The sort is a permutation of its input. */
  lemma {:induction false} SortPermutes(s: seq<Entry>, descending: bool)
    ensures multiset(Sort(s, descending)) == multiset(s)
  {
    if s != [] {
      SortPermutes(s[1..], descending);
      InsertMultiset(s[0], Sort(s[1..], descending), descending);
      assert s == [s[0]] + s[1..];
    }
  }

  /** The sort is stable: the entries with any one key keep their order. */
  lemma {:induction false} SortIsStable(s: seq<Entry>, descending: bool, v: int)
    ensures Tied(Sort(s, descending), descending, v) == Tied(s, descending, v)
  {
    if s != [] {
      SortIsStable(s[1..], descending, v);
      SortOrders(s[1..], descending);
      InsertTied(s[0], Sort(s[1..], descending), descending, v);
    }
  }

  /** The sort keeps the names, and keeps them distinct. */
  lemma {:induction false} SortKeepsNames(s: seq<Entry>, descending: bool)
    ensures Names(Sort(s, descending)) == Names(s)
    ensures Distinct(s) ==> Distinct(Sort(s, descending))
  {
    if s != [] {
      SortKeepsNames(s[1..], descending);
      InsertPermutes(s[0], Sort(s[1..], descending), descending);
      if Distinct(s) {
        InsertDistinct(s[0], Sort(s[1..], descending), descending);
      }
    }
  }

  /** The sort keeps every entry and the length of its input. */
  lemma SortKeepsEntries(s: seq<Entry>, descending: bool)
    ensures forall e :: e in Sort(s, descending) <==> e in s
    ensures |Sort(s, descending)| == |s|
  {
    var t := Sort(s, descending);
    SortPermutes(s, descending);
    assert |t| == |multiset(t)|;
    forall e
      ensures e in t <==> e in s
    {
      assert e in t <==> e in multiset(t);
      assert e in s <==> e in multiset(s);
    }
  }
}
