/** The newest-first ordering of the gallery: `items.sort((a, b) => b.date - a.date)`.
    ECMAScript's `Array.prototype.sort` is stable, so items with equal dates
    keep the order in which the device listed them. */
module NewestFirst {
  import opened Gallery

  /** `s` is in non-increasing date order. */
  predicate IsNewestFirst(s: seq<ArtItem>) {
    forall i, j | 0 <= i < j < |s| :: s[i].date >= s[j].date
  }

  /** The items of `s` dated exactly `d`, in the order `s` lists them. */
  function DatedOn(s: seq<ArtItem>, d: int): seq<ArtItem> {
    if s == [] then []
    else (if s[0].date == d then [s[0]] else []) + DatedOn(s[1..], d)
  }

  /** How many items of `s` are strictly newer than `d`. */
  function CountNewer(s: seq<ArtItem>, d: int): nat {
    if s == [] then 0
    else (if s[0].date > d then 1 else 0) + CountNewer(s[1..], d)
  }

  /** Puts `x` into a newest-first list ahead of every item that is not
      newer than it. */
  function Insert(x: ArtItem, s: seq<ArtItem>): (r: seq<ArtItem>)
    ensures |r| == |s| + 1
  {
    if s == [] || x.date >= s[0].date then [x] + s
    else [s[0]] + Insert(x, s[1..])
  }

  /** The stable newest-first sort of the device's art list: each item goes
      in ahead of the equally dated items listed after it. */
  function Sort(s: seq<ArtItem>): (r: seq<ArtItem>)
    ensures |r| == |s|
  {
    if s == [] then [] else Insert(s[0], Sort(s[1..]))
  }

  /** Inserting `x` adds exactly `x`. */
  lemma {:induction false} InsertAddsItem(x: ArtItem, s: seq<ArtItem>)
    ensures multiset(Insert(x, s)) == multiset{x} + multiset(s)
  {
    if s != [] && x.date < s[0].date {
      InsertAddsItem(x, s[1..]);
      assert s == [s[0]] + s[1..];
      assert Insert(x, s) == [s[0]] + Insert(x, s[1..]);
    }
  }

  /** Inserting an item no newer than `d` into items no newer than `d` keeps
      every item no newer than `d`. */
  lemma {:induction false} InsertBounded(x: ArtItem, s: seq<ArtItem>, d: int)
    requires x.date <= d
    requires forall k | 0 <= k < |s| :: s[k].date <= d
    ensures forall k | 0 <= k < |Insert(x, s)| :: Insert(x, s)[k].date <= d
  {
    if s != [] && x.date < s[0].date {
      InsertBounded(x, s[1..], d);
      assert Insert(x, s) == [s[0]] + Insert(x, s[1..]);
    }
  }

  /** Inserting into a newest-first list keeps it newest first. */
  lemma {:induction false} InsertKeepsNewestFirst(x: ArtItem, s: seq<ArtItem>)
    requires IsNewestFirst(s)
    ensures IsNewestFirst(Insert(x, s))
  {
    if s != [] && x.date < s[0].date {
      var rest := Insert(x, s[1..]);
      InsertKeepsNewestFirst(x, s[1..]);
      InsertBounded(x, s[1..], s[0].date);
      assert Insert(x, s) == [s[0]] + rest;
    }
  }

  /** The sorted list is newest first and holds exactly the fetched items. */
  lemma {:induction false} SortIsNewestFirstPermutation(s: seq<ArtItem>)
    ensures IsNewestFirst(Sort(s))
    ensures multiset(Sort(s)) == multiset(s)
  {
    if s != [] {
      SortIsNewestFirstPermutation(s[1..]);
      InsertKeepsNewestFirst(s[0], Sort(s[1..]));
      InsertAddsItem(s[0], Sort(s[1..]));
      assert s == [s[0]] + s[1..];
    }
  }

  lemma DatedOnCons(x: ArtItem, s: seq<ArtItem>, d: int)
    ensures DatedOn([x] + s, d) == (if x.date == d then [x] else []) + DatedOn(s, d)
  {
    assert ([x] + s)[1..] == s;
  }

  lemma CountNewerCons(x: ArtItem, s: seq<ArtItem>, d: int)
    ensures CountNewer([x] + s, d) == (if x.date > d then 1 else 0) + CountNewer(s, d)
  {
    assert ([x] + s)[1..] == s;
  }

  lemma {:induction false} DatedOnConcat(a: seq<ArtItem>, b: seq<ArtItem>, d: int)
    ensures DatedOn(a + b, d) == DatedOn(a, d) + DatedOn(b, d)
  {
    if a == [] {
      assert a + b == b;
    } else {
      assert a + b == [a[0]] + (a[1..] + b);
      DatedOnCons(a[0], a[1..] + b, d);
      DatedOnConcat(a[1..], b, d);
    }
  }

  /** Inserting `x` adds it to the items of its own date ahead of the ones
      already there, and leaves every other date untouched. */
  lemma {:induction false} InsertDatedOn(x: ArtItem, s: seq<ArtItem>, d: int)
    ensures DatedOn(Insert(x, s), d) == (if x.date == d then [x] else []) + DatedOn(s, d)
  {
    if s == [] || x.date >= s[0].date {
      DatedOnCons(x, s, d);
    } else {
      InsertDatedOn(x, s[1..], d);
      DatedOnCons(s[0], Insert(x, s[1..]), d);
      assert s == [s[0]] + s[1..];
      DatedOnCons(s[0], s[1..], d);
    }
  }

  /** Stability: for every date, the items of that date appear in the sorted
      list in exactly the order the device listed them. */
  lemma {:induction false} SortIsStable(s: seq<ArtItem>, d: int)
    ensures DatedOn(Sort(s), d) == DatedOn(s, d)
  {
    if s != [] {
      var tail := Sort(s[1..]);
      assert Sort(s) == Insert(s[0], tail);
      SortIsStable(s[1..], d);
      InsertDatedOn(s[0], tail, d);
      assert s == [s[0]] + s[1..];
      DatedOnCons(s[0], s[1..], d);
    }
  }

  /** How often `x` occurs in `s` is decided by the items of its date alone. */
  lemma {:induction false} OccurrencesByDate(s: seq<ArtItem>, x: ArtItem)
    ensures multiset(s)[x] == multiset(DatedOn(s, x.date))[x]
  {
    if s != [] {
      OccurrencesByDate(s[1..], x);
      assert s == [s[0]] + s[1..];
    }
  }

  lemma SameDatesSameItems(a: seq<ArtItem>, b: seq<ArtItem>)
    requires forall d :: DatedOn(a, d) == DatedOn(b, d)
    ensures multiset(a) == multiset(b)
  {
    forall x: ArtItem
      ensures multiset(a)[x] == multiset(b)[x]
    {
      OccurrencesByDate(a, x);
      OccurrencesByDate(b, x);
    }
  }

  /** Two newest-first lists that agree on the order within every date are
      the same list. */
  lemma {:induction false} NewestFirstIsUnique(a: seq<ArtItem>, b: seq<ArtItem>)
    requires IsNewestFirst(a) && IsNewestFirst(b)
    requires forall d :: DatedOn(a, d) == DatedOn(b, d)
    ensures a == b
  {
    SameDatesSameItems(a, b);
    assert |a| == |multiset(a)| == |multiset(b)| == |b|;
    if a != [] {
      assert a[0] in multiset(b);
      assert b[0] in multiset(a);
      var d := a[0].date;
      assert b[0].date == d;
      assert a == [a[0]] + a[1..];
      assert b == [b[0]] + b[1..];
      DatedOnCons(a[0], a[1..], d);
      DatedOnCons(b[0], b[1..], d);
      assert DatedOn(a, d) == DatedOn(b, d);
      assert a[0] == DatedOn(a, d)[0] == DatedOn(b, d)[0] == b[0];
      forall e
        ensures DatedOn(a[1..], e) == DatedOn(b[1..], e)
      {
        DatedOnCons(a[0], a[1..], e);
        DatedOnCons(b[0], b[1..], e);
        var head := if a[0].date == e then [a[0]] else [];
        assert head + DatedOn(a[1..], e) == head + DatedOn(b[1..], e);
        assert (head + DatedOn(a[1..], e))[|head|..] == DatedOn(a[1..], e);
        assert (head + DatedOn(b[1..], e))[|head|..] == DatedOn(b[1..], e);
      }
      NewestFirstIsUnique(a[1..], b[1..]);
    }
  }

  /** Any stable newest-first arrangement of `s` is `Sort(s)`: which stable
      sort the JavaScript engine uses cannot change the outcome. */
  lemma SortIsTheStableNewestFirstOrder(s: seq<ArtItem>, r: seq<ArtItem>)
    requires IsNewestFirst(r)
    requires forall d :: DatedOn(r, d) == DatedOn(s, d)
    ensures r == Sort(s)
  {
    forall d
      ensures DatedOn(r, d) == DatedOn(Sort(s), d)
    {
      SortIsStable(s, d);
    }
    SortIsNewestFirstPermutation(s);
    NewestFirstIsUnique(r, Sort(s));
  }
}
