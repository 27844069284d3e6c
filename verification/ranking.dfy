/** An independent description of the newest-first order: the position each
    item of the device's list takes once sorted, computed from the list itself
    without sorting it. */
module Ranking {
  import opened Gallery
  import opened NewestFirst

  /** The sorted position of the item at input position `i`: it follows every
      strictly newer item and every item of the same date listed before it. */
  function Rank(s: seq<ArtItem>, i: nat): nat
    requires i < |s|
  {
    CountNewer(s, s[i].date) + |DatedOn(s[..i], s[i].date)|
  }

  lemma {:induction false} NoneNewer(t: seq<ArtItem>, d: int)
    requires forall k | 0 <= k < |t| :: t[k].date <= d
    ensures CountNewer(t, d) == 0
  {
    if t != [] {
      NoneNewer(t[1..], d);
    }
  }

  lemma {:induction false} CountNewerInsert(x: ArtItem, t: seq<ArtItem>, d: int)
    ensures CountNewer(Insert(x, t), d) == (if x.date > d then 1 else 0) + CountNewer(t, d)
  {
    if t == [] || x.date >= t[0].date {
      CountNewerCons(x, t, d);
    } else {
      CountNewerInsert(x, t[1..], d);
      CountNewerCons(t[0], Insert(x, t[1..]), d);
      assert t == [t[0]] + t[1..];
      CountNewerCons(t[0], t[1..], d);
    }
  }

  /** Sorting neither adds nor removes items newer than any date. */
  lemma {:induction false} CountNewerSort(s: seq<ArtItem>, d: int)
    ensures CountNewer(Sort(s), d) == CountNewer(s, d)
  {
    if s != [] {
      var tail := Sort(s[1..]);
      assert Sort(s) == Insert(s[0], tail);
      CountNewerSort(s[1..], d);
      CountNewerInsert(s[0], tail, d);
      assert s == [s[0]] + s[1..];
      CountNewerCons(s[0], s[1..], d);
    }
  }

  /** In a newest-first list the items newer than `x` form a prefix, and
      `Insert` puts `x` right after that prefix. */
  lemma {:induction false} InsertSplits(x: ArtItem, t: seq<ArtItem>)
    requires IsNewestFirst(t)
    ensures CountNewer(t, x.date) <= |t|
    ensures forall k | 0 <= k < |t| :: (t[k].date > x.date <==> k < CountNewer(t, x.date))
    ensures Insert(x, t) == t[..CountNewer(t, x.date)] + [x] + t[CountNewer(t, x.date)..]
  {
    if t == [] {
    } else if x.date >= t[0].date {
      NoneNewer(t, x.date);
    } else {
      InsertSplits(x, t[1..]);
      assert t == [t[0]] + t[1..];
      CountNewerCons(t[0], t[1..], x.date);
      var p := CountNewer(t[1..], x.date);
      assert t[..p + 1] == [t[0]] + t[1..][..p];
      assert t[p + 1..] == t[1..][p..];
      forall k | 0 <= k < |t|
        ensures t[k].date > x.date <==> k < p + 1
      {
        if k > 0 {
          assert t[k] == t[1..][k - 1];
        }
      }
    }
  }

  lemma RankOfFirst(s: seq<ArtItem>)
    requires s != []
    ensures Rank(s, 0) == CountNewer(s[1..], s[0].date)
  {
    assert s[..0] == [];
  }

  /** Dropping the first item lowers a later item's rank by one exactly when
      that first item would have been placed ahead of it. */
  lemma RankOfLater(s: seq<ArtItem>, i: nat)
    requires 0 < i < |s|
    ensures Rank(s, i) == Rank(s[1..], i - 1) + (if s[0].date >= s[i].date then 1 else 0)
  {
    assert s[1..][i - 1] == s[i];
    CountNewerCons(s[0], s[1..], s[i].date);
    assert s == [s[0]] + s[1..];
    assert s[..i] == [s[0]] + s[1..][..i - 1];
    DatedOnCons(s[0], s[1..][..i - 1], s[i].date);
  }

  /** Sorting moves the item at input position `i` to position `Rank(s, i)`. */
  lemma {:induction false} SortPlacesByRank(s: seq<ArtItem>, i: nat)
    requires i < |s|
    ensures Rank(s, i) < |s|
    ensures Sort(s)[Rank(s, i)] == s[i]
  {
    var t := Sort(s[1..]);
    assert Sort(s) == Insert(s[0], t);
    SortIsNewestFirstPermutation(s[1..]);
    InsertSplits(s[0], t);
    var p := CountNewer(t, s[0].date);
    CountNewerSort(s[1..], s[0].date);
    if i == 0 {
      RankOfFirst(s);
    } else {
      SortPlacesByRank(s[1..], i - 1);
      RankOfLater(s, i);
      var q := Rank(s[1..], i - 1);
      assert t[q] == s[i];
    }
  }

  lemma DatedOnCountsPosition(s: seq<ArtItem>, i: nat, j: nat)
    requires i < j <= |s|
    ensures |DatedOn(s[..j], s[i].date)| >= |DatedOn(s[..i], s[i].date)| + 1
  {
    var d := s[i].date;
    assert s[..j] == s[..i] + ([s[i]] + s[i + 1..j]);
    DatedOnConcat(s[..i], [s[i]] + s[i + 1..j], d);
    DatedOnCons(s[i], s[i + 1..j], d);
  }

  /** Items at least as new as `d2` include all items newer than `d1 > d2`
      and all items dated `d1`. */
  lemma {:induction false} CountNewerGap(s: seq<ArtItem>, d1: int, d2: int)
    requires d2 < d1
    ensures CountNewer(s, d2) >= CountNewer(s, d1) + |DatedOn(s, d1)|
  {
    if s != [] {
      CountNewerGap(s[1..], d1, d2);
    }
  }

  /** The rank orders items newest first, and among equal dates by input
      position; in particular no two input positions share a rank. */
  lemma RankRespectsOrder(s: seq<ArtItem>, i: nat, j: nat)
    requires i < |s| && j < |s|
    requires s[i].date > s[j].date || (s[i].date == s[j].date && i < j)
    ensures Rank(s, i) < Rank(s, j)
  {
    if s[i].date == s[j].date {
      DatedOnCountsPosition(s, i, j);
    } else {
      DatedOnCountsPosition(s, i, |s|);
      assert s[..|s|] == s;
      CountNewerGap(s, s[i].date, s[j].date);
    }
  }

  lemma RankIsInjective(s: seq<ArtItem>, i: nat, j: nat)
    requires i < |s| && j < |s| && i != j
    ensures Rank(s, i) != Rank(s, j)
  {
    if s[i].date > s[j].date || (s[i].date == s[j].date && i < j) {
      RankRespectsOrder(s, i, j);
    } else {
      RankRespectsOrder(s, j, i);
    }
  }
}
