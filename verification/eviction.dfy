/** The gallery eviction policy of `sendToTV`: when a positive bound is set,
    list the device's art newest first and delete everything past the bound. */
module Eviction {
  import opened Gallery
  import opened NewestFirst
  import opened Ranking

  /** The guard `maxItems && maxItems > 0`: an unset, zero or negative bound
      switches eviction off altogether. */
  predicate EvictionEnabled(maxItems: Option<int>) {
    maxItems.Some? && maxItems.value > 0
  }

  function Min(a: nat, b: nat): nat {
    if a <= b then a else b
  }

  /** The items that stay on the device: the first `maxItems` of the sorted list. */
  function Kept(items: seq<ArtItem>, maxItems: nat): seq<ArtItem> {
    Sort(items)[..Min(maxItems, |items|)]
  }

  /** The items that are deleted: `items.slice(maxItems)` of the sorted list,
      which is empty when the list is no longer than the bound. */
  function Evicted(items: seq<ArtItem>, maxItems: nat): seq<ArtItem> {
    Sort(items)[Min(maxItems, |items|)..]
  }

  /** The guarded block: the ids handed to `deleteArt`, or `None` when the
      list is within the bound and no deletion is issued. The loop spells out
      `items.slice(maxItems).map(item => item.id)` one element at a time. */
  method DeletionFor(items: seq<ArtItem>, maxItems: int) returns (ids: Option<seq<Id>>)
    requires maxItems > 0
    ensures ids.Some? <==> |items| > maxItems
    ensures ids.Some? ==> |ids.value| == |items| - maxItems
    ensures ids.Some? ==> ids.value == Ids(Evicted(items, maxItems))
  {
    var sorted := Sort(items);
    if |sorted| <= maxItems {
      return None;
    }
    var excess := sorted[maxItems..];
    var out: seq<Id> := [];
    var k := 0;
    while k < |excess|
      invariant k <= |excess|
      invariant |out| == k
      invariant forall j | 0 <= j < k :: out[j] == excess[j].id
    {
      out := out + [excess[k].id];
      k := k + 1;
    }
    assert excess == Evicted(items, maxItems);
    ids := Some(out);
  }

  /** The sorted list is the kept items followed by the evicted ones. */
  lemma SortedIsKeptThenEvicted(items: seq<ArtItem>, maxItems: nat)
    ensures Sort(items) == Kept(items, maxItems) + Evicted(items, maxItems)
  {
  }

  /** Kept and evicted items split the fetched list: together they are exactly
      the fetched items, the kept ones number `min(maxItems, count)`, and every
      kept item is at least as new as every evicted one. */
  lemma EvictionPartition(items: seq<ArtItem>, maxItems: nat)
    ensures multiset(Kept(items, maxItems)) + multiset(Evicted(items, maxItems)) == multiset(items)
    ensures |Kept(items, maxItems)| == Min(maxItems, |items|)
    ensures |Evicted(items, maxItems)| == |items| - Min(maxItems, |items|)
    ensures forall a, b | 0 <= a < |Kept(items, maxItems)| && 0 <= b < |Evicted(items, maxItems)| ::
              Kept(items, maxItems)[a].date >= Evicted(items, maxItems)[b].date
  {
    var sorted := Sort(items);
    var kept, evicted := Kept(items, maxItems), Evicted(items, maxItems);
    SortIsNewestFirstPermutation(items);
    SortedIsKeptThenEvicted(items, maxItems);
    assert multiset(sorted) == multiset(kept) + multiset(evicted);
    NewestFirstSplit(kept, evicted);
  }

  /** When a newest-first list is cut in two, the front half is nowhere older
      than the back half. */
  lemma NewestFirstSplit(front: seq<ArtItem>, back: seq<ArtItem>)
    requires IsNewestFirst(front + back)
    ensures forall a, b | 0 <= a < |front| && 0 <= b < |back| :: front[a].date >= back[b].date
  {
    var whole := front + back;
    forall a, b | 0 <= a < |front| && 0 <= b < |back|
      ensures front[a].date >= back[b].date
    {
      assert front[a] == whole[a];
      assert back[b] == whole[|front| + b];
    }
  }

  /** Within every date, the kept items followed by the evicted ones are the
      items of that date in the device's order: equal-dated items are evicted
      from the end of the device's list, never out of it. */
  lemma EvictionFollowsListOrder(items: seq<ArtItem>, maxItems: nat, d: int)
    ensures DatedOn(Kept(items, maxItems), d) + DatedOn(Evicted(items, maxItems), d) == DatedOn(items, d)
  {
    SortedIsKeptThenEvicted(items, maxItems);
    DatedOnConcat(Kept(items, maxItems), Evicted(items, maxItems), d);
    SortIsStable(items, d);
  }

  /** The item at input position `i` is kept exactly when fewer than
      `maxItems` items outrank it, newer items and equally dated items listed
      before it; it lands at its rank among the kept or the evicted items. */
  lemma KeptIffRankBelowBound(items: seq<ArtItem>, maxItems: nat, i: nat)
    requires i < |items|
    ensures Rank(items, i) < |items|
    ensures Rank(items, i) < maxItems ==> Kept(items, maxItems)[Rank(items, i)] == items[i]
    ensures Rank(items, i) >= maxItems ==>
              Evicted(items, maxItems)[Rank(items, i) - maxItems] == items[i]
  {
    SortPlacesByRank(items, i);
  }

  /** With no more items than the bound, nothing is evicted. */
  lemma WithinBoundKeepsAll(items: seq<ArtItem>, maxItems: nat)
    requires |items| <= maxItems
    ensures Evicted(items, maxItems) == []
    ensures multiset(Kept(items, maxItems)) == multiset(items)
  {
    SortIsNewestFirstPermutation(items);
    assert Sort(items)[..|items|] == Sort(items);
  }

  /** Five items dated 5, 3, 4, 1, 2 with a bound of 3: the items dated 5, 4
      and 3 stay, and the ones dated 2 and 1 are deleted, newest first. */
  lemma FiveItemsBoundThree(a: Id, b: Id, c: Id, d: Id, e: Id)
    ensures var items := [ArtItem(a, 5), ArtItem(b, 3), ArtItem(c, 4), ArtItem(d, 1), ArtItem(e, 2)];
            && Kept(items, 3) == [ArtItem(a, 5), ArtItem(c, 4), ArtItem(b, 3)]
            && Ids(Evicted(items, 3)) == [e, d]
  {
    var items := [ArtItem(a, 5), ArtItem(b, 3), ArtItem(c, 4), ArtItem(d, 1), ArtItem(e, 2)];
    FiveItemsKept(items);
    FiveItemsEvicted(items);
  }

  lemma FiveItemsKept(s: seq<ArtItem>)
    requires |s| == 5
    requires s[0].date == 5 && s[1].date == 3 && s[2].date == 4 && s[3].date == 1 && s[4].date == 2
    ensures Kept(s, 3) == [s[0], s[2], s[1]]
  {
    FiveItemRanks(s);
    EvictionPartition(s, 3);
    KeptIffRankBelowBound(s, 3, 0);
    KeptIffRankBelowBound(s, 3, 1);
    KeptIffRankBelowBound(s, 3, 2);
  }

  lemma FiveItemsEvicted(s: seq<ArtItem>)
    requires |s| == 5
    requires s[0].date == 5 && s[1].date == 3 && s[2].date == 4 && s[3].date == 1 && s[4].date == 2
    ensures Evicted(s, 3) == [s[4], s[3]]
  {
    FiveItemRanks(s);
    EvictionPartition(s, 3);
    KeptIffRankBelowBound(s, 3, 3);
    KeptIffRankBelowBound(s, 3, 4);
  }

  lemma FiveItemRanks(s: seq<ArtItem>)
    requires |s| == 5
    requires s[0].date == 5 && s[1].date == 3 && s[2].date == 4 && s[3].date == 1 && s[4].date == 2
    ensures Rank(s, 0) == 0 && Rank(s, 1) == 2 && Rank(s, 2) == 1 && Rank(s, 3) == 4 && Rank(s, 4) == 3
  {
    forall i | 0 <= i < 5
      ensures DatedOn(s[..i], s[i].date) == []
    {
      NotDatedOn(s[..i], s[i].date);
    }
    forall t: int
      ensures CountNewer(s, t) == (if 5 > t then 1 else 0) + (if 3 > t then 1 else 0)
                + (if 4 > t then 1 else 0) + (if 1 > t then 1 else 0) + (if 2 > t then 1 else 0)
    {
      assert s == [s[0]] + ([s[1]] + ([s[2]] + ([s[3]] + ([s[4]] + []))));
      CountNewerCons(s[0], s[1..], t);
      CountNewerCons(s[1], s[2..], t);
      CountNewerCons(s[2], s[3..], t);
      CountNewerCons(s[3], s[4..], t);
      CountNewerCons(s[4], s[5..], t);
      assert s[1..] == [s[1]] + s[2..];
      assert s[2..] == [s[2]] + s[3..];
      assert s[3..] == [s[3]] + s[4..];
      assert s[4..] == [s[4]] + s[5..];
      assert s[5..] == [];
    }
  }

  lemma {:induction false} NotDatedOn(s: seq<ArtItem>, d: int)
    requires forall k | 0 <= k < |s| :: s[k].date != d
    ensures DatedOn(s, d) == []
  {
    if s != [] {
      NotDatedOn(s[1..], d);
    }
  }
}
