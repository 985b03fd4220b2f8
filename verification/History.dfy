/**
 * The history list of recently fetched files, as values: an item, the 24-hour
 * expiry rule (`cleanExpiredHistory`) and the list `addToHistory` builds from
 * the stored one. The storage slot itself is modelled in module HistoryStore.
 */
module History {
  import opened Wrappers
  import opened Sequences

  /** Milliseconds in 24 hours, the age at which an entry expires. */
  const DayMs: int := 24 * 60 * 60 * 1000

  /**
   * A history entry: the name of the fetched file and the instant it was
   * fetched, in milliseconds since the epoch. The source keeps `fetchedAt` as
   * an ISO-8601 string and parses it with `new Date`; `None` stands for a
   * string that does not parse, an invalid date.
   */
  datatype Item = Item(fileName: string, fetchedAt: Option<int>)

  /** The instant 24 hours before `now`. */
  function Cutoff(now: int): (t: int)
  {
    now - DayMs
  }

  /**
   * An entry survives expiry when it was fetched strictly after the cutoff.
   * An invalid date compares false against every date, so it never survives.
   */
  predicate Fresh(item: Item, now: int)
  {
    item.fetchedAt.Some? && item.fetchedAt.value > Cutoff(now)
  }

  /** The filter callback of `cleanExpiredHistory`. */
  function FreshAt(now: int): (keep: Item -> bool)
  {
    (item: Item) => Fresh(item, now)
  }

  /** The filter callback that drops entries named `name`. */
  function OtherName(name: string): (keep: Item -> bool)
  {
    (item: Item) => item.fileName != name
  }

  /** `cleanExpiredHistory`, with the clock reading passed in as `now`. */
  function Expire(items: seq<Item>, now: int): (r: seq<Item>)
    ensures |r| <= |items|
  {
    Filter(items, FreshAt(now))
  }

  /** The list without its entries named `name`. */
  function WithoutName(items: seq<Item>, name: string): (r: seq<Item>)
    ensures |r| <= |items|
  {
    Filter(items, OtherName(name))
  }

  /**
   * The list `addToHistory` returns and stores: the stored list with expired
   * entries and entries of the same name removed, `newItem` in front, cut to
   * `maxItems` entries.
   */
  function Inserted(stored: seq<Item>, newItem: Item, maxItems: nat, now: int): (r: seq<Item>)
    ensures |r| <= maxItems
  {
    Take([newItem] + WithoutName(Expire(stored, now), newItem.fileName), maxItems)
  }

  /** No two entries share a file name. */
  ghost predicate DistinctNames(items: seq<Item>)
  {
    forall i, j :: 0 <= i < j < |items| ==> items[i].fileName != items[j].fileName
  }

  /** The file names that occur in the list. */
  ghost function Names(items: seq<Item>): (names: set<string>)
  {
    set x | x in items :: x.fileName
  }

  // ---------------------------------------------------------------------
  // cleanExpiredHistory

  /**
   * An entry is in the cleaned list exactly when it is in the input and was
   * fetched strictly later than 86 400 000 ms before `now`.
   */
  lemma ExpireMembership(items: seq<Item>, now: int, x: Item)
    ensures x in Expire(items, now) <==>
              x in items && x.fetchedAt.Some? && x.fetchedAt.value > now - 86_400_000
  {
    FilterMembership(items, FreshAt(now), x);
  }

  /** Every entry of the cleaned list is fresh. */
  lemma ExpireOnlyFresh(items: seq<Item>, now: int)
    ensures forall i :: 0 <= i < |Expire(items, now)| ==> Fresh(Expire(items, now)[i], now)
  {
    var r := Expire(items, now);
    forall i | 0 <= i < |r| ensures Fresh(r[i], now) {
      FilterMembership(items, FreshAt(now), r[i]);
    }
  }

  /**
   * An entry fetched exactly at the cutoff, or with an invalid date, is
   * removed however often it occurs.
   */
  lemma ExpireDropsBoundary(items: seq<Item>, now: int, x: Item)
    requires x.fetchedAt == Some(now - DayMs) || x.fetchedAt == None
    ensures x !in Expire(items, now)
    ensures multiset(Expire(items, now))[x] == 0
  {
    FilterMembership(items, FreshAt(now), x);
    FilterCount(items, FreshAt(now), x);
  }

  /** Every copy of a fresh entry is kept; no copy of a stale entry is. */
  lemma ExpireCount(items: seq<Item>, now: int, x: Item)
    ensures multiset(Expire(items, now))[x] == if Fresh(x, now) then multiset(items)[x] else 0
  {
    FilterCount(items, FreshAt(now), x);
  }

  /** The cleaned list keeps the order of the input. */
  lemma ExpireIsSubsequence(items: seq<Item>, now: int)
    ensures IsSubsequence(Expire(items, now), items)
  {
    FilterIsSubsequence(items, FreshAt(now));
  }

  /**
   * The cleaned list is never longer than the input, and has the same length
   * exactly when it is the input, which is exactly when nothing was stale.
   */
  lemma ExpireLength(items: seq<Item>, now: int)
    ensures |Expire(items, now)| <= |items|
    ensures |Expire(items, now)| == |items| <==> Expire(items, now) == items
    ensures Expire(items, now) == items <==> forall i :: 0 <= i < |items| ==> Fresh(items[i], now)
  {
    FilterKeepsAll(items, FreshAt(now));
  }

  /** Cleaning twice at the same instant is cleaning once. */
  lemma ExpireIdempotent(items: seq<Item>, now: int)
    ensures Expire(Expire(items, now), now) == Expire(items, now)
  {
    FilterIdempotent(items, FreshAt(now));
  }

  /** A list that keeps the order of a list with distinct names has distinct names. */
  lemma SubsequenceKeepsDistinctNames(a: seq<Item>, b: seq<Item>)
    requires IsSubsequence(a, b)
    requires DistinctNames(b)
    ensures DistinctNames(a)
  {
    var idx :| Embeds(idx, a, b);
    forall i, j | 0 <= i < j < |a| ensures a[i].fileName != a[j].fileName {
      assert idx[i] < idx[j];
    }
  }

  /** Cleaning keeps the names distinct. */
  lemma ExpireKeepsDistinctNames(items: seq<Item>, now: int)
    requires DistinctNames(items)
    ensures DistinctNames(Expire(items, now))
  {
    ExpireIsSubsequence(items, now);
    SubsequenceKeepsDistinctNames(Expire(items, now), items);
  }

  // ---------------------------------------------------------------------
  // addToHistory

  /**
   * The new list holds at most `maxItems` entries and is empty only for
   * `maxItems == 0`; otherwise `newItem` comes first, fresh or not, and every
   * later entry is a fresh entry of the stored list with another name.
   */
  lemma InsertedShape(stored: seq<Item>, newItem: Item, maxItems: nat, now: int)
    ensures |Inserted(stored, newItem, maxItems, now)| <= maxItems
    ensures Inserted(stored, newItem, maxItems, now) == [] <==> maxItems == 0
    ensures maxItems >= 1 ==> Inserted(stored, newItem, maxItems, now)[0] == newItem
    ensures forall i :: 1 <= i < |Inserted(stored, newItem, maxItems, now)| ==>
              var x := Inserted(stored, newItem, maxItems, now)[i];
              x.fileName != newItem.fileName && Fresh(x, now) && x in stored
  {
    var r := Inserted(stored, newItem, maxItems, now);
    var survivors := WithoutName(Expire(stored, now), newItem.fileName);
    forall i | 1 <= i < |r|
      ensures r[i].fileName != newItem.fileName && Fresh(r[i], now) && r[i] in stored
    {
      assert r[i] == survivors[i - 1];
      FilterMembership(Expire(stored, now), OtherName(newItem.fileName), r[i]);
      FilterMembership(stored, FreshAt(now), r[i]);
    }
  }

  /**
   * After the head come the surviving stored entries, in stored order, cut
   * short only when the list is full.
   */
  lemma InsertedTail(stored: seq<Item>, newItem: Item, maxItems: nat, now: int)
    requires maxItems >= 1
    ensures var r := Inserted(stored, newItem, maxItems, now);
            var survivors := WithoutName(Expire(stored, now), newItem.fileName);
            && r[1..] <= survivors
            && (|r| < maxItems ==> r[1..] == survivors)
  {
  }

  /**
   * A fresh stored entry with another name is dropped only when the new list
   * is full.
   */
  lemma InsertedKeepsSurvivors(stored: seq<Item>, newItem: Item, maxItems: nat, now: int, x: Item)
    requires x in stored && Fresh(x, now) && x.fileName != newItem.fileName
    requires |Inserted(stored, newItem, maxItems, now)| < maxItems
    ensures x in Inserted(stored, newItem, maxItems, now)
  {
    var survivors := WithoutName(Expire(stored, now), newItem.fileName);
    FilterMembership(stored, FreshAt(now), x);
    FilterMembership(Expire(stored, now), OtherName(newItem.fileName), x);
    assert Inserted(stored, newItem, maxItems, now) == [newItem] + survivors;
  }

  /** If the stored names are distinct, so are the names of the new list. */
  lemma InsertedKeepsDistinctNames(stored: seq<Item>, newItem: Item, maxItems: nat, now: int)
    requires DistinctNames(stored)
    ensures DistinctNames(Inserted(stored, newItem, maxItems, now))
  {
    var expired := Expire(stored, now);
    var survivors := WithoutName(expired, newItem.fileName);
    var whole := [newItem] + survivors;
    ExpireKeepsDistinctNames(stored, now);
    FilterIsSubsequence(expired, OtherName(newItem.fileName));
    SubsequenceKeepsDistinctNames(survivors, expired);
    forall i, j | 0 <= i < j < |whole| ensures whole[i].fileName != whole[j].fileName {
      if i == 0 {
        assert whole[j] == survivors[j - 1];
        FilterMembership(expired, OtherName(newItem.fileName), survivors[j - 1]);
      } else {
        assert whole[i] == survivors[i - 1] && whole[j] == survivors[j - 1];
      }
    }
  }

  // ---------------------------------------------------------------------
  // A run of addToHistory calls

  /**
   * The list left by calling `addToHistory` with each of `adds` in turn,
   * starting from an empty slot, all at the instant `now`.
   */
  function Replay(adds: seq<Item>, maxItems: nat, now: int): (r: seq<Item>)
    ensures |r| <= maxItems
    decreases |adds|
  {
    if |adds| == 0 then []
    else Inserted(Replay(adds[..|adds| - 1], maxItems, now), adds[|adds| - 1], maxItems, now)
  }

  /**
   * The latest version of every name added, most recent first, with no cap:
   * an independent account of what the history should remember.
   */
  function Recency(adds: seq<Item>): (r: seq<Item>)
    decreases |adds|
  {
    if |adds| == 0 then []
    else
      var last := adds[|adds| - 1];
      [last] + WithoutName(Recency(adds[..|adds| - 1]), last.fileName)
  }

  /** Putting an entry in front of a list without its name keeps the names distinct. */
  lemma PrependKeepsDistinctNames(head: Item, rest: seq<Item>)
    requires DistinctNames(rest)
    requires forall x :: x in rest ==> x.fileName != head.fileName
    ensures DistinctNames([head] + rest)
  {
    var r := [head] + rest;
    forall i, j | 0 <= i < j < |r| ensures r[i].fileName != r[j].fileName {
      assert r[j] == rest[j - 1];
      if i > 0 {
        assert r[i] == rest[i - 1];
      }
    }
  }

  /** Removing a name removes exactly that name from the name set. */
  lemma WithoutNameNames(items: seq<Item>, name: string)
    ensures Names(WithoutName(items, name)) == Names(items) - {name}
    ensures forall x :: x in WithoutName(items, name) ==> x in items && x.fileName != name
  {
    forall x ensures x in WithoutName(items, name) <==> x in items && x.fileName != name {
      FilterMembership(items, OtherName(name), x);
    }
  }

  /** Recency lists only added entries, under distinct names, and covers every added name. */
  lemma {:induction false} RecencyFacts(adds: seq<Item>)
    ensures forall x :: x in Recency(adds) ==> x in adds
    ensures DistinctNames(Recency(adds))
    ensures Names(Recency(adds)) == Names(adds)
  {
    if |adds| > 0 {
      var init, last := adds[..|adds| - 1], adds[|adds| - 1];
      assert adds == init + [last];
      var prior := Recency(init);
      var rest := WithoutName(prior, last.fileName);
      RecencyFacts(init);
      WithoutNameNames(prior, last.fileName);
      FilterIsSubsequence(prior, OtherName(last.fileName));
      SubsequenceKeepsDistinctNames(rest, prior);
      PrependKeepsDistinctNames(last, rest);
      assert Names([last] + rest) == {last.fileName} + Names(rest);
    }
  }

  /**
   * Every entry of Recency is the latest version of its name: it was added,
   * and nothing of the same name was added after it.
   */
  lemma {:induction false} RecencyLatest(adds: seq<Item>, x: Item)
    requires x in Recency(adds)
    ensures exists k :: 0 <= k < |adds| && adds[k] == x &&
              forall j :: k < j < |adds| ==> adds[j].fileName != x.fileName
  {
    var init, last := adds[..|adds| - 1], adds[|adds| - 1];
    if x != last {
      var prior := Recency(init);
      FilterMembership(prior, OtherName(last.fileName), x);
      RecencyLatest(init, x);
      var k :| 0 <= k < |init| && init[k] == x &&
               forall j :: k < j < |init| ==> init[j].fileName != x.fileName;
      assert adds[k] == x;
      forall j | k < j < |adds| ensures adds[j].fileName != x.fileName {
        if j < |init| {
          assert adds[j] == init[j];
        }
      }
    } else {
      var k := |adds| - 1;
      assert adds[k] == x;
    }
  }

  /**
   * `adds[k]` is `x`, and no entry named `name` was added at `k` or later.
   */
  ghost predicate AddedAfterLast(adds: seq<Item>, k: int, x: Item, name: string)
  {
    0 <= k < |adds| && adds[k] == x && forall m :: k <= m < |adds| ==> adds[m].fileName != name
  }

  /** Adding one more entry under another name keeps the witness. */
  lemma AddedAfterLastExtend(init: seq<Item>, last: Item, k: int, x: Item, name: string)
    requires AddedAfterLast(init, k, x, name)
    requires last.fileName != name
    ensures AddedAfterLast(init + [last], k, x, name)
  {
    var adds := init + [last];
    forall m | k <= m < |adds| ensures adds[m].fileName != name {
      if m < |init| {
        assert adds[m] == init[m];
      }
    }
  }

  /**
   * Recency is newest first: of two of its entries, the earlier one was
   * added after every add of the later one's name.
   */
  lemma {:induction false} RecencyOrder(adds: seq<Item>, i: int, j: int)
    requires 0 <= i < j < |Recency(adds)|
    ensures exists k :: AddedAfterLast(adds, k, Recency(adds)[i], Recency(adds)[j].fileName)
  {
    var init, last := adds[..|adds| - 1], adds[|adds| - 1];
    assert adds == init + [last];
    var prior := Recency(init);
    var rest := WithoutName(prior, last.fileName);
    var r := Recency(adds);
    assert r == [last] + rest;
    var y := rest[j - 1];
    assert r[j] == y;
    FilterMembership(prior, OtherName(last.fileName), y);
    if i == 0 {
      assert AddedAfterLast(adds, |adds| - 1, r[i], y.fileName);
    } else {
      var x := rest[i - 1];
      assert r[i] == x;
      var idx := FilterEmbedding(prior, OtherName(last.fileName));
      RecencyOrder(init, idx[i - 1], idx[j - 1]);
      var k :| AddedAfterLast(init, k, prior[idx[i - 1]], prior[idx[j - 1]].fileName);
      AddedAfterLastExtend(init, last, k, x, y.fileName);
    }
  }

  /** A list with distinct names has as many entries as names. */
  lemma {:induction false} DistinctNamesCount(items: seq<Item>)
    requires DistinctNames(items)
    ensures |Names(items)| == |items|
  {
    if |items| > 0 {
      var tail := items[1..];
      assert DistinctNames(tail) by {
        forall i, j | 0 <= i < j < |tail| ensures tail[i].fileName != tail[j].fileName {
          assert tail[i] == items[i + 1] && tail[j] == items[j + 1];
        }
      }
      DistinctNamesCount(tail);
      assert items == [items[0]] + tail;
      assert Names(items) == {items[0].fileName} + Names(tail);
      assert items[0].fileName !in Names(tail);
    }
  }

  /**
   * Cutting a list with distinct names to `maxItems` before removing a name
   * and then to `maxItems - 1` gives what removing the name and cutting to
   * `maxItems - 1` gives: the cut drops nothing the later cut would keep.
   */
  lemma CutBeforeRemoval(items: seq<Item>, name: string, maxItems: nat)
    requires DistinctNames(items)
    requires maxItems >= 1
    ensures Take(WithoutName(Take(items, maxItems), name), maxItems - 1)
         == Take(WithoutName(items, name), maxItems - 1)
  {
    if maxItems < |items| {
      var front, back := items[..maxItems], items[maxItems..];
      assert items == front + back;
      FilterAppend(front, back, OtherName(name));
      forall i, j | 0 <= i < j < |front|
        ensures OtherName(name)(front[i]) || OtherName(name)(front[j])
      {
        assert front[i] == items[i] && front[j] == items[j];
      }
      FilterDropsAtMostOne(front, OtherName(name));
    }
  }

  /** If every added entry is fresh, so is every entry of Recency. */
  lemma RecencyFresh(adds: seq<Item>, now: int)
    requires forall i :: 0 <= i < |adds| ==> Fresh(adds[i], now)
    ensures forall i :: 0 <= i < |Recency(adds)| ==> Fresh(Recency(adds)[i], now)
  {
    RecencyFacts(adds);
    forall i | 0 <= i < |Recency(adds)| ensures Fresh(Recency(adds)[i], now) {
      assert Recency(adds)[i] in adds;
    }
  }

  /** One step of the run: inserting into the capped Recency gives the next capped Recency. */
  lemma {:induction false} ReplayStep(adds: seq<Item>, maxItems: nat, now: int)
    requires |adds| > 0
    requires forall i :: 0 <= i < |adds| ==> Fresh(adds[i], now)
    ensures var init, last := adds[..|adds| - 1], adds[|adds| - 1];
            Inserted(Take(Recency(init), maxItems), last, maxItems, now) == Take(Recency(adds), maxItems)
  {
    var init, last := adds[..|adds| - 1], adds[|adds| - 1];
    var prior := Recency(init);
    var kept := Take(prior, maxItems);
    RecencyFresh(init, now);
    assert forall i :: 0 <= i < |kept| ==> kept[i] == prior[i];
    ExpireLength(kept, now);
    if maxItems >= 1 {
      RecencyFacts(init);
      CutBeforeRemoval(prior, last.fileName, maxItems);
      calc {
        Inserted(kept, last, maxItems, now);
        Take([last] + WithoutName(kept, last.fileName), maxItems);
        [last] + Take(WithoutName(kept, last.fileName), maxItems - 1);
        [last] + Take(WithoutName(prior, last.fileName), maxItems - 1);
        Take([last] + WithoutName(prior, last.fileName), maxItems);
      }
    }
  }

  /**
   * When every added entry is still fresh, a run of `addToHistory` calls
   * leaves the `maxItems` most recently added names, each in its latest
   * version, most recent first; the count is the smaller of `maxItems` and
   * the number of distinct names added.
   */
  lemma {:induction false} ReplayKeepsMostRecent(adds: seq<Item>, maxItems: nat, now: int)
    requires forall i :: 0 <= i < |adds| ==> Fresh(adds[i], now)
    ensures Replay(adds, maxItems, now) == Take(Recency(adds), maxItems)
    ensures |Replay(adds, maxItems, now)| ==
              if maxItems < |Names(adds)| then maxItems else |Names(adds)|
  {
    if |adds| > 0 {
      var init := adds[..|adds| - 1];
      assert forall i :: 0 <= i < |init| ==> init[i] == adds[i];
      ReplayKeepsMostRecent(init, maxItems, now);
      ReplayStep(adds, maxItems, now);
    }
    RecencyFacts(adds);
    DistinctNamesCount(Recency(adds));
  }

  /** When the added names are distinct, Recency is the added entries, newest first. */
  lemma {:induction false} RecencyOfDistinct(adds: seq<Item>)
    requires DistinctNames(adds)
    ensures Recency(adds) == Reverse(adds)
  {
    if |adds| > 0 {
      var init, last := adds[..|adds| - 1], adds[|adds| - 1];
      assert DistinctNames(init) by {
        forall i, j | 0 <= i < j < |init| ensures init[i].fileName != init[j].fileName {
          assert init[i] == adds[i] && init[j] == adds[j];
        }
      }
      RecencyOfDistinct(init);
      var prior := Recency(init);
      RecencyFacts(init);
      forall i | 0 <= i < |prior| ensures OtherName(last.fileName)(prior[i]) {
        assert prior[i] in init;
        var k :| 0 <= k < |init| && init[k] == prior[i];
        assert adds[k] == init[k];
      }
      FilterKeepsAll(prior, OtherName(last.fileName));
    }
  }

  /**
   * A run of inserts of fresh entries under distinct names keeps the last
   * `maxItems` of them, newest first: once the list is full, each insert
   * evicts the oldest entry.
   */
  lemma ReplayOfDistinct(adds: seq<Item>, maxItems: nat, now: int)
    requires forall i :: 0 <= i < |adds| ==> Fresh(adds[i], now)
    requires DistinctNames(adds)
    ensures Replay(adds, maxItems, now) == Take(Reverse(adds), maxItems)
  {
    ReplayKeepsMostRecent(adds, maxItems, now);
    RecencyOfDistinct(adds);
  }
}
