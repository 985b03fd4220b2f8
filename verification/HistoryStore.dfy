/**
 * The storage slot `"terabox-history"` and the two operations that read and
 * overwrite it, `addToHistory` and `getCleanedHistory`. The slot holds the
 * list itself rather than its JSON text; `Entry` keeps apart the three kinds
 * of stored text the source treats differently.
 */
module HistoryStore {
  import opened Wrappers
  import opened Sequences
  import opened History

  /** What a present slot holds. */
  datatype Entry =
    | Blank                      // the empty string, which JavaScript treats as false
    | Garbled                    // text JSON.parse rejects, a non-array, or an array with a null element
    | Encoded(items: seq<Item>)  // the JSON encoding of a list

  /** `JSON.parse`, or a record access on what it returned, threw. */
  datatype Error = MalformedHistory

  /** What one call returns, and the list it writes to the slot, if any. */
  datatype Effect = Effect(result: Result<seq<Item>, Error>, written: Option<seq<Item>>)

  /**
   * The list a slot stands for: an absent slot and the empty string stand for
   * the empty list (`getItem(...) || "[]"`), and `Garbled` text for an
   * error.
   */
  function Load(slot: Option<Entry>): (r: Result<seq<Item>, Error>)
    ensures r.Failure? <==> slot == Some(Garbled)
  {
    match slot
    case None => Success([])
    case Some(Blank) => Success([])
    case Some(Garbled) => Failure(MalformedHistory)
    case Some(Encoded(items)) => Success(items)
  }

  /** The slot after a call that wrote `written`. */
  function AfterWrite(slot: Option<Entry>, written: Option<seq<Item>>): (after: Option<Entry>)
  {
    if written.Some? then Some(Encoded(written.value)) else slot
  }

  /** The number of writes a call with this effect performs. */
  function WriteCount(e: Effect): (n: nat)
  {
    if e.written.Some? then 1 else 0
  }

  /**
   * `addToHistory`: the list built from the stored one, written back whole;
   * `Garbled` stored text fails before anything is written.
   */
  function AddEffect(slot: Option<Entry>, newItem: Item, maxItems: nat, now: int): (e: Effect)
    ensures e.result.Failure? <==> slot == Some(Garbled)
    ensures e.result.Success? ==> e.written == Some(e.result.value)
    ensures e.result.Failure? ==> e.written == None
  {
    match Load(slot)
    case Failure(err) => Effect(Failure(err), None)
    case Success(stored) =>
      var updated := Inserted(stored, newItem, maxItems, now);
      Effect(Success(updated), Some(updated))
  }

  /**
   * `getCleanedHistory`: the stored list without its expired entries, written
   * back only when that removed something; an absent or blank slot gives the
   * empty list at once, and `Garbled` text fails.
   */
  function ReadEffect(slot: Option<Entry>, now: int): (e: Effect)
    ensures e.result.Failure? <==> slot == Some(Garbled)
    ensures e.written.Some? ==> e.result == Success(e.written.value) && slot.Some? && slot.value.Encoded?
  {
    match slot
    case None => Effect(Success([]), None)
    case Some(Blank) => Effect(Success([]), None)
    case Some(Garbled) => Effect(Failure(MalformedHistory), None)
    case Some(Encoded(stored)) =>
      var cleaned := Expire(stored, now);
      Effect(Success(cleaned), if |cleaned| != |stored| then Some(cleaned) else None)
  }

  // ---------------------------------------------------------------------
  // Properties of one call

  /**
   * After `addToHistory` succeeds the slot stands for exactly the returned
   * list, the stored list with the new item inserted, which starts with the new item, is at most `maxItems` long and
   * after its head holds only fresh entries under other names.
   */
  lemma AddEffectFacts(slot: Option<Entry>, newItem: Item, maxItems: nat, now: int)
    requires slot != Some(Garbled)
    ensures var e := AddEffect(slot, newItem, maxItems, now);
            && e.result == Success(Inserted(Load(slot).value, newItem, maxItems, now))
            && Load(AfterWrite(slot, e.written)) == e.result
            && |e.result.value| <= maxItems
            && (maxItems >= 1 ==> e.result.value[0] == newItem)
            && (forall i :: 1 <= i < |e.result.value| ==>
                  e.result.value[i].fileName != newItem.fileName && Fresh(e.result.value[i], now))
  {
    InsertedShape(Load(slot).value, newItem, maxItems, now);
  }

  /**
   * An absent or blank slot reads as the empty list without a write, and
   * `Garbled` text fails without a write.
   */
  lemma ReadEffectUnstored(slot: Option<Entry>, now: int)
    requires slot == None || slot == Some(Blank) || slot == Some(Garbled)
    ensures ReadEffect(slot, now).written == None
    ensures ReadEffect(slot, now).result == if slot == Some(Garbled) then Failure(MalformedHistory) else Success([])
  {
  }

  /**
   * Reading a stored list returns the list cleaned at `now`, so no entry in
   * it has expired; it writes exactly when something was removed, and in
   * every case the slot afterwards stands for the returned list.
   */
  lemma ReadEffectFacts(slot: Option<Entry>, now: int)
    ensures var e := ReadEffect(slot, now);
            && Load(AfterWrite(slot, e.written)) == e.result
            && (e.result.Success? ==> forall i :: 0 <= i < |e.result.value| ==> Fresh(e.result.value[i], now))
            && (slot.Some? && slot.value.Encoded? ==>
                  && e.result == Success(Expire(slot.value.items, now))
                  && (e.written.Some? <==> exists x :: x in slot.value.items && !Fresh(x, now)))
  {
    if slot.Some? && slot.value.Encoded? {
      var stored := slot.value.items;
      ExpireLength(stored, now);
      ExpireOnlyFresh(stored, now);
      if Expire(stored, now) != stored {
        var i :| 0 <= i < |stored| && !Fresh(stored[i], now);
        assert stored[i] in stored;
      }
    }
  }

  /**
   * A second `getCleanedHistory` at the same instant, with nothing in
   * between, writes nothing and returns what the first returned.
   */
  lemma ReadTwice(slot: Option<Entry>, now: int)
    ensures var first := ReadEffect(slot, now);
            var second := ReadEffect(AfterWrite(slot, first.written), now);
            second.written == None && second.result == first.result
  {
    if slot.Some? && slot.value.Encoded? {
      var stored := slot.value.items;
      ExpireIdempotent(stored, now);
      ExpireLength(stored, now);
      ExpireLength(Expire(stored, now), now);
    }
  }

  // ---------------------------------------------------------------------
  // The invariants a stored list keeps

  /** The slot stands for a list whose names are distinct. */
  ghost predicate NamesDistinct(slot: Option<Entry>)
  {
    Load(slot).Success? ==> DistinctNames(Load(slot).value)
  }

  /** Both operations keep the stored names distinct. */
  lemma OperationsKeepNamesDistinct(slot: Option<Entry>, newItem: Item, maxItems: nat, now: int)
    requires NamesDistinct(slot)
    ensures NamesDistinct(AfterWrite(slot, AddEffect(slot, newItem, maxItems, now).written))
    ensures NamesDistinct(AfterWrite(slot, ReadEffect(slot, now).written))
  {
    if Load(slot).Success? {
      InsertedKeepsDistinctNames(Load(slot).value, newItem, maxItems, now);
      ExpireKeepsDistinctNames(Load(slot).value, now);
    }
  }

  // ---------------------------------------------------------------------
  // The slot

  /** Browser storage reduced to the one slot this code uses. */
  class Store {
    /** The value under `"terabox-history"`; `None` when the key is absent. */
    var slot: Option<Entry>
    /** How many times the slot has been written. */
    ghost var writes: nat

    constructor (initial: Option<Entry>)
      ensures slot == initial && writes == 0
    {
      slot := initial;
      writes := 0;
    }

    /** `localStorage.setItem("terabox-history", JSON.stringify(items))`. */
    method SetItem(items: seq<Item>)
      modifies this
      ensures slot == Some(Encoded(items)) && writes == old(writes) + 1
    {
      slot := Some(Encoded(items));
      writes := writes + 1;
    }

    /**
     * `addToHistory`: load, clean, drop the same name, prepend, cut to
     * `maxItems`, store and return.
     */
    method AddToHistory(now: int, newItem: Item, maxItems: nat := 10) returns (r: Result<seq<Item>, Error>)
      modifies this
      ensures r == AddEffect(old(slot), newItem, maxItems, now).result
      ensures slot == AfterWrite(old(slot), AddEffect(old(slot), newItem, maxItems, now).written)
      ensures writes == old(writes) + WriteCount(AddEffect(old(slot), newItem, maxItems, now))
    {
      var existing: seq<Item>;
      match slot {
        case None => existing := [];
        case Some(Blank) => existing := [];
        case Some(Garbled) => return Failure(MalformedHistory);
        case Some(Encoded(items)) => existing := items;
      }
      var cleaned := Expire(existing, now);
      var filtered := WithoutName(cleaned, newItem.fileName);
      var updated := Take([newItem] + filtered, maxItems);
      SetItem(updated);
      r := Success(updated);
    }

    /**
     * `getCleanedHistory`: load, clean, write back only if something was
     * removed, and return the cleaned list.
     */
    method GetCleanedHistory(now: int) returns (r: Result<seq<Item>, Error>)
      modifies this
      ensures r == ReadEffect(old(slot), now).result
      ensures slot == AfterWrite(old(slot), ReadEffect(old(slot), now).written)
      ensures writes == old(writes) + WriteCount(ReadEffect(old(slot), now))
    {
      match slot {
        case None => return Success([]);
        case Some(Blank) => return Success([]);
        case Some(Garbled) => return Failure(MalformedHistory);
        case Some(Encoded(parsed)) =>
          var cleaned := Expire(parsed, now);
          if |cleaned| != |parsed| {
            SetItem(cleaned);
          }
          r := Success(cleaned);
      }
    }
  }

  /** Worked examples of the store's contracts. */
  method Scenarios(now: int)
  {
    // An empty slot reads as the empty list and is not written.
    var store := new Store(None);
    var r := store.GetCleanedHistory(now);
    assert r == Success([]) && store.writes == 0;

    // Adding to an empty slot stores the one new item.
    var a := Item("a.zip", Some(now));
    assert store.slot == None;
    r := store.AddToHistory(now, a);
    assert Expire([], now) == [] && WithoutName([], a.fileName) == [];
    assert [a] + [] == [a];
    assert Inserted([], a, 10, now) == [a];
    assert r == Success([a]) && store.slot == Some(Encoded([a]));

    // Adding the same name again keeps only the newer version.
    var a2 := Item("a.zip", Some(now + 1));
    r := store.AddToHistory(now + 1, a2);
    assert Expire([a], now + 1) == [a] by {
      assert Fresh(a, now + 1);
      assert [a][1..] == [];
    }
    assert WithoutName([a], a2.fileName) == [] by {
      assert [a][1..] == [];
    }
    assert [a2] + [] == [a2];
    assert Inserted([a], a2, 10, now + 1) == [a2];
    assert r == Success([a2]);

    // An entry fetched 25 hours ago is removed and the slot rewritten.
    var stale := Item("b.zip", Some(now - 25 * 60 * 60 * 1000));
    store := new Store(Some(Encoded([stale])));
    r := store.GetCleanedHistory(now);
    assert r == Success([]) && store.slot == Some(Encoded([])) && store.writes == 1;
  }
}
