/**
 * `SimpleMap` of `job_scheduler/src/utils/map.rs`: a map from small `usize`
 * keys to values, kept as a vector of optional slots indexed by key.
 *
 * Two quirks of the slot vector show through the map's interface and are
 * kept here: `insert` resizes the vector to exactly `k + 1` slots, so it
 * drops every slot above `k`, and `contains_key` asks only whether the slot
 * exists, so a key whose value was removed is still "contained".
 */
module SimpleMaps {
  import opened Wrappers

  /** The slots after `resize_with(len, || None)`: the first `len` kept, new ones empty. */
  function Resized<V>(slots: seq<Option<V>>, len: nat): (r: seq<Option<V>>)
    ensures |r| == len
    ensures forall i :: 0 <= i < len ==> r[i] == (if i < |slots| then slots[i] else None)
  {
    if len <= |slots| then slots[..len] else slots + seq(len - |slots|, _ => None)
  }

  /** `contains_key`: the slot exists, whether or not it holds a value. */
  predicate HasKey<V>(slots: seq<Option<V>>, key: nat)
  {
    key < |slots|
  }

  /** `get`: the value of an existing, occupied slot. */
  function Get<V>(slots: seq<Option<V>>, key: nat): (r: Option<V>)
    ensures r.Some? <==> HasKey(slots, key) && slots[key].Some?
    ensures r.Some? ==> slots[key] == r
  {
    if key < |slots| then slots[key] else None
  }

  /** The slots after `insert(k, v)`: exactly `k + 1` of them, `v` in slot `k`. */
  function InsertSlots<V>(slots: seq<Option<V>>, k: nat, v: V): (r: seq<Option<V>>)
    ensures |r| == k + 1 && r[k] == Some(v)
    ensures forall i :: 0 <= i < k ==> r[i] == Get(slots, i)
  {
    Resized(slots, k + 1)[k := Some(v)]
  }

  /** The slots after `remove(k)`: slot `k`, if it exists, emptied; nothing else changes. */
  function RemoveSlots<V>(slots: seq<Option<V>>, k: nat): (r: seq<Option<V>>)
    ensures |r| == |slots|
    ensures forall i :: 0 <= i < |r| && i != k ==> r[i] == slots[i]
    ensures k < |r| ==> r[k] == None
  {
    if k < |slots| then slots[k := None] else slots
  }

  /** Inserting a key drops every key above it, occupied or not. */
  lemma InsertTruncates<V>(slots: seq<Option<V>>, k: nat, v: V, key: nat)
    ensures Get(InsertSlots(slots, k, v), key) == (if key == k then Some(v) else if key < k then Get(slots, key) else None)
    ensures HasKey(InsertSlots(slots, k, v), key) <==> key <= k
  {
  }

  /** After a removal the key has no value, yet `contains_key` still holds for it. */
  lemma RemovedKeyStillContained<V>(slots: seq<Option<V>>, k: nat)
    requires HasKey(slots, k)
    ensures HasKey(RemoveSlots(slots, k), k) && Get(RemoveSlots(slots, k), k).None?
  {
  }

  /** The `(key, value)` pairs of the occupied slots from `from` on, in ascending key order. */
  function OccupiedFrom<V>(slots: seq<Option<V>>, from: nat): (pairs: seq<(nat, V)>)
    ensures |pairs| <= |slots| - from || (from > |slots| && pairs == [])
    decreases |slots| - from
  {
    if from >= |slots| then []
    else
      match slots[from]
      case None => OccupiedFrom(slots, from + 1)
      case Some(v) => [(from, v)] + OccupiedFrom(slots, from + 1)
  }

  /**
   * What `iter_mut` yields: each occupied slot with its key, occupied slots
   * only, each once, in ascending key order.
   */
  lemma {:induction false} OccupiedFromMeaning<V>(slots: seq<Option<V>>, from: nat)
    ensures forall j :: 0 <= j < |OccupiedFrom(slots, from)| ==>
      var (k, v) := OccupiedFrom(slots, from)[j]; from <= k && Get(slots, k) == Some(v)
    ensures forall k :: from <= k < |slots| && slots[k].Some? ==> (k, slots[k].value) in OccupiedFrom(slots, from)
    ensures forall i, j :: 0 <= i < j < |OccupiedFrom(slots, from)| ==>
      OccupiedFrom(slots, from)[i].0 < OccupiedFrom(slots, from)[j].0
    decreases |slots| - from
  {
    if from < |slots| {
      OccupiedFromMeaning(slots, from + 1);
    }
  }

  /** The two ways to reach a key: `entry` returns one of them, holding the map borrowed. */
  datatype Entry = Occupied(key: nat) | Vacant(key: nat)

  /** `entry`: occupied exactly when `contains_key` holds, so an emptied slot is occupied. */
  function EntryOf<V>(slots: seq<Option<V>>, key: nat): (e: Entry)
    ensures e.key == key
    ensures e.Occupied? <==> HasKey(slots, key)
  {
    if HasKey(slots, key) then Occupied(key) else Vacant(key)
  }

  class SimpleMap<V> {
    var inner: seq<Option<V>>

    /** `with_capacity` and `new`: no slots; the capacity is only an allocation hint. */
    constructor (capacity: nat)
      ensures inner == []
    {
      inner := [];
    }

    predicate ContainsKey(key: nat)
      reads this
    {
      HasKey(inner, key)
    }

    function GetValue(key: nat): (r: Option<V>)
      reads this
      ensures r == Get(inner, key)
    {
      Get(inner, key)
    }

    /** `insert`: returns the value slot `k` held, and leaves exactly `k + 1` slots. */
    method Insert(k: nat, v: V) returns (previous: Option<V>)
      modifies this
      ensures previous == Get(old(inner), k)
      ensures inner == InsertSlots(old(inner), k, v)
    {
      previous := Get(inner, k);
      inner := InsertSlots(inner, k, v);
    }

    /** `remove`: takes the value out of slot `k`; the number of slots stays. */
    method Remove(k: nat) returns (previous: Option<V>)
      modifies this
      ensures previous == Get(old(inner), k)
      ensures inner == RemoveSlots(old(inner), k)
    {
      previous := Get(inner, k);
      inner := RemoveSlots(inner, k);
    }

    /** A write through `get_mut` (or `IndexMut`): the slot must hold a value; nothing else changes. */
    method SetExisting(key: nat, v: V)
      requires Get(inner, key).Some?
      modifies this
      ensures inner == old(inner)[key := Some(v)]
    {
      inner := inner[key := Some(v)];
    }

    /** `clear`: every slot goes. */
    method Clear()
      modifies this
      ensures inner == []
    {
      inner := [];
    }

    /** `iter_mut`, read for its order: the occupied slots with their keys. */
    function IterMut(): (pairs: seq<(nat, V)>)
      reads this
      ensures pairs == OccupiedFrom(inner, 0)
    {
      OccupiedFrom(inner, 0)
    }

    /** `entry`. */
    function GetEntry(key: nat): (e: Entry)
      reads this
      ensures e == EntryOf(inner, key)
    {
      EntryOf(inner, key)
    }

    /**
     * `Entry::or_insert`: an occupied entry yields its value, a vacant one
     * inserts the default and yields it.  Reading an occupied entry goes
     * through indexing, which panics on an emptied slot, so the slot must
     * hold a value.
     */
    method OrInsert(e: Entry, default: V) returns (v: V)
      requires e == EntryOf(inner, e.key)
      requires e.Occupied? ==> inner[e.key].Some?
      modifies this
      ensures e.Occupied? ==> inner == old(inner) && Some(v) == old(inner)[e.key]
      ensures e.Vacant? ==> inner == InsertSlots(old(inner), e.key, default) && v == default
    {
      match e
      case Occupied(k) =>
        v := inner[k].value;
      case Vacant(k) =>
        inner := InsertSlots(inner, k, default);
        v := default;
    }

    /**
     * `Entry::and_modify`: applies `f` to an occupied entry's value, which
     * must be there (the same indexing panics otherwise), and leaves a
     * vacant entry alone.  The entry itself is handed back unchanged.
     */
    method AndModify(e: Entry, f: V -> V) returns (e': Entry)
      requires e == EntryOf(inner, e.key)
      requires e.Occupied? ==> inner[e.key].Some?
      modifies this
      ensures e' == e && e' == EntryOf(inner, e.key)
      ensures e.Occupied? ==> inner == old(inner)[e.key := Some(f(old(inner)[e.key].value))]
      ensures e.Vacant? ==> inner == old(inner)
    {
      e' := e;
      match e
      case Occupied(k) =>
        inner := inner[k := Some(f(inner[k].value))];
      case Vacant(_) =>
    }
  }

  /**
   * Deleting a key and then asking for its entry finds it occupied although
   * it has no value: `and_modify` or `or_insert` on it would index an empty
   * slot.
   */
  lemma EmptiedSlotIsOccupiedEntry<V>(slots: seq<Option<V>>, k: nat)
    requires HasKey(slots, k)
    ensures EntryOf(RemoveSlots(slots, k), k).Occupied? && RemoveSlots(slots, k)[k].None?
  {
  }
}
