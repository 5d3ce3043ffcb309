/**
  The storage itself: a value index from key to (value, handle of the key's
  expiration slot) and an expiration index of slots (expiration, key), both
  updated in place. The clock is not part of the state: each operation that
  samples it takes the sample as its `now` argument.
 */
module KeyValueStorage {
  import opened LexOrder
  import opened FixedWidth
  import opened Optional
  import opened StorageSpec

  /** Stable handle of one slot of the expiration index (a multimap iterator). */
  type SlotId = nat

  /** One slot of the expiration index: an expiration time and the key it belongs to. */
  datatype Slot = Slot(expiration: u32, key: string)

  /** One entry of the value index: the value and the handle of its key's slot. */
  datatype Entry = Entry(value: string, slot: SlotId)

  /** `k` lies after `bound`, strictly or not (the condition of `upper_bound` or `lower_bound`). */
  predicate Above(bound: string, k: string, strict: bool)
  {
    if strict then Less(bound, k) else LessEq(bound, k)
  }

  class KVStorage {
    /** The expiration index: a multimap from expiration to key, addressed by handle. */
    var slots: map<SlotId, Slot>
    /** The value index: an ordered map from key to value and back-reference. */
    var values: map<string, Entry>
    /** The handle the next inserted slot receives. */
    var nextSlot: SlotId

    /**
      The back-reference invariant: every value-index entry refers to a slot
      that exists and belongs to the same key; every handle in use is below
      `nextSlot`.
     */
    ghost predicate Valid()
      reads this
    {
      && (forall id :: id in slots ==> id < nextSlot)
      && BackReferenced(values, slots)
    }

    /** The abstract contents: each key with its value and the expiration of its slot. */
    ghost function Contents(): Table
      reads this
      requires Valid()
    {
      map k | k in values :: Record(values[k].value, slots[values[k].slot].expiration)
    }

    /** The slots some value-index entry refers to. */
    ghost function Referenced(): set<SlotId>
      reads this
    {
      SlotsOf(values)
    }

    /** Slots of the expiration index that no value-index entry refers to. */
    ghost function Orphans(): set<SlotId>
      reads this
    {
      slots.Keys - Referenced()
    }

    /**
      Builds the storage from `entries`, all written with the one clock
      sample `now`; a key repeated in the batch ends up with its last
      occurrence. Every entry adds one slot.
     */
    constructor (entries: seq<InitEntry>, now: u64)
      ensures Valid()
      ensures Contents() == Loaded(entries, now)
      ensures |slots| == |entries| && nextSlot == |entries|
    {
      slots := map[];
      values := map[];
      nextSlot := 0;
      new;
      var i := 0;
      while i < |entries|
        invariant 0 <= i <= |entries|
        invariant Valid()
        invariant Contents() == Loaded(entries[..i], now)
        invariant |slots| == i && nextSlot == i
      {
        AddWithTimestamp(entries[i].0, entries[i].1, entries[i].2, now);
        assert entries[..i + 1][..i] == entries[..i];
        assert Loaded(entries[..i + 1], now) == Store(Loaded(entries[..i], now), entries[i].0, entries[i].1, entries[i].2, now);
        i := i + 1;
      }
      assert entries[..i] == entries;
    }

    /**
      Writes `value` under `key` with `ttl` at clock sample `now`: a new slot
      is inserted and the key's entry is created or replaced.
     */
    method Set(key: string, value: string, ttl: u32, now: u64)
      requires Valid()
      modifies this
      ensures Valid()
      ensures Contents() == Store(old(Contents()), key, value, ttl, now)
      ensures values == old(values)[key := Entry(value, old(nextSlot))]
      ensures slots == old(slots)[old(nextSlot) := Slot(ExpirationFor(ttl, now), key)]
      ensures nextSlot == old(nextSlot) + 1
      ensures |slots| == |old(slots)| + 1
      ensures Orphans() == if key in old(values) then old(Orphans()) + {old(values[key].slot)} else old(Orphans())
    {
      AddWithTimestamp(key, value, ttl, now);
    }

    /**
      The shared insertion step of the constructor and `Set`. A previous
      slot of `key` is not erased: on an overwrite it becomes an orphan.
     */
    method AddWithTimestamp(key: string, value: string, ttl: u32, time: u64)
      requires Valid()
      modifies this
      ensures Valid()
      ensures Contents() == Store(old(Contents()), key, value, ttl, time)
      ensures values == old(values)[key := Entry(value, old(nextSlot))]
      ensures slots == old(slots)[old(nextSlot) := Slot(ExpirationFor(ttl, time), key)]
      ensures old(nextSlot) !in old(slots)
      ensures nextSlot == old(nextSlot) + 1
      ensures |slots| == |old(slots)| + 1
      ensures Orphans() == if key in old(values) then old(Orphans()) + {old(values[key].slot)} else old(Orphans())
    {
      var expiration := ExpirationFor(ttl, time);
      var slot := nextSlot;
      slots := slots[slot := Slot(expiration, key)];
      nextSlot := nextSlot + 1;
      values := values[key := Entry(value, slot)];
      ReferencedAfterInsert(old(values), old(slots), key, Entry(value, slot));
    }

    /**
      Erases `key` from both indices. Returns whether the key was present;
      an absent key changes nothing. The clock is not consulted.
     */
    method Remove(key: string) returns (removed: bool)
      requires Valid()
      modifies this
      ensures Valid()
      ensures removed == (key in old(values))
      ensures values == old(values) - {key}
      ensures slots == if removed then old(slots) - {old(values[key].slot)} else old(slots)
      ensures removed ==> |slots| == |old(slots)| - 1
      ensures nextSlot == old(nextSlot)
      ensures Contents() == old(Contents()) - {key}
      ensures Orphans() == old(Orphans())
    {
      if key in values {
        var entry := values[key];
        slots := slots - {entry.slot};
        values := values - {key};
        ReferencedAfterErase(old(values), old(slots), key);
        return true;
      }
      return false;
    }

    /**
      The value of `key` if it is present and its stored expiration is
      strictly after the clock sample `now`.
     */
    function Get(key: string, now: u64): (r: Option<string>)
      reads this
      requires Valid()
      ensures r.Some? <==> Live(Contents(), key, now)
      ensures r.Some? ==> r.value == Contents()[key].value
    {
      if key in values && slots[values[key].slot].expiration > now then
        Some(values[key].value)
      else
        None
    }

    /**
      The first key of the value index after `bound`: `upper_bound(bound)`
      when `strict`, `lower_bound(bound)` otherwise; `None` stands for `end()`.
     */
    method Seek(bound: string, strict: bool) returns (it: Option<string>)
      ensures it.Some? ==> it.value in values && Above(bound, it.value, strict)
      ensures forall k :: k in values && Above(bound, k, strict) ==> it.Some? && LessEq(it.value, k)
    {
      it := None;
      var rest := values.Keys;
      while rest != {}
        invariant rest <= values.Keys
        invariant it.Some? ==> it.value in values && Above(bound, it.value, strict)
        invariant forall k :: k in values && k !in rest && Above(bound, k, strict) ==> it.Some? && LessEq(it.value, k)
        decreases rest
      {
        var k :| k in rest;
        if Above(bound, k, strict) {
          if it.None? {
            it := Some(k);
          } else if Less(k, it.value) {
            forall k' | k' in values && k' !in rest && Above(bound, k', strict)
              ensures LessEq(k, k')
            {
              LessThenLessEq(k, it.value, k');
            }
            it := Some(k);
          } else {
            Trichotomy(k, it.value);
          }
        }
        rest := rest - {k};
      }
    }

    /**
      Up to `count` live entries in ascending key order, starting at the
      first key not below `start`; expired entries are skipped, not erased.
     */
    method GetManySorted(start: string, count: u32, now: u64) returns (result: seq<Pair>)
      requires Valid()
      ensures IsScanResult(Contents(), start, count, now, result)
    {
      var it := Seek(start, false);
      NothingBeforeFirst(values.Keys, start, it);
      result := [];
      var remaining: nat := count;
      ghost var visited: set<string> := {};
      while it.Some? && remaining > 0
        invariant it.Some? ==> it.value in values && LessEq(start, it.value)
        invariant visited <= values.Keys
        invariant forall k :: k in values ==> (k in visited <==> LessEq(start, k) && (it.None? || Less(k, it.value)))
        invariant |result| + remaining == count
        invariant StrictlyAscending(result)
        invariant forall i :: 0 <= i < |result| ==>
                    result[i].0 in visited && Live(Contents(), result[i].0, now) && result[i].1 == Contents()[result[i].0].value
        invariant forall k :: k in visited && Live(Contents(), k, now) ==> k in KeysOf(result)
        decreases values.Keys - visited
      {
        var key := it.value;
        var entry := values[key];
        assert Contents()[key] == Record(entry.value, slots[entry.slot].expiration);
        LessIrreflexive(key);
        if slots[entry.slot].expiration > now {
          KeysOfAppend(result, (key, entry.value));
          result := result + [(key, entry.value)];
          remaining := remaining - 1;
        }
        ghost var before := visited;
        visited := visited + {key};
        var next := Seek(key, true);
        AdvanceVisited(values.Keys, start, before, key, next);
        it := next;
      }
      forall k | k in LiveFrom(Contents(), start, now) && (|result| < count || (0 < |result| && LessEq(k, result[|result| - 1].0)))
        ensures k in KeysOf(result)
      {
        if it.Some? {
          LessEqThenLess(k, result[|result| - 1].0, it.value);
        }
      }
    }

    /**
      Always `None`: eviction is not implemented. The clock sample is
      taken and ignored, and nothing changes.
     */
    method RemoveOneExpiredEntry(now: u64) returns (r: Option<Pair>)
      requires Valid()
      ensures r == None
    {
      r := None;
    }
  }

  /** The back-reference invariant of `Valid`, on the two index maps. */
  ghost predicate BackReferenced(values: map<string, Entry>, slots: map<SlotId, Slot>)
  {
    forall k :: k in values ==> values[k].slot in slots && slots[values[k].slot].key == k
  }

  /** The slots referred to by a value index. */
  ghost function SlotsOf(values: map<string, Entry>): set<SlotId>
  {
    set k | k in values :: values[k].slot
  }

  /** Replacing the entry of `key` swaps its old slot (if any) for the new one among the referenced slots. */
  lemma ReferencedAfterInsert(values: map<string, Entry>, slots: map<SlotId, Slot>, key: string, e: Entry)
    requires BackReferenced(values, slots)
    requires e.slot !in slots
    ensures SlotsOf(values[key := e]) ==
            SlotsOf(values) - (if key in values then {values[key].slot} else {}) + {e.slot}
  {
    var after := values[key := e];
    var gone: set<SlotId> := if key in values then {values[key].slot} else {};
    forall id | id in SlotsOf(after)
      ensures id in SlotsOf(values) - gone + {e.slot}
    {
      var k :| k in after && after[k].slot == id;
      if k != key {
        assert values[k].slot == id;
      }
    }
    forall id | id in SlotsOf(values) - gone
      ensures id in SlotsOf(after)
    {
      var k :| k in values && values[k].slot == id;
      assert k != key;
      assert after[k].slot == id;
    }
    assert after[key].slot == e.slot;
  }

  /** Erasing the entry of `key` removes exactly its slot from the referenced slots. */
  lemma ReferencedAfterErase(values: map<string, Entry>, slots: map<SlotId, Slot>, key: string)
    requires BackReferenced(values, slots)
    requires key in values
    ensures SlotsOf(values - {key}) == SlotsOf(values) - {values[key].slot}
  {
    var after := values - {key};
    forall id | id in SlotsOf(after)
      ensures id in SlotsOf(values) - {values[key].slot}
    {
      var k :| k in after && after[k].slot == id;
      assert values[k].slot == id;
    }
    forall id | id in SlotsOf(values) - {values[key].slot}
      ensures id in SlotsOf(after)
    {
      var k :| k in values && values[k].slot == id;
      assert after[k].slot == id;
    }
  }

  /** Before the first key at or after `start`, no key at or after `start` exists. */
  lemma NothingBeforeFirst(keys: set<string>, start: string, first: Option<string>)
    requires forall k :: k in keys && Above(start, k, false) ==> first.Some? && LessEq(first.value, k)
    ensures forall k :: k in keys ==> !(LessEq(start, k) && (first.None? || Less(k, first.value)))
  {
    forall k | k in keys && LessEq(start, k)
      ensures first.Some? && !Less(k, first.value)
    {
      Trichotomy(k, first.value);
    }
  }

  /**
    Stepping the scan from `key` to its successor `next` adds exactly `key`
    to the keys already visited.
   */
  lemma AdvanceVisited(keys: set<string>, start: string, visited: set<string>, key: string, next: Option<string>)
    requires key in keys && LessEq(start, key)
    requires forall k :: k in keys ==> (k in visited <==> LessEq(start, k) && Less(k, key))
    requires next.Some? ==> next.value in keys && Above(key, next.value, true)
    requires forall k :: k in keys && Above(key, k, true) ==> next.Some? && LessEq(next.value, k)
    ensures forall k :: k in keys ==> (k in visited + {key} <==> LessEq(start, k) && (next.None? || Less(k, next.value)))
    ensures next.Some? ==> LessEq(start, next.value)
  {
    forall k | k in keys
      ensures k in visited + {key} <==> LessEq(start, k) && (next.None? || Less(k, next.value))
    {
      Trichotomy(k, key);
      if k in visited {
        if next.Some? {
          LessTransitive(k, key, next.value);
        }
      } else if k != key && LessEq(start, k) {
        Trichotomy(k, next.value);
      } else if k == key && next.Some? {
        assert Less(key, next.value);
      }
    }
    if next.Some? {
      LessEqTransitive(start, key, next.value);
    }
  }
}
