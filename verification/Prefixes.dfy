/** The pool of shared path prefixes (`PrefixPool`). */
module Prefixes {
  import opened Common

  // An open-addressed table with linear probing under a hard byte limit (`src/compact_index.rs`).

  const BOX_BYTES := 16
  const ID_BYTES := 4
  const SELF_BYTES := 80

  /** The keyed hash of the pool, of which nothing but being a function is used. */
  type Hash = Text -> nat

  /** `hash & (n - 1)`; `n` is a power of two. */
  function Home(hash: Hash, value: Text, n: nat): (slot: nat)
    requires n > 0
    ensures slot < n
  {
    hash(value) % n
  }

  /** The sizes for which `hash & (n - 1)` is the remainder by `n`. */
  predicate IsPowerOfTwo(n: nat) {
    n == 1 || (n > 1 && n % 2 == 0 && IsPowerOfTwo(n / 2))
  }

  /** `(slot + 1) & (n - 1)` */
  function Next(slot: nat, n: nat): (next: nat)
    requires slot < n
    ensures next < n
  {
    if slot + 1 == n then 0 else slot + 1
  }

  /** The slot after `k` probing steps. */
  function At(home: nat, k: nat, n: nat): (slot: nat)
    requires home < n && k < n
    ensures slot < n
  {
    if home + k < n then home + k else home + k - n
  }

  /** The steps from home to a slot. */
  function StepsTo(home: nat, slot: nat, n: nat): (k: nat)
    requires home < n && slot < n
    ensures k < n && At(home, k, n) == slot
  {
    if slot >= home then slot - home else slot + n - home
  }

  ghost predicate Distinct(values: seq<Text>) {
    forall i, j :: 0 <= i < |values| && 0 <= j < |values| && values[i] == values[j] ==> i == j
  }

  /** An id sits `steps` after the home of its value, behind occupied slots only. */
  ghost predicate Seated(slots: seq<int>, home: nat, steps: nat, id: nat) {
    && home < |slots| && steps < |slots|
    && slots[At(home, steps, |slots|)] == id
    && forall k :: 0 <= k < steps ==> slots[At(home, k, |slots|)] != NO_PREFIX
  }

  /** Every id is seated, and every occupied slot holds the id that is seated there. */
  ghost predicate Indexed(hash: Hash, values: seq<Text>, slots: seq<int>, steps: seq<nat>) {
    && |steps| == |values| < NO_PREFIX && (values != [] ==> slots != [])
    && (forall i :: 0 <= i < |values| ==> slots != [] && Seated(slots, Home(hash, values[i], |slots|), steps[i], i))
    && forall s :: 0 <= s < |slots| && slots[s] != NO_PREFIX ==> HoldsItsId(hash, values, slots, steps, s)
  }

  ghost predicate HoldsItsId(hash: Hash, values: seq<Text>, slots: seq<int>, steps: seq<nat>, s: nat)
    requires |steps| == |values| && s < |slots|
  {
    && 0 <= slots[s] < |values| && steps[slots[s]] < |slots|
    && At(Home(hash, values[slots[s]], |slots|), steps[slots[s]], |slots|) == s
  }

  // ---------- an empty slot exists ----------

  lemma {:induction false} PigeonHole(ids: seq<int>, m: nat)
    requires forall i :: 0 <= i < |ids| ==> 0 <= ids[i] < m
    requires forall i, j :: 0 <= i < j < |ids| ==> ids[i] != ids[j]
    ensures |ids| <= m
    decreases m
  {
    assert ids != [] ==> 0 <= ids[0] < m;
    if m > 0 && m - 1 in ids {
      var k :| 0 <= k < |ids| && ids[k] == m - 1;
      var rest := ids[..k] + ids[k + 1..];
      forall i | 0 <= i < |rest| ensures rest[i] == ids[if i < k then i else i + 1] {
      }
      PigeonHole(rest, m - 1);
    } else if m > 0 {
      PigeonHole(ids, m - 1);
    }
  }

  /** A table that is not full has an empty slot, so probing from any home ends. */
  lemma {:induction false} SomeSlotIsEmpty(hash: Hash, values: seq<Text>, slots: seq<int>, steps: seq<nat>, home: nat)
    requires Indexed(hash, values, slots, steps) && |values| < |slots| && home < |slots|
    ensures exists k :: 0 <= k < |slots| && slots[At(home, k, |slots|)] == NO_PREFIX
  {
    if forall k :: 0 <= k < |slots| ==> slots[At(home, k, |slots|)] != NO_PREFIX {
      forall s | 0 <= s < |slots| ensures slots[s] != NO_PREFIX && HoldsItsId(hash, values, slots, steps, s) {
        var k := StepsTo(home, s, |slots|);
        assert slots[At(home, k, |slots|)] != NO_PREFIX;
      }
      PigeonHole(slots, |values|);
    }
  }

  /** Seating one more id keeps the others seated. */
  lemma {:induction false} OneMoreSeated(hash: Hash, values: seq<Text>, slots: seq<int>, steps: seq<nat>, value: Text,
                                         k: nat)
    requires Indexed(hash, values, slots, steps) && |values| + 1 < NO_PREFIX && slots != [] && k < |slots|
    requires var home := Home(hash, value, |slots|);
             slots[At(home, k, |slots|)] == NO_PREFIX && forall j :: 0 <= j < k ==>
                 slots[At(home, j, |slots|)] != NO_PREFIX
    ensures var s := At(Home(hash, value, |slots|), k, |slots|);
            Indexed(hash, values + [value], slots[s := |values|], steps + [k])
  {
    var home := Home(hash, value, |slots|);
    var s := At(home, k, |slots|);
    var slots', values', steps' := slots[s := |values|], values + [value], steps + [k];
    assert Seated(slots', home, k, |values|) by {
      forall j | 0 <= j < k ensures slots'[At(home, j, |slots|)] != NO_PREFIX {
      }
    }
    forall i | 0 <= i < |values| ensures Seated(slots', Home(hash, values[i], |slots|), steps[i], i) {
      var from := Home(hash, values[i], |slots|);
      assert Seated(slots, from, steps[i], i);
    }
    forall t | 0 <= t < |slots'| && slots'[t] != NO_PREFIX ensures HoldsItsId(hash, values', slots', steps', t) {
      if t != s {
        assert HoldsItsId(hash, values, slots, steps, t);
      }
    }
  }

  /** `insert_slot` */
  method InsertSlot(hash: Hash, ghost values: seq<Text>, slots: seq<int>, ghost steps: seq<nat>, id: nat, value: Text)
    returns (next: seq<int>, ghost k: nat)
    requires Indexed(hash, values, slots, steps) && |values| < |slots| && id == |values| && id + 1 < NO_PREFIX
    ensures |next| == |slots| && Indexed(hash, values + [value], next, steps + [k])
  {
    var home := Home(hash, value, |slots|);
    var slot := home;
    k := 0;
    SomeSlotIsEmpty(hash, values, slots, steps, home);
    ghost var empty :| 0 <= empty < |slots| && slots[At(home, empty, |slots|)] == NO_PREFIX;
    while slots[slot] != NO_PREFIX
      invariant k <= empty && slot == At(home, k, |slots|)
      invariant forall j :: 0 <= j < k ==> slots[At(home, j, |slots|)] != NO_PREFIX
      decreases empty - k
    {
      slot := Next(slot, |slots|);
      k := k + 1;
    }
    OneMoreSeated(hash, values, slots, steps, value, k);
    next := slots[slot := id];
  }

  // ---------- the pool ----------

  /** The first table has 32 slots, and growth doubles it. */
  lemma {:induction false} Doubling(n: nat)
    requires n == 0 || IsPowerOfTwo(n)
    ensures IsPowerOfTwo(Max(n * 2, 32))
  {
    assert IsPowerOfTwo(2) && IsPowerOfTwo(4) && IsPowerOfTwo(8) && IsPowerOfTwo(16) && IsPowerOfTwo(32);
    if n * 2 > 32 {
      assert n * 2 / 2 == n;
    }
  }

  /** Bytes of a pool with the given capacities, itself included. */
  function PoolBytes(payload: nat, entries: nat, slots: nat): nat {
    payload + entries * BOX_BYTES + slots * ID_BYTES + SELF_BYTES
  }

  /** The size of the pool with one more text, if what is asked for is what is granted. Full tables
      double. */
  function NeededBytes(payload: nat, count: nat, valueCapacity: nat, slots: nat, slotCapacity: nat): nat {
    PoolBytes(payload, if count < valueCapacity then valueCapacity else Max(2 * valueCapacity, 16),
              if count < slots / 2 then Max(slots, slotCapacity) else Max(Max(2 * slots, 32), slotCapacity))
  }

  /** A new text is refused for one of three reasons only: the ids are used up, it would take the pool
      above its limit, or what the allocator has granted would. */
  ghost predicate MustRefuse(values: seq<Text>, value: Text, valueCapacity: nat, slots: nat, slotCapacity: nat,
                             granted: nat, limit: nat) {
    && value !in values
    && (|values| + 1 >= NO_PREFIX || granted > limit
        || NeededBytes(TotalBytes(values) + |value|, |values|, valueCapacity, slots, slotCapacity) > limit)
  }

  function TotalBytes(values: seq<Text>): nat {
    if values == [] then 0 else TotalBytes(values[..|values| - 1]) + |values[|values| - 1]|
  }

  /** A rebuilt table of the given size holds the same ids. */
  method Rebuild(hash: Hash, values: seq<Text>, size: nat) returns (slots: seq<int>, ghost steps: seq<nat>)
    requires |values| < size && |values| < NO_PREFIX
    ensures |slots| == size && Indexed(hash, values, slots, steps)
  {
    slots := seq(size, _ => NO_PREFIX);
    steps := [];
    for id := 0 to |values|
      invariant |slots| == size && Indexed(hash, values[..id], slots, steps)
    {
      ghost var k: nat;
      assert values[..id + 1] == values[..id] + [values[id]];
      slots, k := InsertSlot(hash, values[..id], slots, steps, id, values[id]);
      steps := steps + [k];
    }
    assert values[..|values|] == values;
  }

  class PrefixPool {
    var values: seq<Text>
    var valueCapacity: nat
    var slots: seq<int>
    var slotCapacity: nat
    var stringBytes: nat
    const hash: Hash
    const limit: nat
    ghost var steps: seq<nat>

    ghost predicate Valid()
      reads this
    {
      && Indexed(hash, values, slots, steps) && Distinct(values)
      && (slots == [] || IsPowerOfTwo(|slots|))
      && |values| <= |slots| / 2 && |values| <= valueCapacity && |slots| <= slotCapacity
      && stringBytes == TotalBytes(values)
      && (CapacityBytes() > 0 ==> CapacityBytes() + SELF_BYTES <= limit)
    }

    function CapacityBytes(): nat
      reads this
    {
      stringBytes + valueCapacity * BOX_BYTES + slotCapacity * ID_BYTES
    }

    constructor (limit: nat, hash: Hash)
      ensures Valid() && values == [] && this.limit == limit && this.hash == hash
    {
      this.limit := limit;
      this.hash := hash;
      values := [];
      valueCapacity := 0;
      slots := [];
      slotCapacity := 0;
      stringBytes := 0;
      steps := [];
    }

    predicate Holds(id: int)
      reads this
    {
      0 <= id < |values| || id == NO_PREFIX
    }

    function Get(id: int): Text
      requires Holds(id)
      reads this
    {
      if id == NO_PREFIX || id >= |values| then [] else values[id]
    }

    /** A string is found if and only if it was admitted, under the one id it has. */
    method Lookup(value: Text) returns (found: Option<nat>)
      requires Valid()
      ensures found.Some? <==> value in values
      ensures found.Some? ==> found.value < |values| && values[found.value] == value
    {
      if slots == [] {
        return None;
      }
      var home := Home(hash, value, |slots|);
      var slot := home;
      for k := 0 to |slots|
        invariant k < |slots| ==> slot == At(home, k, |slots|)
        invariant forall j :: 0 <= j < k ==> PassedOver(values, slots, home, j, value)
      {
        var id := slots[slot];
        if id == NO_PREFIX {
          NotFound(hash, values, slots, steps, value, k);
          return None;
        }
        assert HoldsItsId(hash, values, slots, steps, slot);
        if values[id] == value {
          return Some(id);
        }
        assert PassedOver(values, slots, home, k, value);
        slot := Next(slot, |slots|);
      }
      NotFound(hash, values, slots, steps, value, |slots|);
      return None;
    }

    /** Ids and strings stay in bijection, ids survive growth, a refusal changes nothing, and the
        capacity never exceeds the limit. */
    method Intern(value: Text) returns (id: Option<nat>, ghost granted: nat)
      requires Valid()
      modifies this
      ensures Valid()
      ensures id.None? ==> MustRefuse(old(values), value, old(valueCapacity), |old(slots)|, old(slotCapacity), granted,
                                      limit)
      ensures id.Some? ==> id.value < |values| && values[id.value] == value
      ensures value in old(values) ==> id.Some?
      ensures values == if id.None? || value in old(values) then old(values) else old(values) + [value]
      ensures id.None? || value in old(values) ==>
          && slots == old(slots)
          && valueCapacity == old(valueCapacity)
          && slotCapacity == old(slotCapacity)
          && stringBytes == old(stringBytes)
    {
      id := Lookup(value);
      granted := 0;
      if id.Some? {
        return;
      }
      var payload := stringBytes + |value|;
      var fits, entries, size, slotsGranted;
      fits, entries, size, slotsGranted, granted := Plan(payload);
      if fits {
        Admit(value, payload, entries, size, slotsGranted);
        id := Some(|values| - 1);
      }
    }

    /** The capacities that one more entry needs, checked as asked for and as granted. */
    method Plan(payload: nat)
      returns (fits: bool, entries: nat, size: nat, slotsGranted: nat, ghost granted: nat)
      requires slots == [] || IsPowerOfTwo(|slots|)
      requires |values| <= |slots| / 2 && |values| <= valueCapacity && |slots| <= slotCapacity
      ensures fits ==> IsPowerOfTwo(size)
      ensures fits ==> |values| + 1 < NO_PREFIX && |values| + 1 <= entries && |values| + 1 <= size / 2
      ensures fits ==> |slots| <= size <= slotsGranted && PoolBytes(payload, entries, slotsGranted) <= limit
      ensures !fits ==>
                || |values| + 1 >= NO_PREFIX || granted > limit
                || NeededBytes(payload, |values|, valueCapacity, |slots|, slotCapacity) > limit
    {
      Doubling(|slots|);
      var newLen := |values| + 1;
      entries := if newLen > valueCapacity then Max(valueCapacity * 2, 16) else valueCapacity;
      size := if newLen > |slots| / 2 then Max(|slots| * 2, 32) else |slots|;
      slotsGranted := slotCapacity;
      granted := 0;
      if newLen >= NO_PREFIX || PoolBytes(payload, entries, Max(size, slotCapacity)) > limit {
        return false, entries, size, slotsGranted, granted;
      }
      if entries > valueCapacity {
        entries := Grant(entries);
      }
      if size > |slots| {
        slotsGranted := Grant(size);
      }
      granted := PoolBytes(payload, entries, slotsGranted);
      fits := PoolBytes(payload, entries, slotsGranted) <= limit;
    }

    /** The admission itself, when every capacity has been checked. */
    method Admit(value: Text, payload: nat, entries: nat, size: nat, slotsGranted: nat)
      requires Valid() && value !in values
      requires |values| + 1 < NO_PREFIX && |values| + 1 <= entries && |values| + 1 <= size / 2 && size <= slotsGranted
      requires size >= |slots| && IsPowerOfTwo(size)
      requires payload == stringBytes + |value| && PoolBytes(payload, entries, slotsGranted) <= limit
      modifies this
      ensures Valid() && values == old(values) + [value]
    {
      if size > |slots| {
        slots, steps := Rebuild(hash, values, size);
      }
      Seat(value);
      TotalBytesSnoc(old(values), value);
      DistinctSnoc(old(values), value);
      valueCapacity := entries;
      slotCapacity := slotsGranted;
      stringBytes := payload;
    }

    /** Pushing a value and seating its id. */
    method Seat(value: Text)
      requires Indexed(hash, values, slots, steps) && |values| < |slots| && |values| + 1 < NO_PREFIX
      modifies this`values, this`slots, this`steps
      ensures Indexed(hash, values, slots, steps) && values == old(values) + [value] && |slots| == old(|slots|)
    {
      ghost var k: nat;
      slots, k := InsertSlot(hash, values, slots, steps, |values|, value);
      values := values + [value];
      steps := steps + [k];
    }
  }

  lemma {:induction false} DistinctSnoc(values: seq<Text>, value: Text)
    requires Distinct(values) && value !in values
    ensures Distinct(values + [value])
  {
  }

  lemma {:induction false} TotalBytesSnoc(values: seq<Text>, value: Text)
    ensures TotalBytes(values + [value]) == TotalBytes(values) + |value|
  {
    assert (values + [value])[..|values|] == values;
  }

  /** A probed slot that neither ends the search nor answers it. */
  ghost predicate PassedOver(values: seq<Text>, slots: seq<int>, home: nat, j: nat, value: Text)
    requires home < |slots| && j < |slots|
  {
    var id := slots[At(home, j, |slots|)];
    id != NO_PREFIX && (0 <= id < |values| ==> values[id] != value)
  }

  lemma {:induction false} NotFound(hash: Hash, values: seq<Text>, slots: seq<int>, steps: seq<nat>, value: Text,
                                    k: nat)
    requires Indexed(hash, values, slots, steps) && slots != [] && k <= |slots|
    requires forall j :: 0 <= j < k ==> PassedOver(values, slots, Home(hash, value, |slots|), j, value)
    requires k == |slots| || slots[At(Home(hash, value, |slots|), k, |slots|)] == NO_PREFIX
    ensures value !in values
  {
    forall i | 0 <= i < |values| ensures values[i] != value {
      SeatEndsSearch(hash, values, slots, steps, i);
    }
  }

  /** On its own way from home, an id is met behind occupied slots only, and answers the search. */
  lemma {:induction false} SeatEndsSearch(hash: Hash, values: seq<Text>, slots: seq<int>, steps: seq<nat>, i: nat)
    requires Indexed(hash, values, slots, steps) && i < |values|
    ensures var home := Home(hash, values[i], |slots|);
            && steps[i] < |slots| && !PassedOver(values, slots, home, steps[i], values[i])
            && slots[At(home, steps[i], |slots|)] != NO_PREFIX
            && forall k :: 0 <= k < steps[i] ==> slots[At(home, k, |slots|)] != NO_PREFIX
  {
    assert Seated(slots, Home(hash, values[i], |slots|), steps[i], i);
  }
}
