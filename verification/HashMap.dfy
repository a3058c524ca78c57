/** The open-addressing string map of src/abs_hashmap.c: linear probing, tombstones, growth at 70%
    load, and values owned by the map. Allocation outcomes are parameters. `& (cap - 1)` is
    written `% cap`, which is the same for the powers of two that capacities always are. */
module HashMap {
  import opened HashTable

  datatype Key = NullKey | Key(text: string)

  const MIN_CAP: nat := 16
  /** One more than the largest size_t. */
  const SIZE_LIMIT: nat := 0x1_0000_0000_0000_0000
  /** So many values must be accepted before the capacity can be too large to double. */
  const SetLimit: nat := 0x2000_0000_0000_0000

  ghost predicate PowerOfTwo(n: nat) {
    n == 1 || (n > 0 && n % 2 == 0 && PowerOfTwo(n / 2))
  }

  /** A consistent table with correct counters that stands for the map m. At most 70% of its slots
      are in use, so that probing always meets an empty one. */
  ghost predicate Sound(t: Table, at: map<string, nat>, hash: string -> nat, cap: nat, count: nat, tombs: nat,
                        m: map<string, Ptr>)
  {
    && Consistent(t, at, hash) && m == Contents(t, at) && |t.states| == cap
    && (cap == 0 || (cap >= MIN_CAP && PowerOfTwo(cap))) && cap < SIZE_LIMIT
    && count == CountOf(t.states, Occupied) && tombs == CountOf(t.states, Tombstone)
    && (count + tombs) * 10 <= cap * 7
  }

  /** Every acceptance of a non-NULL value is matched by one key that holds it or one release. */
  ghost predicate Ledger(m: map<string, Ptr>, accepted: multiset<Ptr>, released: multiset<Ptr>, frees: bool) {
    frees ==> forall v {:trigger Holders(m, v)} :: v != NULL ==> accepted[v] == Holders(m, v) + released[v]
  }

  /** Slots in use and capacity are bounded by the number n of values accepted so far. */
  ghost predicate Paced(cap: nat, used: nat, n: nat) {
    used <= n && (cap <= MIN_CAP || 7 * cap <= 20 * (n + 1))
  }

  lemma PacedAccept(cap: nat, used: nat, accepted: multiset<Ptr>, value: Ptr)
    requires Paced(cap, used, |accepted|)
    ensures Paced(cap, used + 1, |accepted + multiset{value}|) && Paced(cap, used, |accepted + multiset{value}|)
  {}

  /** Doubling a capacity, which is a power of two, in the arithmetic of size_t. */
  lemma Doubled(cap: nat)
    requires MIN_CAP <= cap < SIZE_LIMIT && PowerOfTwo(cap)
    ensures cap * 2 < SIZE_LIMIT ==> (cap * 2) % SIZE_LIMIT == cap * 2 && PowerOfTwo(cap * 2)
    ensures cap * 2 >= SIZE_LIMIT ==> (cap * 2) % SIZE_LIMIT == cap * 2 - SIZE_LIMIT
  {}

  class Map {
    const hash: string -> nat
    /** Whether the map was created with a function that frees values. */
    const frees: bool
    var keys: array<string>
    var values: array<Ptr>
    var states: array<State>
    var cap: nat
    var count: nat
    var tombstones: nat
    /** The abstract map. */
    ghost var model: map<string, Ptr>
    /** The slots, and the slot of each stored key. */
    ghost var slots: Table
    ghost var at: map<string, nat>
    /** Every value Set has accepted, and every value passed to the freeing function. */
    ghost var accepted: multiset<Ptr>
    ghost var released: multiset<Ptr>

    /** The arrays are those of the pre-state or newly allocated. */
    twostate predicate SameOrFresh()
      reads this
    {
      && (keys == old(keys) || fresh(keys)) && (values == old(values) || fresh(values))
      && (states == old(states) || fresh(states))
    }

    ghost predicate Intact()
      reads this, keys, values, states
    {
      Mirrored() && Sound(slots, at, hash, cap, count, tombstones, model)
    }

    ghost predicate Valid()
      reads this, keys, values, states
    {
      Intact() && Ledger(model, accepted, released, frees) && Paced(cap, count + tombstones, |accepted|)
    }

    constructor (hash: string -> nat, frees: bool)
      ensures Valid() && model == map[] && this.hash == hash && this.frees == frees
      ensures accepted == released == multiset{}
      ensures fresh(keys) && fresh(values) && fresh(states)
    {
      this.hash, this.frees := hash, frees;
      keys, values, states := new string[0], new Ptr[0], new State[0];
      cap, count, tombstones := 0, 0, 0;
      model, slots, at, accepted, released := map[], Table([], [], []), map[], multiset{}, multiset{};
    }

    /** Probes for a key; stops at the key's slot or at the first empty slot. */
    method FindKey(key: string) returns (idx: nat, found: bool)
      requires Intact()
      ensures found <==> key in model
      ensures found ==> idx == at[key] && idx < cap && states[idx] == Occupied && keys[idx] == key
      ensures found ==> values[idx] == model[key]
    {
      if cap == 0 { return 0, false; }
      ghost var e := EmptySlot(slots.states);
      ghost var s := Home(hash, key, cap);
      ghost var n: nat := 0;
      idx := hash(key) % cap;
      while states[idx] != Empty
        invariant n <= Offset(s, e, cap) && idx == Slot(s, n, cap)
        invariant forall d :: 0 <= d < n ==>
          var i := Slot(s, d, cap); !(states[i] == Occupied && keys[i] == key)
        decreases Offset(s, e, cap) - n
      {
        if states[idx] == Occupied && keys[idx] == key {
          assert Owned(slots, at, idx);
          return idx, true;
        }
        idx := if idx + 1 == cap then 0 else idx + 1;
        n := n + 1;
      }
      AbsentIfGap(slots, at, hash, key, n);
      found := false;
    }

    method Get(key: Key) returns (r: Ptr)
      requires Valid()
      ensures r == if key.Key? && key.text in model then model[key.text] else NULL
    {
      if key.NullKey? { return NULL; }
      var idx, found := FindKey(key.text);
      return if found then values[idx] else NULL;
    }

    method Contains(key: Key) returns (r: bool)
      requires Valid()
      ensures r <==> key.Key? && key.text in model
    {
      if key.NullKey? { return false; }
      var _, found := FindKey(key.text);
      return found;
    }

    method Size() returns (n: nat)
      requires Valid()
      ensures n == |model|
    {
      CountIsSize(slots, at);
      assert |model| == |model.Keys| == |at.Keys| == |at|;
      n := count;
    }

    /** Copies every entry into new arrays of the given capacity and drops the tombstones. */
    method Resize(newCap: nat, oom: bool) returns (ok: bool)
      requires Intact()
      requires MIN_CAP <= newCap < SIZE_LIMIT && PowerOfTwo(newCap) && count * 10 <= newCap * 7
      modifies `keys, `values, `states, `cap, `tombstones, `slots, `at
      ensures Intact() && ok == !oom
      ensures ok ==> fresh(keys) && fresh(values) && fresh(states) && cap == newCap && tombstones == 0
      ensures !ok ==> keys == old(keys) && values == old(values) && states == old(states)
      ensures !ok ==> cap == old(cap) && tombstones == old(tombstones)
    {
      if oom { return false; }
      keys, values, states, at, slots := Rehash(hash, keys, values, states, slots, at, newCap);
      cap, tombstones := newCap, 0;
      ok := true;
    }

    /** Probes for a key to set: stops at the key's slot, or else gives the slot to fill, which is
        the first tombstone met or the empty slot at the end. */
    method FindForSet(key: string) returns (idx: nat, found: bool, ghost n: nat)
      requires Intact() && cap > 0
      ensures found <==> key in model
      ensures found ==> idx == at[key] < cap
      ensures !found ==> n < cap && idx == Slot(Home(hash, key, cap), n, cap) && slots.states[idx] != Occupied
      ensures !found ==> NoGap(slots.states, Home(hash, key, cap), n)
    {
      ghost var e := EmptySlot(slots.states);
      ghost var s := Home(hash, key, cap);
      ghost var t: nat := 0;
      n := 0;
      idx := hash(key) % cap;
      var tomb := cap;
      while states[idx] != Empty
        invariant n <= Offset(s, e, cap) && idx == Slot(s, n, cap)
        invariant NoGap(slots.states, s, n)
        invariant forall d :: 0 <= d < n ==>
          var i := Slot(s, d, cap); !(states[i] == Occupied && keys[i] == key)
        invariant tomb == cap || (t < n && tomb == Slot(s, t, cap) && states[tomb] == Tombstone)
        decreases Offset(s, e, cap) - n
      {
        if states[idx] == Tombstone {
          if tomb == cap { tomb, t := idx, n; }
        } else if keys[idx] == key {
          assert Owned(slots, at, idx);
          return idx, true, n;
        }
        idx := if idx + 1 == cap then 0 else idx + 1;
        n := n + 1;
      }
      AbsentIfGap(slots, at, hash, key, n);
      if tomb != cap { idx, n := tomb, t; }
      found := false;
    }

    /** Stores a value. Fails without changing the abstract map when the key is NULL, when memory
        runs out, or, after 2^61 accepted values at the earliest, when the capacity cannot double. */
    method Set(key: Key, value: Ptr, oomTable: bool, oomKey: bool) returns (ok: bool)
      requires Valid()
      modifies this, keys, values, states
      ensures Valid() && SameOrFresh()
      ensures ok ==> key.Key? && model == old(model)[key.text := value]
      ensures ok ==> accepted == old(accepted) + multiset{value}
      ensures ok ==> released == old(released + Displaced(model, key.text, frees))
      ensures !ok ==> model == old(model) && accepted == old(accepted) && released == old(released)
      ensures !ok ==> key.NullKey? || oomTable || (oomKey && key.text !in old(model)) || |old(accepted)| >= SetLimit
      ensures ok && oomKey ==> key.text in old(model)
    {
      if key.NullKey? { return false; }
      ok := Reserve(oomTable);
      if !ok { return; }
      ok := SetReserved(key.text, value, oomKey);
    }

    /** Stores a value when there is room for one more entry. */
    method SetReserved(key: string, value: Ptr, oomKey: bool) returns (ok: bool)
      requires Valid() && cap > 0 && (count + tombstones + 1) * 10 <= cap * 7
      modifies `released, `accepted, `count, `tombstones, `model, `slots, `at, keys, values, states
      ensures Valid() && (ok <==> key in old(model) || !oomKey)
      ensures ok ==> model == old(model)[key := value] && accepted == old(accepted) + multiset{value}
      ensures ok ==> released == old(released + Displaced(model, key, frees))
      ensures !ok ==> model == old(model) && accepted == old(accepted) && released == old(released)
    {
      var idx, found;
      ghost var n;
      idx, found, n := FindForSet(key);
      if found {
        SetExisting(key, idx, value);
        return true;
      }
      if oomKey { return false; }
      SetNew(key, idx, n, value);
      return true;
    }

    method SetExisting(key: string, idx: nat, value: Ptr)
      requires Valid() && key in model && idx == at[key] < cap
      modifies `released, `accepted, `model, `slots, values
      ensures Valid() && model == old(model)[key := value]
      ensures released == old(released + Displaced(model, key, frees)) && accepted == old(accepted) + multiset{value}
    {
      LedgerOverwrite(model, key, value, accepted, released, frees);
      PacedAccept(cap, count + tombstones, accepted, value);
      released, accepted := released + Displaced(model, key, frees), accepted + multiset{value};
      Overwrite(key, idx, value);
    }

    method Overwrite(key: string, idx: nat, value: Ptr)
      requires Intact() && key in model && idx == at[key] < cap
      modifies `model, `slots, values
      ensures Intact() && model == old(model)[key := value]
    {
      ghost var u := slots.(values := slots.values[idx := value]);
      OverwriteSound(slots, at, hash, cap, count, tombstones, model, key, value, idx);
      values[idx] := value;
      assert u == Table(keys[..], values[..], states[..]);
      slots, model := u, model[key := value];
    }

    method SetNew(key: string, idx: nat, ghost n: nat, value: Ptr)
      requires Valid() && key !in model && n < cap && (count + tombstones + 1) * 10 <= cap * 7
      requires idx == Slot(Home(hash, key, cap), n, cap) && slots.states[idx] != Occupied
      requires NoGap(slots.states, Home(hash, key, cap), n)
      modifies `accepted, `count, `tombstones, `model, `slots, `at, keys, values, states
      ensures Valid() && model == old(model)[key := value]
      ensures accepted == old(accepted) + multiset{value}
    {
      LedgerStore(model, key, value, accepted, released, frees);
      PacedAccept(cap, count + tombstones, accepted, value);
      accepted := accepted + multiset{value};
      Fill(key, idx, n, value);
    }

    method Fill(key: string, idx: nat, ghost n: nat, value: Ptr)
      requires Intact() && key !in model && n < cap && (count + tombstones + 1) * 10 <= cap * 7
      requires idx == Slot(Home(hash, key, cap), n, cap) && slots.states[idx] != Occupied
      requires NoGap(slots.states, Home(hash, key, cap), n)
      modifies `count, `tombstones, `model, `slots, `at, keys, values, states
      ensures Intact() && model == old(model)[key := value] && count + tombstones <= old(count + tombstones) + 1
    {
      FillSound(slots, at, hash, cap, count, tombstones, model, n, key, value);
      if states[idx] == Tombstone { tombstones := tombstones - 1; }
      count := count + 1;
      WriteSlot(idx, key, value, Occupied);
      at, model := at[key := idx], model[key := value];
    }

    /** Makes room for one more entry. */
    method Reserve(oom: bool) returns (ok: bool)
      requires Valid()
      modifies `keys, `values, `states, `cap, `tombstones, `slots, `at
      ensures Valid() && SameOrFresh()
      ensures ok ==> cap > 0 && (count + tombstones + 1) * 10 <= cap * 7
      ensures ok ==> cap == if old(cap) == 0 then 16
                            else if (count + old(tombstones) + 1) * 10 > old(cap) * 7 then 2 * old(cap)
                            else old(cap)
      ensures !ok ==> oom || |accepted| >= SetLimit
    {
      if cap == 0 {
        ok := Resize(MIN_CAP, oom);
        if !ok { return; }
      }
      if (count + tombstones + 1) * 10 > cap * 7 {
        ok := Double(oom);
        return;
      }
      ok := true;
    }

    /** Doubles the capacity of a map that is too full. */
    method Double(oom: bool) returns (ok: bool)
      requires Valid() && cap > 0 && (count + tombstones + 1) * 10 > cap * 7
      modifies `keys, `values, `states, `cap, `tombstones, `slots, `at
      ensures Valid() && SameOrFresh()
      ensures ok ==> cap == 2 * old(cap) && (count + tombstones + 1) * 10 <= cap * 7
      ensures !ok ==> oom || |accepted| >= SetLimit
    {
      Doubled(cap);
      var newCap := (cap * 2) % SIZE_LIMIT;
      if newCap < cap { return false; }
      ok := Resize(newCap, oom);
    }

    /** The slots are what the arrays hold. */
    ghost predicate Mirrored()
      reads this`slots, this`keys, this`values, this`states, keys, values, states
    {
      slots == Table(keys[..], values[..], states[..])
    }

    method WriteSlot(idx: nat, key: string, value: Ptr, state: State)
      requires Mirrored() && slots.Shape() && idx < |slots.states|
      modifies `slots, keys, values, states
      ensures Mirrored() && slots == old(slots).Written(idx, key, value, state)
    {
      keys[idx], values[idx], states[idx] := key, value, state;
      slots := slots.Written(idx, key, value, state);
    }

    /** Removes a key and releases its value; an absent key is an error. */
    method Remove(key: Key) returns (ok: bool)
      requires Valid()
      modifies `released, `count, `tombstones, `model, `slots, `at, keys, values, states
      ensures Valid() && (ok <==> key.Key? && key.text in old(model))
      ensures ok ==> model == Without(old(model), key.text)
      ensures ok ==> released == old(released + Freed(frees, model[key.text]))
      ensures !ok ==> model == old(model) && released == old(released)
    {
      if key.NullKey? { return false; }
      var idx, found := FindKey(key.text);
      if !found { return false; }
      RemoveStored(key.text, idx);
      ok := true;
    }

    method RemoveStored(key: string, idx: nat)
      requires Valid() && key in model && idx == at[key] < cap
      modifies `released, `count, `tombstones, `model, `slots, `at, keys, values, states
      ensures Valid() && model == Without(old(model), key)
      ensures released == old(released + Freed(frees, model[key]))
    {
      LedgerRemove(model, key, accepted, released, frees);
      released := released + Freed(frees, model[key]);
      RemoveAt(key, idx);
    }

    method RemoveAt(key: string, idx: nat)
      requires Intact() && key in model && idx == at[key] < cap
      modifies `count, `tombstones, `model, `slots, `at, keys, values, states
      ensures Intact() && model == Without(old(model), key) && count + tombstones == old(count + tombstones)
    {
      BurySound(slots, at, hash, cap, count, tombstones, model, key, idx);
      count, tombstones := count - 1, tombstones + 1;
      WriteSlot(idx, "", NULL, Tombstone);
      at, model := Without(at, key), Without(model, key);
    }

    /** Empties the map, releasing every value it holds, once for each key. */
    method Clear()
      requires Valid()
      modifies `released, `count, `tombstones, `model, `slots, `at, keys, values, states
      ensures Valid() && model == map[]
      ensures forall v :: released[v] == old(released)[v] + (if frees then Holders(old(model), v) else 0)
    {
      ghost var m := model;
      ghost var r := ClearAll();
      LedgerClear(m, accepted, released, r, frees);
      released := r;
    }

    /** Empties the slots; r is what has been released then. */
    method ClearAll() returns (ghost r: multiset<Ptr>)
      requires Intact()
      modifies `count, `tombstones, `model, `slots, `at, keys, values, states
      ensures Intact() && model == map[] && count == tombstones == 0
      ensures forall v :: r[v] == released[v] + (if frees then Holders(old(model), v) else 0)
    {
      ghost var u;
      r, u := ClearSlots(keys, values, states, frees, slots, at, released);
      ClearSound(slots, at, hash, cap, count, tombstones, model, u);
      count, tombstones, at, model, slots := 0, 0, map[], map[], u;
    }

    /** Destroys the map: whatever was accepted has then been released as often as it was accepted. */
    method Destroy()
      requires Valid()
      modifies `released, `count, `tombstones, `model, `slots, `at, keys, values, states
      ensures frees ==> forall v :: v != NULL ==> released[v] == accepted[v]
    {
      Clear();
      forall v ensures Holders(model, v) == 0 { HoldersBound(model, v); }
    }

    /** Visits the entries in slot order until the visitor stops. */
    method ForEach(stop: (string, Ptr) -> bool) returns (visited: seq<Visit>, ghost e: map<string, Ptr>)
      requires Valid()
      ensures Lists(visited, e) && e.Keys <= model.Keys && forall k :: k in e ==> e[k] == model[k]
      ensures forall i :: 0 <= i < |visited| - 1 ==> !stop(visited[i].key, visited[i].value)
      ensures visited == [] || !stop(visited[|visited| - 1].key, visited[|visited| - 1].value) ==> e == model
    {
      visited := [];
      EntriesStart(slots, at);
      EntriesEnds(slots, at);
      ghost var t, b := slots, at;
      e := model;
      for i := 0 to cap
        invariant Visiting(visited, t, b, i, stop)
      {
        VisitStep(visited, t, b, i, stop);
        assert states[i] == t.states[i] && keys[i] == t.keys[i] && values[i] == t.values[i];
        if states[i] == Occupied {
          visited := visited + [Visit(keys[i], values[i])];
          if stop(keys[i], values[i]) {
            e := Entries(t, b, i + 1);
            return;
          }
        }
      }
    }
  }

  datatype Visit = Visit(key: string, value: Ptr)

  /** The visits are the entries of e, each once. */
  ghost predicate Lists(visited: seq<Visit>, e: map<string, Ptr>) {
    && (forall i, j :: 0 <= i < j < |visited| ==> visited[i].key != visited[j].key)
    && (forall i :: 0 <= i < |visited| ==> visited[i].key in e && e[visited[i].key] == visited[i].value)
    && (forall k :: k in e ==> Visit(k, e[k]) in visited)
  }

  /** What the loop of ForEach keeps: the first i slots have been visited without a stop. */
  ghost predicate Visiting(visited: seq<Visit>, t: Table, at: map<string, nat>, i: nat, stop: (string, Ptr) -> bool) {
    && Inverse(t, at) && Lists(visited, Entries(t, at, i))
    && forall j :: 0 <= j < |visited| ==> !stop(visited[j].key, visited[j].value)
  }

  lemma VisitStep(visited: seq<Visit>, t: Table, at: map<string, nat>, i: nat, stop: (string, Ptr) -> bool)
    requires Visiting(visited, t, at, i, stop) && i < |t.states|
    ensures var w := if t.states[i] == Occupied then visited + [Visit(t.keys[i], t.values[i])] else visited;
            && Lists(w, Entries(t, at, i + 1))
            && (t.states[i] != Occupied || !stop(t.keys[i], t.values[i]) ==> Visiting(w, t, at, i + 1, stop))
  {
    ListsStep(t, at, i, visited);
  }

  lemma EntriesStart(t: Table, at: map<string, nat>)
    requires Inverse(t, at)
    ensures Lists([], Entries(t, at, 0))
  {}

  lemma ListsStep(t: Table, at: map<string, nat>, i: nat, visited: seq<Visit>)
    requires Inverse(t, at) && i < |t.states| && Lists(visited, Entries(t, at, i))
    ensures Lists(if t.states[i] == Occupied then visited + [Visit(t.keys[i], t.values[i])] else visited,
                  Entries(t, at, i + 1))
  {
    BelowStep(t, at, i);
    var e, f := Entries(t, at, i), Entries(t, at, i + 1);
    if t.states[i] == Occupied {
      assert Contents(t, at)[t.keys[i]] == t.values[i];
      assert Owned(t, at, i) && t.keys[i] !in e && f == e[t.keys[i] := t.values[i]];
      var w := visited + [Visit(t.keys[i], t.values[i])];
      forall k | k in f ensures Visit(k, f[k]) in w {
        if k == t.keys[i] { assert w[|visited|] == Visit(k, f[k]); } else { assert Visit(k, e[k]) in visited; }
      }
    } else {
      assert f == e;
    }
  }

  /** The map has no entries left: all accepted values have been released. */
  lemma LedgerClear(m: map<string, Ptr>, accepted: multiset<Ptr>, released: multiset<Ptr>, r: multiset<Ptr>,
          frees: bool)
    requires Ledger(m, accepted, released, frees)
    requires forall v :: r[v] == released[v] + (if frees then Holders(m, v) else 0)
    ensures Ledger(map[], accepted, r, frees)
  {}

  /** The entries of the first i slots. */
  ghost function Entries(t: Table, at: map<string, nat>, i: nat): map<string, Ptr>
    requires Inverse(t, at)
  {
    map k | k in Below(at, i) :: Contents(t, at)[k]
  }

  /** r is what has been released once the first i slots are cleared. */
  ghost predicate Cleared(r: multiset<Ptr>, released: multiset<Ptr>, frees: bool, t: Table, at: map<string, nat>,
                          i: nat)
    requires Inverse(t, at)
  {
    forall v :: r[v] == released[v] + (if frees then Holders(Entries(t, at, i), v) else 0)
  }

  lemma ClearedStep(r: multiset<Ptr>, released: multiset<Ptr>, frees: bool, t: Table, at: map<string, nat>, i: nat)
    requires Inverse(t, at) && i < |t.states| && Cleared(r, released, frees, t, at, i)
    ensures Cleared(if t.states[i] == Occupied && frees then r + multiset{t.values[i]} else r, released, frees, t, at,
                    i + 1)
  {
    EntriesStep(t, at, i);
  }

  /** The loop of Clear: r is what has been released when it ends, u the slots. */
  method ClearSlots(keys: array<string>, values: array<Ptr>, states: array<State>, frees: bool,
                    ghost t: Table, ghost at: map<string, nat>, ghost released: multiset<Ptr>)
    returns (ghost r: multiset<Ptr>, ghost u: Table)
    requires t == Table(keys[..], values[..], states[..]) && Inverse(t, at)
    modifies keys, values, states
    ensures u == Table(keys[..], values[..], states[..])
    ensures forall i :: 0 <= i < |u.states| ==> u.states[i] == Empty
    ensures forall v :: r[v] == released[v] + (if frees then Holders(Contents(t, at), v) else 0)
  {
    r := released;
    EntriesEnds(t, at);
    for i := 0 to states.Length
      invariant Swept(states, values, t, i) && Cleared(r, released, frees, t, at, i)
    {
      r := ClearSlot(keys, values, states, frees, t, at, released, i, r);
    }
    u := Table(keys[..], values[..], states[..]);
  }

  /** The first i slots are empty, the others as they were. */
  ghost predicate Swept(states: array<State>, values: array<Ptr>, t: Table, i: nat)
    reads states, values
  {
    && states.Length == |t.states| == |t.values| == values.Length
    && (forall j :: 0 <= j < i && j < states.Length ==> states[j] == Empty)
    && forall j :: i <= j < states.Length ==> states[j] == t.states[j] && values[j] == t.values[j]
  }

  /** Releases and empties slot i. */
  method ClearSlot(keys: array<string>, values: array<Ptr>, states: array<State>, frees: bool, ghost t: Table,
                   ghost at: map<string, nat>, ghost released: multiset<Ptr>, i: nat, ghost r: multiset<Ptr>)
    returns (ghost r': multiset<Ptr>)
    requires Swept(states, values, t, i) && i < states.Length == keys.Length
    requires Inverse(t, at) && Cleared(r, released, frees, t, at, i)
    modifies keys, values, states
    ensures Swept(states, values, t, i + 1) && Cleared(r', released, frees, t, at, i + 1)
  {
    ClearedStep(r, released, frees, t, at, i);
    r' := if states[i] == Occupied && frees then r + multiset{values[i]} else r;
    keys[i], values[i], states[i] := "", NULL, Empty;
  }

  lemma ClearSound(t: Table, at: map<string, nat>, hash: string -> nat, cap: nat, count: nat, tombs: nat,
                   m: map<string, Ptr>, u: Table)
    requires Sound(t, at, hash, cap, count, tombs, m) && u.Shape() && |u.states| == cap
    requires forall i :: 0 <= i < |u.states| ==> u.states[i] == Empty
    ensures Sound(u, map[], hash, cap, 0, 0, map[])
  {
    CountAll(u.states, Empty);
  }

  lemma EntriesEnds(t: Table, at: map<string, nat>)
    requires Inverse(t, at)
    ensures forall v :: Holders(Entries(t, at, 0), v) == 0
    ensures Entries(t, at, |t.states|) == Contents(t, at)
  {}

  lemma EntriesStep(t: Table, at: map<string, nat>, i: nat)
    requires Inverse(t, at) && i < |t.states|
    ensures forall v :: Holders(Entries(t, at, i + 1), v)
              == Holders(Entries(t, at, i), v) + (if t.states[i] == Occupied && t.values[i] == v then 1 else 0)
  {
    BelowStep(t, at, i);
    var e, e' := Entries(t, at, i), Entries(t, at, i + 1);
    if t.states[i] == Occupied {
      var k := t.keys[i];
      assert Contents(t, at)[k] == t.values[i];
      assert e' == e[k := t.values[i]];
      forall v ensures Holders(e', v) == Holders(e, v) + (if t.values[i] == v then 1 else 0) {
        HoldersSet(e, k, t.values[i], v);
      }
    } else {
      assert e' == e;
    }
  }

  /** Table u with slot map c holds exactly the entries found in the first i slots of t, and no
      tombstones. */
  ghost predicate Copied(t: Table, at: map<string, nat>, i: nat, u: Table, c: map<string, nat>)
    requires Inverse(t, at) && Inverse(u, c)
  {
    && CountOf(u.states, Tombstone) == 0
    && Contents(u, c) == Entries(t, at, i)
  }

  lemma CopyStore(t: Table, at: map<string, nat>, i: nat, u: Table, c: map<string, nat>,
                  u': Table, c': map<string, nat>)
    requires Inverse(t, at) && Inverse(u, c) && Inverse(u', c')
    requires Copied(t, at, i, u, c) && i < |t.states| && t.states[i] == Occupied
    requires CountOf(u'.states, Tombstone) == 0
    requires Contents(u', c') == Contents(u, c)[t.keys[i] := t.values[i]]
    ensures Copied(t, at, i + 1, u', c')
  {
    BelowStep(t, at, i);
    assert Contents(t, at)[t.keys[i]] == t.values[i];
  }

  lemma BelowStep(t: Table, at: map<string, nat>, i: nat)
    requires Inverse(t, at) && i < |t.states|
    ensures t.states[i] == Occupied ==> t.keys[i] in at && t.keys[i] !in Below(at, i) && at[t.keys[i]] == i
    ensures Below(at, i + 1) == Below(at, i) + (if t.states[i] == Occupied then {t.keys[i]} else {})
  {
    if t.states[i] == Occupied { assert Owned(t, at, i); }
    forall k | k in at && at[k] == i ensures t.states[i] == Occupied && k == t.keys[i] { assert Held(t, at, k); }
  }

  lemma CopyDone(t: Table, at: map<string, nat>, u: Table, c: map<string, nat>)
    requires Inverse(t, at) && Inverse(u, c) && Copied(t, at, |t.states|, u, c)
    ensures Contents(u, c) == Contents(t, at) && CountOf(u.states, Occupied) == CountOf(t.states, Occupied)
  {
    forall k | k in at ensures k in Below(at, |t.states|) { assert Held(t, at, k); }
    assert Below(at, |t.states|) == at.Keys;
    assert |c| == |Contents(u, c).Keys| && |at| == |at.Keys|;
    CountIsSize(t, at);
    CountIsSize(u, c);
  }

  /** The copying loop of Resize after i slots: the new table u, with slot map c. */
  ghost predicate Copying(t: Table, at: map<string, nat>, hash: string -> nat, i: nat, u: Table, c: map<string, nat>) {
    Inverse(t, at) && Consistent(u, c, hash) && Copied(t, at, i, u, c)
  }

  /** The new arrays of Resize, filled by its copying loop. */
  method Rehash(hash: string -> nat, keys: array<string>, values: array<Ptr>, states: array<State>,
                ghost t: Table, ghost at: map<string, nat>, newCap: nat)
    returns (nk: array<string>, nv: array<Ptr>, ns: array<State>, ghost c: map<string, nat>, ghost u: Table)
    requires t == Table(keys[..], values[..], states[..]) && Inverse(t, at) && CountOf(t.states, Occupied) < newCap
    ensures fresh(nk) && fresh(nv) && fresh(ns) && u == Table(nk[..], nv[..], ns[..]) && |u.states| == newCap
    ensures Consistent(u, c, hash) && Contents(u, c) == Contents(t, at)
    ensures CountOf(u.states, Occupied) == CountOf(t.states, Occupied) && CountOf(u.states, Tombstone) == 0
  {
    nk, nv, ns := new string[newCap](_ => ""), new Ptr[newCap](_ => NULL), new State[newCap](_ => Empty);
    u := Table(nk[..], nv[..], ns[..]);
    CopyStart(t, at, hash, u);
    c, u := CopyAll(hash, keys, values, states, t, at, nk, nv, ns, u);
    CopyDone(t, at, u, c);
  }

  /** The copying loop. */
  method CopyAll(hash: string -> nat, keys: array<string>, values: array<Ptr>, states: array<State>,
                 ghost t: Table, ghost at: map<string, nat>, nk: array<string>, nv: array<Ptr>, ns: array<State>,
                 ghost u0: Table) returns (ghost c: map<string, nat>, ghost u: Table)
    requires t == Table(keys[..], values[..], states[..]) && u0 == Table(nk[..], nv[..], ns[..])
    requires keys != nk && values != nv && states != ns && CountOf(t.states, Occupied) < ns.Length
    requires Copying(t, at, hash, 0, u0, map[])
    modifies nk, nv, ns
    ensures u == Table(nk[..], nv[..], ns[..]) && |u.states| == ns.Length && Copying(t, at, hash, |t.states|, u, c)
  {
    c, u := map[], u0;
    for i := 0 to states.Length
      invariant u == Table(nk[..], nv[..], ns[..]) && t == Table(keys[..], values[..], states[..])
      invariant Copying(t, at, hash, i, u, c)
    {
      if states[i] == Occupied {
        c, u := CopySlot(hash, t, at, i, nk, nv, ns, c, u, keys[i], values[i]);
      } else {
        CopySkip(t, at, hash, i, u, c);
      }
    }
  }

  lemma CopyStart(t: Table, at: map<string, nat>, hash: string -> nat, u: Table)
    requires Inverse(t, at) && u.Shape() && forall j :: 0 <= j < |u.states| ==> u.states[j] == Empty
    ensures Copying(t, at, hash, 0, u, map[])
  {
    CountAll(u.states, Empty);
    assert Below(at, 0) == {};
  }

  lemma CopySkip(t: Table, at: map<string, nat>, hash: string -> nat, i: nat, u: Table, c: map<string, nat>)
    requires Copying(t, at, hash, i, u, c) && i < |t.states| && t.states[i] != Occupied
    ensures Copying(t, at, hash, i + 1, u, c)
  {
    BelowStep(t, at, i);
    assert Entries(t, at, i + 1) == Entries(t, at, i);
  }

  /** Copies one occupied slot. */
  method CopySlot(hash: string -> nat, ghost t: Table, ghost at: map<string, nat>, ghost i: nat,
                  nk: array<string>, nv: array<Ptr>, ns: array<State>, ghost c: map<string, nat>, ghost u: Table,
                  key: string, value: Ptr) returns (ghost c': map<string, nat>, ghost u': Table)
    requires u == Table(nk[..], nv[..], ns[..]) && CountOf(t.states, Occupied) < ns.Length
    requires Copying(t, at, hash, i, u, c)
    requires i < |t.states| && t.states[i] == Occupied && key == t.keys[i] && value == t.values[i]
    modifies nk, nv, ns
    ensures u' == Table(nk[..], nv[..], ns[..]) && Copying(t, at, hash, i + 1, u', c')
  {
    CopyRoom(t, at, i, u, c);
    c', u' := Place(hash, nk, nv, ns, u, c, key, value);
    CopyStore(t, at, i, u, c, u', c');
  }

  lemma CopyRoom(t: Table, at: map<string, nat>, i: nat, u: Table, c: map<string, nat>)
    requires Inverse(t, at) && Inverse(u, c) && Copied(t, at, i, u, c)
    requires i < |t.states| && t.states[i] == Occupied
    ensures t.keys[i] !in c && CountOf(u.states, Occupied) < CountOf(t.states, Occupied)
  {
    BelowStep(t, at, i);
    BelowSize(at, i, t.keys[i]);
    assert Contents(u, c).Keys == Below(at, i);
    assert |c| == |c.Keys|;
    CountIsSize(t, at);
    CountIsSize(u, c);
  }

  /** The keys whose slot is below i. */
  ghost function Below(at: map<string, nat>, i: nat): set<string> {
    set k | k in at && at[k] < i
  }

  lemma BelowSize(at: map<string, nat>, i: nat, key: string)
    requires key in at && at[key] == i
    ensures |Below(at, i)| < |at|
  {
    assert Below(at, i) <= at.Keys - {key};
    SubsetSize(Below(at, i), at.Keys - {key});
  }

  /** As many slots are occupied as keys are stored. */
  lemma CountIsSize(t: Table, at: map<string, nat>)
    requires Inverse(t, at)
    ensures CountOf(t.states, Occupied) == |at|
  {
    CountBelow(t, at, |t.states|);
    assert t.states[..|t.states|] == t.states;
    forall k | k in at ensures k in Below(at, |t.states|) { assert Held(t, at, k); }
    assert Below(at, |t.states|) == at.Keys && |at| == |at.Keys|;
  }

  lemma {:induction false} CountBelow(t: Table, at: map<string, nat>, i: nat)
    requires Inverse(t, at) && i <= |t.states|
    ensures CountOf(t.states[..i], Occupied) == |Below(at, i)|
  {
    if i == 0 {
      assert Below(at, 0) == {};
    } else {
      CountBelow(t, at, i - 1);
      BelowStep(t, at, i - 1);
      assert t.states[..i] == t.states[..i - 1] + [t.states[i - 1]];
      CountSnoc(t.states[..i - 1], t.states[i - 1], Occupied);
    }
  }

  /** The probe for a free slot. */
  method FindFree(ns: array<State>, home: nat) returns (idx: nat, ghost n: nat)
    requires home < ns.Length && CountOf(ns[..], Occupied) + CountOf(ns[..], Tombstone) < ns.Length
    ensures n < ns.Length && idx == Slot(home, n, ns.Length)
    ensures NoGap(ns[..], home, n) && ns[idx] != Occupied
  {
    ghost var e := EmptySlot(ns[..]);
    n := 0;
    idx := home;
    while ns[idx] == Occupied
      invariant n <= Offset(home, e, ns.Length) && idx == Slot(home, n, ns.Length)
      invariant NoGap(ns[..], home, n)
      decreases Offset(home, e, ns.Length) - n
    {
      idx := if idx + 1 == ns.Length then 0 else idx + 1;
      n := n + 1;
    }
  }

  /** Puts a new key into the first slot of its probe sequence that is not occupied, in arrays that
      hold no tombstones. */
  method Place(hash: string -> nat, nk: array<string>, nv: array<Ptr>, ns: array<State>, ghost t: Table,
               ghost at: map<string, nat>, key: string, value: Ptr)
    returns (ghost newAt: map<string, nat>, ghost u: Table)
    requires t == Table(nk[..], nv[..], ns[..]) && Consistent(t, at, hash) && key !in at
    requires CountOf(t.states, Occupied) < |t.states| && CountOf(t.states, Tombstone) == 0
    modifies nk, nv, ns
    ensures u == Table(nk[..], nv[..], ns[..]) && Consistent(u, newAt, hash)
    ensures Contents(u, newAt) == Contents(t, at)[key := value]
    ensures CountOf(u.states, Tombstone) == 0
  {
    var home := hash(key) % ns.Length;
    ghost var n;
    var idx;
    idx, n := FindFree(ns, home);
    StoreConsistent(t, at, hash, n, key, value);
    StoreCounts(t.states, idx);
    nk[idx], nv[idx], ns[idx] := key, value, Occupied;
    newAt, u := at[key := idx], Store(t, idx, key, value);
  }

  /** Filling a free slot: the slot counts. */
  lemma StoreCounts(states: seq<State>, i: nat)
    requires i < |states| && states[i] != Occupied
    ensures CountOf(states[i := Occupied], Occupied) == CountOf(states, Occupied) + 1
    ensures CountOf(states[i := Occupied], Tombstone)
            == CountOf(states, Tombstone) - (if states[i] == Tombstone then 1 else 0)
  {
    CountUpdate(states, i, Occupied, Occupied);
    CountUpdate(states, i, Occupied, Tombstone);
  }

  /** Filling a free slot keeps the table sound when there is room for one more. */
  lemma FillSound(t: Table, at: map<string, nat>, hash: string -> nat, cap: nat, count: nat, tombs: nat,
                  m: map<string, Ptr>, n: nat, key: string, value: Ptr)
    requires Sound(t, at, hash, cap, count, tombs, m) && key !in at && n < cap && (count + tombs + 1) * 10 <= cap * 7
    requires NoGap(t.states, Home(hash, key, cap), n)
    requires t.states[Slot(Home(hash, key, cap), n, cap)] != Occupied
    ensures var i := Slot(Home(hash, key, cap), n, cap);
            var tombs' := if t.states[i] == Tombstone then tombs - 1 else tombs;
            0 <= tombs' && Sound(Store(t, i, key, value), at[key := i], hash, cap, count + 1, tombs', m[key := value])
  {
    var i := Slot(Home(hash, key, cap), n, cap);
    StoreConsistent(t, at, hash, n, key, value);
    StoreCounts(t.states, i);
  }

  /** Burying the slot of a stored key keeps the table sound. */
  lemma BurySound(t: Table, at: map<string, nat>, hash: string -> nat, cap: nat, count: nat, tombs: nat,
                  m: map<string, Ptr>, key: string, i: nat)
    requires Sound(t, at, hash, cap, count, tombs, m) && key in at && at[key] == i < cap
    ensures 0 < count && Sound(Bury(t, i), Without(at, key), hash, cap, count - 1, tombs + 1, Without(m, key))
  {
    BuryConsistent(t, at, hash, key);
    assert Held(t, at, key);
    CountUpdate(t.states, i, Tombstone, Occupied);
    CountUpdate(t.states, i, Tombstone, Tombstone);
  }

  lemma OverwriteSound(t: Table, at: map<string, nat>, hash: string -> nat, cap: nat, count: nat, tombs: nat,
                       m: map<string, Ptr>, key: string, value: Ptr, i: nat)
    requires Sound(t, at, hash, cap, count, tombs, m) && key in at && at[key] == i < cap
    ensures Sound(t.(values := t.values[i := value]), at, hash, cap, count, tombs, m[key := value])
  {
    OverwriteConsistent(t, at, hash, key, value);
  }

  // ---------------------------------------------------------------- the ledger of values

  /** What freeing a pointer adds to the released values. */
  ghost function Freed(frees: bool, p: Ptr): multiset<Ptr> {
    if frees then multiset{p} else multiset{}
  }

  /** What storing a value under key releases. */
  ghost function Displaced(m: map<string, Ptr>, key: string, frees: bool): multiset<Ptr> {
    if key in m then Freed(frees && m[key] != NULL, m[key]) else multiset{}
  }

  /** A new key's value becomes live. */
  lemma LedgerStore(m: map<string, Ptr>, k: string, x: Ptr, accepted: multiset<Ptr>, released: multiset<Ptr>,
          frees: bool)
    requires k !in m && Ledger(m, accepted, released, frees)
    ensures Ledger(m[k := x], accepted + multiset{x}, released, frees)
  {
    forall v | frees && v != NULL ensures (accepted + multiset{x})[v] == Holders(m[k := x], v) + released[v] {
      HoldersSet(m, k, x, v);
    }
  }

  /** Removing a key releases its value. */
  lemma LedgerRemove(m: map<string, Ptr>, k: string, accepted: multiset<Ptr>, released: multiset<Ptr>, frees: bool)
    requires k in m && Ledger(m, accepted, released, frees)
    ensures Ledger(Without(m, k), accepted, released + Freed(frees, m[k]), frees)
  {
    forall v | frees && v != NULL
      ensures accepted[v] == Holders(Without(m, k), v) + (released + multiset{m[k]})[v]
    {
      HoldersWithout(m, k, v);
    }
  }

  /** Overwriting releases the old value, unless it is NULL, and makes the new one live. */
  lemma LedgerOverwrite(m: map<string, Ptr>, k: string, x: Ptr, accepted: multiset<Ptr>, released: multiset<Ptr>,
                        frees: bool)
    requires k in m && Ledger(m, accepted, released, frees)
    ensures Ledger(m[k := x], accepted + multiset{x}, released + Freed(frees && m[k] != NULL, m[k]), frees)
  {
    LedgerRemove(m, k, accepted, released, frees);
    LedgerStore(Without(m, k), k, x, accepted, released + Freed(frees, m[k]), frees);
    assert Without(m, k)[k := x] == m[k := x];
  }

  /** A non-NULL value that is accepted at most once is never released twice, nor released while a
      key still holds it. */
  lemma ReleasedOnce(m: map<string, Ptr>, accepted: multiset<Ptr>, released: multiset<Ptr>, v: Ptr)
    requires Ledger(m, accepted, released, true)
    requires v != NULL && accepted[v] <= 1
    ensures released[v] <= 1
    ensures (exists k :: k in m && m[k] == v) ==> released[v] == 0
  {
    if k :| k in m && m[k] == v {
      HoldersWithout(m, k, v);
    }
    assert accepted[v] == Holders(m, v) + released[v];
  }
}
