/** The slots of the open-addressing hash map (src/abs_hashmap.c) as a value: what makes a table
    consistent, and how storing, overwriting and removing one slot keep it so. The hash function
    is a parameter, so everything holds for every hash. */
module HashTable {
  datatype State = Empty | Tombstone | Occupied

  /** A pointer to a caller's value; 0 is NULL. */
  type Ptr = nat
  const NULL: Ptr := 0

  datatype Table = Table(keys: seq<string>, values: seq<Ptr>, states: seq<State>) {
    predicate Shape() {
      |keys| == |values| == |states|
    }

    function Written(i: nat, key: string, value: Ptr, state: State): Table
      requires Shape() && i < |states|
    {
      Table(keys[i := key], values[i := value], states[i := state])
    }
  }

  /** The slot d places after slot s, going round at the end. */
  function Slot(s: nat, d: nat, cap: nat): (i: nat)
    requires s < cap && d < cap
    ensures i < cap
  {
    if s + d < cap then s + d else s + d - cap
  }

  /** How many places slot i lies after slot s. */
  function Offset(s: nat, i: nat, cap: nat): (d: nat)
    requires s < cap && i < cap
    ensures d < cap && Slot(s, d, cap) == i
  {
    if s <= i then i - s else i + cap - s
  }

  lemma OffsetOfSlot(s: nat, d: nat, cap: nat)
    requires s < cap && d < cap
    ensures Offset(s, Slot(s, d, cap), cap) == d
  {}

  function Home(hash: string -> nat, key: string, cap: nat): (s: nat)
    requires cap > 0
    ensures s < cap
  {
    hash(key) % cap
  }

  /** No empty slot among the first n slots of the probe sequence that starts at s. */
  ghost predicate NoGap(states: seq<State>, s: nat, n: nat)
    requires s < |states| && n <= |states|
  {
    forall d :: 0 <= d < n ==> states[Slot(s, d, |states|)] != Empty
  }

  /** `at` takes key k to an occupied slot that holds k. */
  ghost predicate Held(t: Table, at: map<string, nat>, k: string)
    requires t.Shape() && k in at
  {
    at[k] < |t.states| && t.states[at[k]] == Occupied && t.keys[at[k]] == k
  }

  /** `at` takes the key of slot i to i. */
  ghost predicate Owned(t: Table, at: map<string, nat>, i: nat)
    requires t.Shape() && i < |t.states|
  {
    t.keys[i] in at && at[t.keys[i]] == i
  }

  /** `at` is the inverse of the table: it takes each stored key to the one slot that holds it. */
  ghost predicate Inverse(t: Table, at: map<string, nat>) {
    && t.Shape()
    && (forall k {:trigger Held(t, at, k)} :: k in at ==> Held(t, at, k))
    && (forall i {:trigger Owned(t, at, i)} :: 0 <= i < |t.states| && t.states[i] == Occupied ==> Owned(t, at, i))
  }

  /** Probing from the home slot of its key reaches slot i. */
  ghost predicate Probed(t: Table, hash: string -> nat, i: nat)
    requires t.Shape() && i < |t.states|
  {
    var s := Home(hash, t.keys[i], |t.states|);
    NoGap(t.states, s, Offset(s, i, |t.states|))
  }

  ghost predicate Consistent(t: Table, at: map<string, nat>, hash: string -> nat) {
    && Inverse(t, at)
    && forall i {:trigger Probed(t, hash, i)} :: 0 <= i < |t.states| && t.states[i] == Occupied ==> Probed(t, hash, i)
  }

  /** The map a consistent table stands for. */
  ghost function Contents(t: Table, at: map<string, nat>): (m: map<string, Ptr>)
    requires Inverse(t, at)
    ensures m.Keys == at.Keys
    ensures forall k {:trigger m[k]} :: k in m ==> Held(t, at, k) && m[k] == t.values[at[k]]
  {
    assert forall k :: k in at ==> Held(t, at, k);
    map k | k in at :: t.values[at[k]]
  }

  /** A key that is not met before the first empty slot of its probe sequence is not stored. */
  lemma AbsentIfGap(t: Table, at: map<string, nat>, hash: string -> nat, key: string, n: nat)
    requires Consistent(t, at, hash) && n < |t.states|
    requires t.states[Slot(Home(hash, key, |t.states|), n, |t.states|)] == Empty
    requires forall d :: 0 <= d < n ==>
      var i := Slot(Home(hash, key, |t.states|), d, |t.states|);
      !(t.states[i] == Occupied && t.keys[i] == key)
    ensures key !in at
  {
    var s := Home(hash, key, |t.states|);
    assert key in at ==> Held(t, at, key) && Probed(t, hash, at[key])
                         && NoGap(t.states, s, Offset(s, at[key], |t.states|));
  }

  function Store(t: Table, i: nat, key: string, value: Ptr): Table
    requires t.Shape() && i < |t.states|
  {
    t.Written(i, key, value, Occupied)
  }

  /** Filling a free slot that the new key's probe sequence reaches. */
  lemma StoreConsistent(t: Table, at: map<string, nat>, hash: string -> nat, n: nat, key: string, value: Ptr)
    requires Consistent(t, at, hash) && key !in at && n < |t.states|
    requires NoGap(t.states, Home(hash, key, |t.states|), n)
    requires t.states[Slot(Home(hash, key, |t.states|), n, |t.states|)] != Occupied
    ensures var i := Slot(Home(hash, key, |t.states|), n, |t.states|);
            Consistent(Store(t, i, key, value), at[key := i], hash)
            && Contents(Store(t, i, key, value), at[key := i]) == Contents(t, at)[key := value]
  {
    var s := Home(hash, key, |t.states|);
    var i := Slot(s, n, |t.states|);
    var u, b := Store(t, i, key, value), at[key := i];
    OffsetOfSlot(s, n, |t.states|);
    forall k | k in b ensures Held(u, b, k) {
      if k != key { assert Held(t, at, k); }
    }
    forall j | 0 <= j < |u.states| && u.states[j] == Occupied ensures Owned(u, b, j) && Probed(u, hash, j) {
      if j != i { assert Owned(t, at, j) && Probed(t, hash, j); }
    }
    forall k | k in b ensures Contents(u, b)[k] == Contents(t, at)[key := value][k] {
      assert Held(u, b, k);
      if k != key { assert Held(t, at, k); }
    }
  }

  /** Overwriting the value of a stored key. */
  lemma OverwriteConsistent(t: Table, at: map<string, nat>, hash: string -> nat, key: string, value: Ptr)
    requires Consistent(t, at, hash) && key in at && at[key] < |t.values|
    ensures var u := t.(values := t.values[at[key] := value]);
            Consistent(u, at, hash) && Contents(u, at) == Contents(t, at)[key := value]
  {
    var u := t.(values := t.values[at[key] := value]);
    forall k | k in at ensures Held(u, at, k) { assert Held(t, at, k); }
    forall j | 0 <= j < |u.states| && u.states[j] == Occupied ensures Owned(u, at, j) && Probed(u, hash, j) {
      assert Owned(t, at, j) && Probed(t, hash, j);
    }
    forall k | k in at ensures Contents(u, at)[k] == Contents(t, at)[key := value][k] {
      assert Held(t, at, k) && Held(t, at, key) && Held(u, at, k);
    }
  }

  function Bury(t: Table, i: nat): Table
    requires t.Shape() && i < |t.states|
  {
    t.Written(i, "", NULL, Tombstone)
  }

  ghost function Without<V>(m: map<string, V>, key: string): (r: map<string, V>)
    ensures r.Keys == m.Keys - {key}
  {
    map k | k in m && k != key :: m[k]
  }

  /** Removing a stored key: a tombstone keeps every other probe sequence intact. */
  lemma BuryConsistent(t: Table, at: map<string, nat>, hash: string -> nat, key: string)
    requires Consistent(t, at, hash) && key in at && at[key] < |t.states|
    ensures Consistent(Bury(t, at[key]), Without(at, key), hash)
            && Contents(Bury(t, at[key]), Without(at, key)) == Without(Contents(t, at), key)
  {
    var u, b := Bury(t, at[key]), Without(at, key);
    assert Held(t, at, key);
    forall k | k in b ensures Held(u, b, k) { assert Held(t, at, k); }
    forall j | 0 <= j < |u.states| && u.states[j] == Occupied ensures Owned(u, b, j) && Probed(u, hash, j) {
      assert Owned(t, at, j) && Probed(t, hash, j);
    }
    forall k | k in b ensures Contents(u, b)[k] == Contents(t, at)[k] {
      assert Held(t, at, k) && Held(u, b, k);
    }
  }

  // ---------------------------------------------------------------- counting slots

  ghost function CountOf(states: seq<State>, x: State): nat {
    if states == [] then 0 else (if states[0] == x then 1 else 0) + CountOf(states[1..], x)
  }

  lemma {:induction false} CountUpdate(states: seq<State>, i: nat, y: State, x: State)
    requires i < |states|
    ensures CountOf(states[i := y], x)
            == CountOf(states, x) - (if states[i] == x then 1 else 0) + (if y == x then 1 else 0)
  {
    if i == 0 {
      assert states[0 := y][1..] == states[1..];
    } else {
      assert states[i := y][1..] == states[1..][i - 1 := y];
      CountUpdate(states[1..], i - 1, y, x);
    }
  }

  lemma {:induction false} CountSnoc(states: seq<State>, y: State, x: State)
    ensures CountOf(states + [y], x) == CountOf(states, x) + (if y == x then 1 else 0)
  {
    if states == [] {
      assert states + [y] == [y];
    } else {
      assert (states + [y])[1..] == states[1..] + [y];
      CountSnoc(states[1..], y, x);
    }
  }

  lemma {:induction false} CountAll(states: seq<State>, x: State)
    requires forall i :: 0 <= i < |states| ==> states[i] == x
    ensures forall y :: CountOf(states, y) == if y == x then |states| else 0
  {
    if states == [] {
    } else {
      CountAll(states[1..], x);
    }
  }

  /** A table with fewer occupied and buried slots than slots has an empty one. */
  lemma {:induction false} EmptySlot(states: seq<State>) returns (e: nat)
    requires CountOf(states, Occupied) + CountOf(states, Tombstone) < |states|
    ensures e < |states| && states[e] == Empty
  {
    if states[0] == Empty {
      e := 0;
    } else {
      e := EmptySlot(states[1..]);
      e := e + 1;
    }
  }

  // ---------------------------------------------------------------- the values of a map

  /** How many keys of m hold the value v. */
  ghost function Holders(m: map<string, Ptr>, v: Ptr): nat {
    |set k | k in m && m[k] == v|
  }

  lemma HoldersBound(m: map<string, Ptr>, v: Ptr)
    ensures Holders(m, v) <= |m|
  {
    SubsetSize((set k | k in m && m[k] == v), m.Keys);
    assert |m.Keys| == |m|;
  }

  lemma SubsetSize(a: set<string>, b: set<string>)
    requires a <= b
    ensures |a| <= |b|
  {
    assert b == a + (b - a);
  }

  lemma HoldersWithout(m: map<string, Ptr>, k: string, v: Ptr)
    requires k in m
    ensures Holders(m, v) == Holders(Without(m, k), v) + (if m[k] == v then 1 else 0)
  {
    var a, b := set j | j in m && m[j] == v, set j | j in Without(m, k) && Without(m, k)[j] == v;
    assert b == a - {k};
    if m[k] == v { assert k in a && a == b + {k}; } else { assert a == b; }
  }

  lemma HoldersSet(m: map<string, Ptr>, k: string, x: Ptr, v: Ptr)
    requires k !in m
    ensures Holders(m[k := x], v) == Holders(m, v) + (if x == v then 1 else 0)
  {
    assert Without(m[k := x], k) == m;
    HoldersWithout(m[k := x], k, v);
  }
}
