/** The chained dictionary (dset, dget and dict_hash in src/abs.c): sixteen bucket chains of linked
    nodes, which keep exactly the last value set for each key. */
module Dict {
  import opened Common

  // ---------------------------------------------------------------- chains as values

  /** A bucket chain, front node first. */
  datatype Chain<V> = Nil | Link(key: string, value: V, next: Chain<V>)

  const CAPACITY := 16

  /** dict_hash: 64-bit unsigned arithmetic. */
  function Hash(s: string, h: nat): nat {
    if s == "" then h else Hash(s[1..], (h * 33 + s[0] as int) % WORD)
  }

  /** One more than the largest unsigned long. */
  const WORD := 0x1_0000_0000_0000_0000

  /** The characters weighted with powers of 33, the last one with 1. */
  function Weighted(s: string): nat {
    if s == "" then 0 else s[0] as int * Power33(|s| - 1) + Weighted(s[1..])
  }

  function Power33(k: nat): nat {
    if k == 0 then 1 else 33 * Power33(k - 1)
  }

  /** Wrap-around in every step or once at the end is the same: the hash is a number to base 33. */
  lemma {:induction false} HashSum(s: string, h: nat)
    ensures Hash(s, h) % WORD == (h * Power33(|s|) + Weighted(s)) % WORD
  {
    if s == "" {
    } else {
      var c, p := s[0] as int, Power33(|s| - 1);
      var next := h * 33 + c;
      HashSum(s[1..], next % WORD);
      WrapOnce(next, p, Weighted(s[1..]));
      Expand(h, c, p);
    }
  }

  lemma Expand(h: nat, c: nat, p: nat)
    ensures (h * 33 + c) * p == h * (33 * p) + c * p
  {}

  lemma WrapOnce(a: nat, p: nat, b: nat)
    ensures ((a % WORD) * p + b) % WORD == (a * p + b) % WORD
  {
    var q := a / WORD;
    assert a * p == (a % WORD) * p + (q * p) * WORD by { assert a == q * WORD + a % WORD; }
    Multiples((a % WORD) * p + b, q * p);
  }

  lemma {:induction false} Multiples(x: nat, k: nat)
    ensures (x + k * WORD) % WORD == x % WORD
  {
    if k == 0 {
    } else {
      Multiples(x, k - 1);
      assert x + k * WORD == (x + (k - 1) * WORD) + WORD;
    }
  }

  function Slot(key: string): (b: nat)
    ensures b < CAPACITY
  {
    Hash(key, 5381) % CAPACITY
  }

  /** The bucket of a key as one formula. */
  lemma SlotIs(key: string)
    ensures Slot(key) == ((5381 * Power33(|key|) + Weighted(key)) % WORD) % 16
  {
    HashSum(key, 5381);
    HashRange(key, 5381);
    InRange(Hash(key, 5381));
  }

  lemma InRange(h: nat)
    requires h < WORD
    ensures h % WORD == h
  {}

  lemma {:induction false} HashRange(s: string, h: nat)
    requires h < WORD
    ensures Hash(s, h) < WORD
  {
    if s == "" {
    } else {
      HashRange(s[1..], (h * 33 + s[0] as int) % WORD);
    }
  }

  /** The value at the first node with the key. */
  function Find<V>(c: Chain<V>, key: string): Option<V> {
    if c.Nil? then None else if c.key == key then Some(c.value) else Find(c.next, key)
  }

  /** c with the value at the first node with the key replaced. */
  function Overwrite<V>(c: Chain<V>, key: string, v: V): Chain<V> {
    if c.Nil? then Nil
    else if c.key == key then Link(key, v, c.next)
    else Link(c.key, c.value, Overwrite(c.next, key, v))
  }

  function Put<V>(c: Chain<V>, key: string, v: V): Chain<V> {
    if Find(c, key).Some? then Overwrite(c, key, v) else Link(key, v, c)
  }

  /** The keys of a chain, front node first. */
  ghost function KeysOf<V>(c: Chain<V>): seq<string> {
    if c.Nil? then [] else [c.key] + KeysOf(c.next)
  }

  /** A new key comes to the front of its chain; a known one stays in its place. */
  lemma {:induction false} PutKeys<V>(c: Chain<V>, key: string, v: V)
    ensures KeysOf(Put(c, key, v)) == if key in KeysOf(c) then KeysOf(c) else [key] + KeysOf(c)
    ensures Find(c, key).Some? <==> key in KeysOf(c)
  {
    if c.Nil? {
    } else {
      PutKeys(c.next, key, v);
    }
  }

  /** dset on the chains. */
  function DSet<V>(bs: seq<Chain<V>>, key: string, v: V): (r: seq<Chain<V>>)
    requires |bs| == CAPACITY
    ensures |r| == CAPACITY
  {
    bs[Slot(key) := Put(bs[Slot(key)], key, v)]
  }

  /** dget on the chains. */
  function DGet<V>(bs: seq<Chain<V>>, key: string): Option<V>
    requires |bs| == CAPACITY
  {
    Find(bs[Slot(key)], key)
  }

  function Empty<V>(): seq<Chain<V>> {
    seq(CAPACITY, _ => Nil)
  }

  /** No key twice, and every key hashes to bucket b. */
  ghost predicate ProperChain<V>(c: Chain<V>, b: nat) {
    c.Link? ==> Find(c.next, c.key).None? && Slot(c.key) == b && ProperChain(c.next, b)
  }

  ghost predicate Proper<V>(bs: seq<Chain<V>>) {
    |bs| == CAPACITY && forall b :: 0 <= b < CAPACITY ==> ProperChain(bs[b], b)
  }

  /** The map a chain stands for, and the map of all chains from bucket b on. */
  ghost function ChainMap<V>(c: Chain<V>): map<string, V> {
    if c.Nil? then map[] else ChainMap(c.next)[c.key := c.value]
  }

  ghost function Contents<V>(bs: seq<Chain<V>>): map<string, V> {
    if bs == [] then map[] else Contents(bs[1..]) + ChainMap(bs[0])
  }

  lemma {:induction false} FindInMap<V>(c: Chain<V>, key: string)
    ensures Find(c, key) == if key in ChainMap(c) then Some(ChainMap(c)[key]) else None
  {
    if c.Nil? {
    } else {
      FindInMap(c.next, key);
    }
  }

  lemma {:induction false} PutInMap<V>(c: Chain<V>, key: string, v: V)
    ensures ChainMap(Put(c, key, v)) == ChainMap(c)[key := v]
  {
    if c.Link? && c.key != key {
      PutInMap(c.next, key, v);
      var d, m := Put(c.next, key, v), ChainMap(c.next);
      if Find(c.next, key).Some? {
        assert Put(c, key, v) == Link(c.key, c.value, d);
        assert m[key := v][c.key := c.value] == m[c.key := c.value][key := v];
      }
    } else if c.Link? {
      assert ChainMap(c.next)[key := c.value][key := v] == ChainMap(c.next)[key := v];
    }
  }

  lemma {:induction false} PutKeepsProper<V>(c: Chain<V>, key: string, v: V, b: nat)
    requires ProperChain(c, b) && Slot(key) == b
    ensures ProperChain(Put(c, key, v), b)
  {
    if Find(c, key).Some? { OverwriteKeepsProper(c, key, v, b); }
  }

  lemma {:induction false} OverwriteKeepsProper<V>(c: Chain<V>, key: string, v: V, b: nat)
    requires ProperChain(c, b)
    ensures ProperChain(Overwrite(c, key, v), b)
  {
    if c.Nil? || c.key == key {
    } else {
      OverwriteKeepsProper(c.next, key, v, b);
      FindOverwritten(c.next, key, v, c.key);
    }
  }

  lemma {:induction false} FindOverwritten<V>(c: Chain<V>, key: string, v: V, k: string)
    requires k != key
    ensures Find(Overwrite(c, key, v), k) == Find(c, k)
  {
    if c.Nil? {
    } else {
      FindOverwritten(c.next, key, v, k);
    }
  }

  /** Keys hash to their bucket. */
  lemma {:induction false} KeysInSlot<V>(c: Chain<V>, b: nat, key: string)
    requires ProperChain(c, b) && key in ChainMap(c)
    ensures Slot(key) == b
  {
    if c.Nil? || key == c.key {
    } else {
      KeysInSlot(c.next, b, key);
    }
  }

  /** The buckets bs are bucket b and the following ones. */
  ghost predicate ProperFrom<V>(bs: seq<Chain<V>>, b: nat) {
    forall i :: 0 <= i < |bs| ==> ProperChain(bs[i], b + i)
  }

  lemma {:induction false} ContentsAt<V>(bs: seq<Chain<V>>, b: nat, key: string)
    requires ProperFrom(bs, b)
    ensures key in Contents(bs) <==> b <= Slot(key) < b + |bs| && key in ChainMap(bs[Slot(key) - b])
    ensures key in Contents(bs) ==> Contents(bs)[key] == ChainMap(bs[Slot(key) - b])[key]
  {
    if bs == [] {
    } else {
      assert forall i :: 0 <= i < |bs[1..]| ==> bs[1..][i] == bs[i + 1];
      ContentsAt(bs[1..], b + 1, key);
      if key in ChainMap(bs[0]) { KeysInSlot(bs[0], b, key); }
    }
  }

  /** dget finds exactly what the dictionary holds. */
  lemma DGetContents<V>(bs: seq<Chain<V>>, key: string)
    requires Proper(bs)
    ensures DGet(bs, key) == if key in Contents(bs) then Some(Contents(bs)[key]) else None
  {
    ContentsAt(bs, 0, key);
    FindInMap(bs[Slot(key)], key);
  }

  /** dset changes the one key. */
  lemma DSetContents<V>(bs: seq<Chain<V>>, key: string, v: V)
    requires Proper(bs)
    ensures Proper(DSet(bs, key, v)) && Contents(DSet(bs, key, v)) == Contents(bs)[key := v]
  {
    var cs, b := DSet(bs, key, v), Slot(key);
    PutKeepsProper(bs[b], key, v, b);
    PutInMap(bs[b], key, v);
    forall k ensures k in Contents(cs) <==> k in Contents(bs)[key := v] { DSetAt(bs, key, v, k); }
    forall k | k in Contents(cs) ensures Contents(cs)[k] == Contents(bs)[key := v][k] { DSetAt(bs, key, v, k); }
  }

  lemma DSetAt<V>(bs: seq<Chain<V>>, key: string, v: V, k: string)
    requires Proper(bs) && Proper(DSet(bs, key, v))
    requires ChainMap(Put(bs[Slot(key)], key, v)) == ChainMap(bs[Slot(key)])[key := v]
    ensures k in Contents(DSet(bs, key, v)) <==> k == key || k in Contents(bs)
    ensures k in Contents(DSet(bs, key, v)) ==>
              Contents(DSet(bs, key, v))[k] == if k == key then v else Contents(bs)[k]
  {
    ContentsAt(bs, 0, k);
    ContentsAt(DSet(bs, key, v), 0, k);
  }

  lemma EmptyContents<V>()
    ensures Proper(Empty<V>()) && Contents(Empty<V>()) == map[]
  {
    forall k ensures k !in Contents(Empty<V>()) { ContentsAt(Empty<V>(), 0, k); }
  }

  lemma NoEntries<V>(bs: seq<Chain<V>>)
    requires bs == Empty()
    ensures Proper(bs) && Contents(bs) == map[] && |Contents(bs)| == 0
  {
    EmptyContents<V>();
  }

  lemma CountAfter<V>(m: map<string, V>, key: string, v: V)
    ensures |m[key := v]| == |m| + if key in m then 0 else 1
  {}

  // ---------------------------------------------------------------- the linked nodes

  /** A node of a bucket chain. New nodes go to the front, so a node's successor never changes. Its key
      is missing when the copy of the key could not be allocated. */
  class DictNode<V> {
    const key: Option<string>
    var value: V
    const next: DictNode?<V>
    /** The nodes of the chain from here on. */
    ghost const Repr: set<DictNode<V>>

    ghost predicate Valid()
      decreases Repr
    {
      && this in Repr && key.Some?
      && (next == null ==> Repr == {this})
      && (next != null ==> next.Repr < Repr && this !in next.Repr && Repr == {this} + next.Repr && next.Valid())
    }

    constructor (key: Option<string>, value: V, next: DictNode?<V>)
      requires next != null ==> next.Valid()
      ensures (key.Some? ==> Valid()) && this.key == key && this.value == value && this.next == next
      ensures Repr == {this} + Nodes(next)
    {
      this.key := key;
      this.value := value;
      this.next := next;
      Repr := {this} + Nodes(next);
    }
  }

  ghost function Nodes<V>(n: DictNode?<V>): set<DictNode<V>> {
    if n == null then {} else n.Repr
  }

  ghost predicate ValidChain<V>(n: DictNode?<V>) {
    n != null ==> n.Valid()
  }

  /** The chain that starts at node n. */
  function ChainOf<V>(n: DictNode?<V>): Chain<V>
    requires ValidChain(n)
    reads Nodes(n)
    decreases Nodes(n)
  {
    if n == null then Nil else Link(n.key.value, n.value, ChainOf(n.next))
  }

  /** Node m is reached from n past nodes that all have other keys. */
  ghost predicate Past<V>(n: DictNode?<V>, m: DictNode?<V>, key: string)
    requires ValidChain(n)
    decreases Nodes(n)
  {
    n == m || (n != null && n.key != Some(key) && Past(n.next, m, key))
  }

  lemma {:induction false} PastStep<V>(n: DictNode?<V>, m: DictNode<V>, key: string)
    requires ValidChain(n) && Past(n, m, key) && m.key != Some(key)
    ensures m.Valid() && m in Nodes(n) && Past(n, m.next, key)
    decreases Nodes(n)
  {
    if n == m {
    } else {
      PastStep(n.next, m, key);
    }
  }

  lemma {:induction false} PastNode<V>(n: DictNode?<V>, m: DictNode?<V>, key: string)
    requires ValidChain(n) && Past(n, m, key)
    ensures ValidChain(m) && Nodes(m) <= Nodes(n) && Find(ChainOf(n), key) == Find(ChainOf(m), key)
    decreases Nodes(n)
  {
    if n == m {
    } else {
      PastNode(n.next, m, key);
    }
  }

  /** The chain from n with the values given by vals. */
  ghost function ChainAs<V>(n: DictNode?<V>, vals: map<DictNode<V>, V>): Chain<V>
    requires ValidChain(n) && Nodes(n) <= vals.Keys
    decreases Nodes(n)
  {
    if n == null then Nil else Link(n.key.value, vals[n], ChainAs(n.next, vals))
  }

  lemma {:induction false} ChainIs<V>(n: DictNode?<V>, vals: map<DictNode<V>, V>)
    requires ValidChain(n) && Nodes(n) <= vals.Keys && forall x :: x in Nodes(n) ==> vals[x] == x.value
    ensures ChainOf(n) == ChainAs(n, vals)
    decreases Nodes(n)
  {
    if n == null {
    } else {
      ChainIs(n.next, vals);
    }
  }

  /** Assigning to the value of the first node with the key overwrites it in the chain. */
  lemma {:induction false} AssignOverwrites<V>(n: DictNode?<V>, m: DictNode<V>, key: string, v: V,
          vals: map<DictNode<V>, V>)
    requires ValidChain(n) && Nodes(n) <= vals.Keys && Past(n, m, key) && m.key == Some(key)
    ensures ChainAs(n, vals[m := v]) == Overwrite(ChainAs(n, vals), key, v)
    decreases Nodes(n)
  {
    if n == m {
      AssignElsewhere(n.next, m, v, vals);
    } else {
      AssignOverwrites(n.next, m, key, v, vals);
    }
  }

  lemma {:induction false} AssignElsewhere<V>(n: DictNode?<V>, m: DictNode<V>, v: V, vals: map<DictNode<V>, V>)
    requires ValidChain(n) && Nodes(n) <= vals.Keys && m !in Nodes(n)
    ensures ChainAs(n, vals[m := v]) == ChainAs(n, vals)
    decreases Nodes(n)
  {
    if n == null {
    } else {
      AssignElsewhere(n.next, m, v, vals);
    }
  }

  class Dict<V> {
    const buckets: array<DictNode?<V>>
    var count: nat
    ghost var Repr: set<DictNode<V>>
    /** The bucket chains as values. */
    ghost var chains: seq<Chain<V>>

    /** The chains are well formed and share no node. */
    ghost predicate Shape()
      reads this, buckets
    {
      && buckets.Length == CAPACITY
      && (forall b :: 0 <= b < CAPACITY ==> ValidChain(buckets[b]) && Nodes(buckets[b]) <= Repr)
      && (forall a, b :: 0 <= a < b < CAPACITY ==> Nodes(buckets[a]) !! Nodes(buckets[b]))
    }

    ghost predicate Valid()
      reads this, buckets, Repr
    {
      Shape() && chains == Chains() && Proper(chains) && count == |Contents(chains)|
    }

    /** The bucket chains. */
    function Chains(): seq<Chain<V>>
      requires Shape()
      reads this, buckets, Repr
    {
      seq(CAPACITY, b requires 0 <= b < CAPACITY && Shape() reads this, buckets, Repr => ChainOf(buckets[b]))
    }

    constructor ()
      ensures Valid() && fresh(buckets) && fresh(Repr) && chains == Empty() && Contents(chains) == map[]
    {
      buckets := new DictNode?<V>[CAPACITY](_ => null);
      count := 0;
      Repr, chains := {}, Empty();
      new;
      NoNodes();
      NoEntries<V>(chains);
    }

    /** Sixteen empty buckets hold nothing. */
    lemma NoNodes()
      requires buckets.Length == CAPACITY && forall b :: 0 <= b < CAPACITY ==> buckets[b] == null
      ensures Shape() && Chains() == Empty()
    {
      forall b | 0 <= b < CAPACITY ensures Chains()[b] == Empty<V>()[b] {}
    }

    /** The first node with the key in bucket h. */
    method Locate(h: nat, key: string) returns (node: DictNode?<V>)
      requires Shape() && h < CAPACITY
      ensures Past(buckets[h], node, key) && ValidChain(node) && Nodes(node) <= Repr
      ensures Find(Chains()[h], key) == if node == null then None else Some(node.value)
      ensures node != null ==> node in Nodes(buckets[h]) && node.key == Some(key)
    {
      node := buckets[h];
      while node != null && node.key.value != key
        invariant ValidChain(node) && Past(buckets[h], node, key)
        decreases Nodes(node)
      {
        PastStep(buckets[h], node, key);
        node := node.next;
      }
      PastNode(buckets[h], node, key);
    }

    /** dget. */
    method Get(key: string) returns (r: Option<V>)
      requires Valid()
      ensures r == DGet(chains, key)
      ensures r == if key in Contents(chains) then Some(Contents(chains)[key]) else None
    {
      DGetContents(chains, key);
      var node := Locate(Slot(key), key);
      r := if node == null then None else Some(node.value);
    }

    /** Bucket h starts with a node that has no key, in front of the chain it had before. */
    ghost predicate Spoiled(h: nat, before: DictNode?<V>)
      reads this, buckets
    {
      && buckets.Length == CAPACITY && h < CAPACITY && buckets[h] != null
      && buckets[h].key.None? && buckets[h].next == before
    }

    /** dset; oom says that a new node cannot be allocated, keyOom that the copy of its key cannot. In
        the second case the code links the node all the same. */
    method Set(key: string, val: V, oom: bool, keyOom: bool)
      requires Valid()
      modifies this, buckets, Repr
      ensures key in old(Contents(chains)) || oom || !keyOom ==>
                && Valid() && fresh(Repr - old(Repr))
                && chains == (if oom && key !in old(Contents(chains)) then old(chains) else DSet(old(chains), key, val))
                && Contents(chains) == if oom && key !in old(Contents(chains)) then old(Contents(chains))
                                       else old(Contents(chains))[key := val]
      ensures key !in old(Contents(chains)) && !oom && keyOom ==>
                && Spoiled(Slot(key), old(buckets[Slot(key)])) && !Valid() && count == old(count) + 1
                && (forall b :: 0 <= b < CAPACITY && b != Slot(key) ==> buckets[b] == old(buckets[b]))
                && forall n :: n in old(Repr) ==> n.value == old(n.value)
    {
      DSetContents(chains, key, val);
      DGetContents(chains, key);
      CountAfter(Contents(chains), key, val);
      Write(Slot(key), key, val, oom, keyOom);
    }

    /** dset with memory at hand. */
    method Store(key: string, val: V)
      requires Valid()
      modifies this, buckets, Repr
      ensures Valid() && fresh(Repr - old(Repr)) && chains == DSet(old(chains), key, val)
    {
      Set(key, val, false, false);
    }

    /** The work of dset, on the nodes: overwrite in place or link a new front node. */
    method Write(h: nat, key: string, val: V, oom: bool, keyOom: bool)
      requires Shape() && chains == Chains() && h == Slot(key)
      modifies this, buckets, Repr
      ensures DGet(old(chains), key).Some? || oom || !keyOom ==>
                && Shape() && chains == Chains() && fresh(Repr - old(Repr))
                && chains == (if oom && DGet(old(chains), key).None? then old(chains) else DSet(old(chains), key, val))
                && count == old(count) + if oom || DGet(old(chains), key).Some? then 0 else 1
      ensures DGet(old(chains), key).None? && !oom && keyOom ==>
                && Spoiled(h, old(buckets[h])) && count == old(count) + 1
                && (forall b :: 0 <= b < CAPACITY && b != h ==> buckets[b] == old(buckets[b]))
                && forall n :: n in old(Repr) ==> n.value == old(n.value)
    {
      ghost var bs := chains;
      var node := Locate(h, key);
      if node != null {
        Assign(h, key, val, node);
        chains := DSet(bs, key, val);
      } else if !oom {
        if keyOom {
          Spoil(h, val);
        } else {
          PushFront(h, key, val);
          chains := DSet(bs, key, val);
        }
      }
    }

    /** Puts a node without a key at the front of bucket h. */
    method Spoil(h: nat, val: V)
      requires Shape() && h < CAPACITY
      modifies this`count, buckets
      ensures Spoiled(h, old(buckets[h])) && count == old(count) + 1
      ensures forall b :: 0 <= b < CAPACITY && b != h ==> buckets[b] == old(buckets[b])
    {
      var node := new DictNode(None, val, buckets[h]);
      buckets[h] := node;
      count := count + 1;
    }

    /** Overwrites the value of a node. */
    method Assign(ghost h: nat, ghost key: string, val: V, node: DictNode<V>)
      requires Shape() && h < CAPACITY && Slot(key) == h && Past(buckets[h], node, key) && node.key == Some(key)
      requires node in Nodes(buckets[h]) && Find(Chains()[h], key).Some?
      modifies node
      ensures Shape() && Chains() == DSet(old(Chains()), key, val)
    {
      ghost var head, bs := buckets[h], Chains();
      ghost var vals := map x | x in Nodes(head) :: x.value;
      ChainIs(head, vals);
      AssignOverwrites(head, node, key, val, vals);
      node.value := val;
      ChainIs(head, vals[node := val]);
      assert Chains()[h] == Put(bs[h], key, val);
      assert forall b :: 0 <= b < CAPACITY && b != h ==> ChainOf(buckets[b]) == old(ChainOf(buckets[b]));
      assert Chains() == DSet(bs, key, val);
    }

    /** Puts a new node at the front of bucket h. */
    method PushFront(h: nat, key: string, val: V)
      requires Shape() && h < CAPACITY && Slot(key) == h && Find(Chains()[h], key).None?
      modifies this`Repr, this`count, buckets
      ensures Shape() && fresh(Repr - old(Repr)) && old(Repr) <= Repr
      ensures Chains() == DSet(old(Chains()), key, val) && count == old(count) + 1
    {
      ghost var bs := Chains();
      var node := new DictNode(Some(key), val, buckets[h]);
      Relink(h, node);
      count := count + 1;
      assert Chains() == DSet(bs, key, val);
    }

    /** Makes node, whose successor is the front of bucket h, its new front. */
    method Relink(h: nat, node: DictNode<V>)
      requires Shape() && h < CAPACITY && node !in Repr && node.Valid() && node.next == buckets[h] && node.key.Some?
      modifies buckets, this`Repr
      ensures Shape() && Repr == old(Repr) + {node} && buckets[h] == node
      ensures forall b :: 0 <= b < CAPACITY && b != h ==> buckets[b] == old(buckets[b])
      ensures Chains() == old(Chains())[h := Link(node.key.value, node.value, old(Chains())[h])]
    {
      ghost var bs := Chains();
      assert ChainOf(node) == Link(node.key.value, node.value, ChainOf(buckets[h]));
      buckets[h] := node;
      Repr := Repr + {node};
      assert Chains() == bs[h := Link(node.key.value, node.value, bs[h])];
    }
  }
}
