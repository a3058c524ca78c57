/** The object pool (pool_alloc, track_dynamic, the constructors, free_internals, del and
    abs_cleanup in src/abs.c). Objects are slots of blocks of 1024; the memory of the slots handed
    out so far is an explicit map, and the list of tracked objects is threaded through it. */
module Pool {
  import opened Common

  const POOL_BLOCK_SIZE := 1024

  /** An address: a place in a block. */
  datatype Slot = Slot(block: nat, index: nat)

  /** What matters of an object's type: ABS_NONE, a type without a heap payload (ABS_INT is one, and
      is what zeroed memory reads as), or a type that owns one. */
  datatype Kind = KNone | Plain | Owner
  type PlainKind = k: Kind | !k.Owner? witness KNone

  datatype Obj = Obj(kind: Kind, next: Option<Slot>)

  /** What is given back to the C library: the payload of an object, or a whole block. */
  datatype Event = Release(o: Slot) | FreeBlock(b: nat)

  /** The list that starts at head and is threaded through the objects. */
  ghost predicate Linked(objects: map<Slot, Obj>, head: Option<Slot>, list: seq<Slot>)
    decreases list
  {
    if list == [] then head == None
    else head == Some(list[0]) && list[0] in objects && Linked(objects, objects[list[0]].next, list[1..])
  }

  lemma {:induction false} LinkedFrame(m: map<Slot, Obj>, n: map<Slot, Obj>, head: Option<Slot>, list: seq<Slot>)
    requires Linked(m, head, list) && forall s :: s in list && s in m ==> s in n && n[s].next == m[s].next
    ensures Linked(n, head, list)
    decreases list
  {
    if list == [] {
    } else {
      LinkedFrame(m, n, m[list[0]].next, list[1..]);
    }
  }

  lemma LinkedCons(m: map<Slot, Obj>, head: Option<Slot>, list: seq<Slot>, o: Slot, x: Obj)
    requires Linked(m, head, list) && o !in list && x.next == head
    ensures Linked(m[o := x], Some(o), [o] + list)
  {
    LinkedFrame(m, m[o := x], head, list);
    assert ([o] + list)[1..] == list;
  }

  lemma DistinctCons<T>(x: T, s: seq<T>)
    requires Distinct(s) && x !in s
    ensures Distinct([x] + s)
  {}

  /** How often the payload of o has been released. */
  ghost function Releases(log: seq<Event>, o: Slot): nat {
    multiset(log)[Release(o)]
  }

  ghost predicate Booked(objects: map<Slot, Obj>, tracked: seq<Slot>, log: seq<Event>) {
    && (forall s :: s in objects && objects[s].kind.Owner? ==> s in tracked)
    && (forall s :: s in tracked ==> s in objects)
    && (forall s :: Releases(log, s) == if s in tracked && !objects[s].kind.Owner? then 1 else 0)
    && (forall e :: e in log ==> e.Release?)
  }

  /** A new owner is booked. */
  lemma BookOwner(m: map<Slot, Obj>, tracked: seq<Slot>, log: seq<Event>, o: Slot, x: Obj)
    requires Booked(m, tracked, log) && o in m && o !in tracked && x.kind.Owner?
    ensures Booked(m[o := x], [o] + tracked, log)
  {}

  /** An object that gives its payload back is no owner any more. */
  lemma BookDeleted(m: map<Slot, Obj>, tracked: seq<Slot>, log: seq<Event>, o: Slot, x: Obj)
    requires Booked(m, tracked, log) && o in m && x.kind.KNone?
    ensures Booked(m[o := x], tracked, log + if m[o].kind.Owner? then [Release(o)] else [])
  {}

  /** The payload of each of these objects has been released once and of no other, each of these
      blocks freed once and no other, and all releases came first. */
  ghost predicate AllReturned(log: seq<Event>, owners: seq<Slot>, blocks: seq<nat>) {
    && (forall s :: Releases(log, s) == if s in owners then 1 else 0)
    && (forall b :: multiset(log)[FreeBlock(b)] == if b in blocks then 1 else 0)
    && (forall i, j :: 0 <= i < |log| && 0 <= j < |log| && log[i].Release? && log[j].FreeBlock? ==> i < j)
  }

  /** The first loop of abs_cleanup has passed the first i tracked objects. */
  ghost predicate Passed(objects: map<Slot, Obj>, tracked: seq<Slot>, log: seq<Event>, i: nat) {
    && i <= |tracked| && (forall s :: s in tracked ==> s in objects)
    && (forall s :: Releases(log, s)
                    == if s in tracked && (!objects[s].kind.Owner? || s in tracked[..i]) then 1 else 0)
    && (forall e :: e in log ==> e.Release?)
  }

  lemma PassOne(m: map<Slot, Obj>, tracked: seq<Slot>, log: seq<Event>, i: nat)
    requires Passed(m, tracked, log, i) && i < |tracked| && Distinct(tracked)
    ensures tracked[i] in m
            && Passed(m, tracked, log + if m[tracked[i]].kind.Owner? then [Release(tracked[i])] else [], i + 1)
  {
    assert tracked[..i + 1] == tracked[..i] + [tracked[i]];
  }

  lemma PassedAll(m: map<Slot, Obj>, tracked: seq<Slot>, log: seq<Event>)
    requires Passed(m, tracked, log, |tracked|)
    ensures AllReturned(log, tracked, [])
  {
    assert tracked[..|tracked|] == tracked;
    forall b ensures multiset(log)[FreeBlock(b)] == 0 { assert FreeBlock(b) !in log; }
    forall j | 0 <= j < |log| ensures log[j].Release? { assert log[j] in log; }
  }

  class Heap {
    /** pool_head: the blocks, newest first. */
    var blocks: seq<nat>
    /** pool_index: the slots of the newest block in use. */
    var index: nat
    /** The memory of the slots in use. */
    var objects: map<Slot, Obj>
    /** gc_dynamic_head. */
    var gcHead: Option<Slot>
    /** The number malloc gives to the next block; it never gives out a live block again. */
    var nextBlock: nat
    /** All that has been given back to the C library. */
    var log: seq<Event>

    /** The slots handed out, and the tracked objects, latest first. */
    ghost var handed: seq<Slot>
    ghost var tracked: seq<Slot>

    /** The slots handed out are pairwise distinct places in live blocks. */
    ghost predicate PoolValid()
      reads this
    {
      && Distinct(blocks) && (forall b :: b in blocks ==> b < nextBlock)
      && index <= POOL_BLOCK_SIZE && Distinct(handed)
      && (forall s :: s in handed <==> s in objects)
      && forall s :: s in handed ==>
           s.block in blocks && s.index < POOL_BLOCK_SIZE && (s.block == blocks[0] ==> s.index < index)
    }

    /** Every owner is tracked once; a tracked object's payload is released once it is no owner any
        more, and no block has been freed. */
    ghost predicate Valid()
      reads this
    {
      PoolValid() && Linked(objects, gcHead, tracked) && Distinct(tracked) && Booked(objects, tracked, log)
    }

    /** abs_init on a fresh program. */
    constructor ()
      ensures Valid() && handed == [] && tracked == [] && log == []
    {
      blocks, index, objects, gcHead, nextBlock := [], 0, map[], None, 0;
      handed, tracked, log := [], [], [];
    }

    /** pool_alloc; oom says that a new block cannot be allocated. The slot was never handed out
        before, whichever block it comes from. */
    method PoolAlloc(oom: bool) returns (r: Option<Slot>)
      requires Valid()
      modifies this
      ensures Valid() && tracked == old(tracked) && log == old(log) && gcHead == old(gcHead)
      ensures r.None? <==> oom && (old(blocks) == [] || old(index) >= 1024)
      ensures r.None? ==> handed == old(handed) && objects == old(objects)
      ensures r.Some? ==> r.value !in old(handed) && handed == old(handed) + [r.value]
                          && objects == old(objects)[r.value := Obj(Plain, None)]
    {
      if blocks == [] || index >= POOL_BLOCK_SIZE {
        if oom {
          return None;
        }
        NewBlock();
      }
      var slot := TakeSlot();
      r := Some(slot);
    }

    method NewBlock()
      requires Valid()
      modifies this`blocks, this`nextBlock, this`index
      ensures Valid() && blocks != [] && index == 0
    {
      DistinctCons(nextBlock, blocks);
      blocks := [nextBlock] + blocks;
      nextBlock := nextBlock + 1;
      index := 0;
    }

    /** Hands out the next slot of the newest block, its memory zeroed. */
    method TakeSlot() returns (slot: Slot)
      requires Valid() && blocks != [] && index < POOL_BLOCK_SIZE
      modifies this`index, this`objects, this`handed
      ensures Valid() && slot !in old(handed) && handed == old(handed) + [slot]
      ensures objects == old(objects)[slot := Obj(Plain, None)]
    {
      slot := Slot(blocks[0], index);
      assert slot !in handed;
      LinkedFrame(objects, objects[slot := Obj(Plain, None)], gcHead, tracked);
      index := index + 1;
      objects := objects[slot := Obj(Plain, None)];
      handed := handed + [slot];
    }

    /** The constructors of types without a payload: abs_new_int, abs_new_bool, ... */
    method NewPlain(kind: PlainKind, oom: bool) returns (r: Option<Slot>)
      requires Valid()
      modifies this
      ensures Valid() && log == old(log) && tracked == old(tracked)
      ensures r.None? ==> oom && handed == old(handed) && objects == old(objects)
      ensures r.Some? ==> r.value !in old(handed) && handed == old(handed) + [r.value]
                          && objects == old(objects)[r.value := Obj(kind, None)]
    {
      r := PoolAlloc(oom);
      if r.Some? { SetKind(r.value, kind); }
    }

    method SetKind(o: Slot, kind: Kind)
      requires Valid() && o in objects && !objects[o].kind.Owner? && !kind.Owner?
      modifies this`objects
      ensures Valid() && objects == old(objects)[o := Obj(kind, old(objects)[o].next)]
    {
      LinkedFrame(objects, objects[o := Obj(kind, objects[o].next)], gcHead, tracked);
      objects := objects[o := Obj(kind, objects[o].next)];
    }

    /** The constructors of types with a payload: abs_new_str, abs_new_list, abs_new_dict, ...
        Without memory for the payload the slot becomes ABS_NONE and is not tracked. */
    method NewOwner(oom: bool, payloadOom: bool) returns (r: Option<Slot>)
      requires Valid()
      modifies this
      ensures Valid() && log == old(log)
      ensures r.Some? ==> r.value !in old(handed) && handed == old(handed) + [r.value]
                          && tracked == [r.value] + old(tracked)
      ensures r.None? ==> (oom || payloadOom) && tracked == old(tracked)
      ensures r.Some? ==> !payloadOom && r.value in objects && objects[r.value].kind.Owner?
      ensures old(handed) <= handed && |handed| <= |old(handed)| + 1
    {
      r := PoolAlloc(oom);
      if r.None? {
        return;
      }
      if payloadOom {
        SetKind(r.value, KNone);
        return None;
      }
      TrackDynamic(r.value);
    }

    /** track_dynamic on a new object, which becomes an owner. */
    method TrackDynamic(o: Slot)
      requires Valid() && o in objects && o !in tracked
      modifies this`objects, this`gcHead, this`tracked
      ensures Valid() && tracked == [o] + old(tracked) && objects[o].kind.Owner?
    {
      ghost var m := objects;
      BookOwner(m, tracked, log, o, Obj(Owner, gcHead));
      LinkedCons(m, gcHead, tracked, o, Obj(Owner, gcHead));
      DistinctCons(o, tracked);
      objects := objects[o := Obj(Owner, gcHead)];
      gcHead := Some(o);
      tracked := [o] + tracked;
    }

    /** free_internals. */
    method FreeInternals(o: Slot)
      requires o in objects
      modifies this`log
      ensures log == old(log) + if objects[o].kind.Owner? then [Release(o)] else []
    {
      if objects[o].kind.Owner? { log := log + [Release(o)]; }
    }

    /** del, on a null pointer or an object that was handed out. */
    method Del(o: Option<Slot>)
      requires Valid() && (o.Some? ==> o.value in handed)
      modifies this
      ensures Valid() && handed == old(handed) && tracked == old(tracked)
      ensures log == old(log) + if o.Some? && old(objects)[o.value].kind.Owner? then [Release(o.value)] else []
      ensures o.Some? ==> Releases(log, o.value) == if o.value in tracked then 1 else 0
    {
      if o.None? || objects[o.value].kind.KNone? {
        return;
      }
      ghost var m := objects;
      BookDeleted(m, tracked, log, o.value, Obj(KNone, objects[o.value].next));
      FreeInternals(o.value);
      objects := objects[o.value := Obj(KNone, objects[o.value].next)];
      LinkedFrame(m, objects, gcHead, tracked);
    }

    /** abs_cleanup: afterwards the payload of every object that ever owned one has been released
        exactly once, each block has been freed exactly once, and no payload was released after a
        block was freed. */
    method Cleanup()
      requires Valid()
      modifies this
      ensures old(log) <= log && AllReturned(log, old(tracked), old(blocks))
      ensures forall s :: s in old(handed) ==> s.block in old(blocks)
      ensures blocks == [] && index == 0 && gcHead == None
    {
      ReleaseAll();
      ghost var released := log;
      gcHead := None;
      LogOrder(released, tracked, blocks);
      FreeBlocks();
    }

    /** The second loop of abs_cleanup. */
    method FreeBlocks()
      modifies this`log, this`blocks, this`index
      ensures log == old(log) + FreeAll(old(blocks)) && blocks == [] && index == 0
    {
      for i := 0 to |blocks|
        invariant blocks == old(blocks) && log == old(log) + FreeAll(blocks[..i])
      {
        FreeAllStep(blocks, i);
        log := log + [FreeBlock(blocks[i])];
      }
      assert blocks[..|blocks|] == blocks;
      blocks := [];
      index := 0;
    }

    /** The first loop of abs_cleanup, along the list of tracked objects. */
    method ReleaseAll()
      requires Valid()
      modifies this`log
      ensures old(log) <= log && AllReturned(log, tracked, [])
    {
      var current := gcHead;
      ghost var i := 0;
      assert tracked[0..] == tracked;
      while current.Some?
        invariant i <= |tracked| && Linked(objects, current, tracked[i..]) && old(log) <= log
        invariant Passed(objects, tracked, log, i)
        decreases |tracked| - i
      {
        var temp := current.value;
        assert temp == tracked[i] && tracked[i..][1..] == tracked[i + 1..];
        current := objects[temp].next;
        PassOne(objects, tracked, log, i);
        FreeInternals(temp);
        i := i + 1;
      }
      PassedAll(objects, tracked, log);
    }
  }

  /** What a program does between abs_init and abs_cleanup. Delete passes the result of an earlier
      call to del; where that is no object, it is a null pointer. */
  datatype Op = MakePlain(kind: PlainKind, oom: bool) | MakeOwner(oom: bool, payloadOom: bool) | Delete(k: nat)

  function Target(made: seq<Option<Slot>>, k: nat): Option<Slot> {
    if k < |made| then made[k] else None
  }

  /** s is what one of the constructors of owners returned. */
  ghost predicate MadeOwner(ops: seq<Op>, made: seq<Option<Slot>>, s: Slot)
    requires |made| <= |ops|
  {
    exists i :: 0 <= i < |made| && made[i] == Some(s) && ops[i].MakeOwner?
  }

  /** A constructor returns an object unless an allocation it makes fails. */
  predicate Answers(op: Op, r: Option<Slot>) {
    match op
    case MakePlain(_, oom) => r.None? ==> oom
    case MakeOwner(oom, payloadOom) => (r.None? ==> oom || payloadOom) && (payloadOom ==> r.None?)
    case Delete(_) => r.None?
  }

  /** One result for each operation, and no object returned twice. */
  ghost predicate Answered(ops: seq<Op>, made: seq<Option<Slot>>) {
    && |made| <= |ops| && (forall i :: 0 <= i < |made| ==> Answers(ops[i], made[i]))
    && forall i, j :: 0 <= i < j < |made| && made[i].Some? ==> made[i] != made[j]
  }

  ghost predicate AllHanded(made: seq<Option<Slot>>, handed: seq<Slot>) {
    forall i :: 0 <= i < |made| && made[i].Some? ==> made[i].value in handed
  }

  /** The results so far against the heap: objects returned are handed out, owners are tracked. */
  ghost predicate Accounted(ops: seq<Op>, made: seq<Option<Slot>>, handed: seq<Slot>, tracked: seq<Slot>) {
    && Answered(ops, made) && AllHanded(made, handed)
    && forall s :: s in tracked <==> MadeOwner(ops, made, s)
  }

  /** One more operation. */
  lemma AccountedStep(ops: seq<Op>, made: seq<Option<Slot>>, handed: seq<Slot>, tracked: seq<Slot>, r: Option<Slot>,
                      handed': seq<Slot>, tracked': seq<Slot>)
    requires Accounted(ops, made, handed, tracked) && |made| < |ops| && Answers(ops[|made|], r)
    requires (forall s :: s in handed ==> s in handed') && (r.Some? ==> r.value !in handed && r.value in handed')
    requires tracked' == if r.Some? && ops[|made|].MakeOwner? then [r.value] + tracked else tracked
    ensures Accounted(ops, made + [r], handed', tracked')
  {
    var more := made + [r];
    forall s ensures s in tracked' <==> MadeOwner(ops, more, s) {
      if MadeOwner(ops, made, s) {
        var i :| 0 <= i < |made| && made[i] == Some(s) && ops[i].MakeOwner?;
        assert more[i] == Some(s);
      }
      if r == Some(s) && ops[|made|].MakeOwner? { assert more[|made|] == Some(s); }
    }
  }

  /** Operation i passes an owner to del. */
  predicate Deletes(ops: seq<Op>, made: seq<Option<Slot>>, i: nat)
    requires i <= |made| && i < |ops|
  {
    ops[i].Delete? && ops[i].k < i && ops[ops[i].k].MakeOwner? && made[ops[i].k].Some?
  }

  /** marks holds the length of the log after each operation: the constructors give nothing back, and
      once an owner was passed to del its payload has been released. */
  ghost predicate Marked(ops: seq<Op>, made: seq<Option<Slot>>, marks: seq<nat>, log: seq<Event>) {
    && |marks| == |made| <= |ops| && (forall i :: 0 <= i < |marks| ==> marks[i] <= |log|)
    && (forall i :: 0 <= i < |marks| && !ops[i].Delete? ==> marks[i] == if i == 0 then 0 else marks[i - 1])
    && forall i :: 0 <= i < |marks| && Deletes(ops, made, i) ==> Release(made[ops[i].k].value) in log[..marks[i]]
  }

  lemma MarkedLonger(ops: seq<Op>, made: seq<Option<Slot>>, marks: seq<nat>, log: seq<Event>, more: seq<Event>)
    requires Marked(ops, made, marks, log) && log <= more
    ensures Marked(ops, made, marks, more)
  {
    forall i | 0 <= i < |marks| ensures log[..marks[i]] == more[..marks[i]] {}
  }

  lemma MarkedStep(ops: seq<Op>, made: seq<Option<Slot>>, marks: seq<nat>, log: seq<Event>, r: Option<Slot>)
    requires Marked(ops, made, marks, log) && |made| < |ops|
    requires !ops[|made|].Delete? ==> |log| == if marks == [] then 0 else marks[|marks| - 1]
    requires Deletes(ops, made, |made|) ==> Release(made[ops[|made|].k].value) in log
    ensures Marked(ops, made + [r], marks + [|log|], log)
  {
    assert log[..|log|] == log;
  }

  /** What one operation does to the heap, given the results so far and its own. */
  ghost predicate Ran(op: Op, made: seq<Option<Slot>>, r: Option<Slot>, handed: seq<Slot>, handed': seq<Slot>,
                      tracked: seq<Slot>, tracked': seq<Slot>, log: seq<Event>, log': seq<Event>)
  {
    && Answers(op, r) && handed <= handed' && log <= log'
    && (r.Some? ==> r.value !in handed && r.value in handed')
    && tracked' == (if r.Some? && op.MakeOwner? then [r.value] + tracked else tracked)
    && (!op.Delete? ==> log' == log)
    && (op.Delete? ==> var o := Target(made, op.k); o.Some? && o.value in tracked ==> Release(o.value) in log')
  }

  /** Carries out one operation. */
  method Run(h: Heap, op: Op, made: seq<Option<Slot>>) returns (r: Option<Slot>)
    requires h.Valid() && AllHanded(made, h.handed)
    modifies h
    ensures h.Valid() && Ran(op, made, r, old(h.handed), h.handed, old(h.tracked), h.tracked, old(h.log), h.log)
  {
    match op {
      case MakePlain(kind, oom) =>
        r := h.NewPlain(kind, oom);
      case MakeOwner(oom, payloadOom) =>
        r := h.NewOwner(oom, payloadOom);
      case Delete(k) =>
        r := None;
        h.Del(Target(made, k));
    }
  }

  /** What a session keeps: results, marks and heap belong together. */
  ghost predicate Recorded(ops: seq<Op>, made: seq<Option<Slot>>, marks: seq<nat>, handed: seq<Slot>,
                           tracked: seq<Slot>, log: seq<Event>)
  {
    && Accounted(ops, made, handed, tracked) && Marked(ops, made, marks, log)
    && |log| == if made == [] then 0 else marks[|made| - 1]
  }

  lemma RecordedStep(ops: seq<Op>, made: seq<Option<Slot>>, marks: seq<nat>, handed: seq<Slot>, handed': seq<Slot>,
                     tracked: seq<Slot>, tracked': seq<Slot>, log: seq<Event>, log': seq<Event>, r: Option<Slot>)
    requires |made| < |ops| && Recorded(ops, made, marks, handed, tracked, log)
    requires Ran(ops[|made|], made, r, handed, handed', tracked, tracked', log, log')
    ensures Recorded(ops, made + [r], marks + [|log'|], handed', tracked', log')
  {
    AccountedStep(ops, made, handed, tracked, r, handed', tracked');
    MarkedLonger(ops, made, marks, log, log');
    if Deletes(ops, made, |made|) {
      assert MadeOwner(ops, made, made[ops[|made|].k].value);
    }
    MarkedStep(ops, made, marks, log', r);
  }

  /** One round of a session. */
  method Step(h: Heap, ops: seq<Op>, made: seq<Option<Slot>>, ghost marks: seq<nat>)
    returns (made': seq<Option<Slot>>, ghost marks': seq<nat>)
    requires h.Valid() && |made| < |ops| && Recorded(ops, made, marks, h.handed, h.tracked, h.log)
    modifies h
    ensures h.Valid() && |made'| == |made| + 1 && Recorded(ops, made', marks', h.handed, h.tracked, h.log)
  {
    ghost var handed, tracked, before := h.handed, h.tracked, h.log;
    var r := Run(h, ops[|made|], made);
    RecordedStep(ops, made, marks, handed, h.handed, tracked, h.tracked, before, h.log, r);
    made', marks' := made + [r], marks + [|h.log|];
  }

  /** Every run: each constructor returns a new object unless memory runs out; at the end the payload
      of every owner returned has been released exactly once, del having done so at once, and of
      nothing else; every block with an object has been freed exactly once, after all releases. */
  method Session(ops: seq<Op>) returns (made: seq<Option<Slot>>, log: seq<Event>, ghost marks: seq<nat>)
    ensures |made| == |ops| && Answered(ops, made) && Marked(ops, made, marks, log)
    ensures forall s :: Releases(log, s) == if MadeOwner(ops, made, s) then 1 else 0
    ensures forall i :: 0 <= i < |ops| && made[i].Some? ==> multiset(log)[FreeBlock(made[i].value.block)] == 1
    ensures forall i, j :: 0 <= i < |log| && 0 <= j < |log| && log[i].Release? && log[j].FreeBlock? ==> i < j
  {
    var h := new Heap();
    made, marks := [], [];
    for i := 0 to |ops|
      invariant fresh(h) && h.Valid() && |made| == i && Recorded(ops, made, marks, h.handed, h.tracked, h.log)
    {
      made, marks := Step(h, ops, made, marks);
    }
    ghost var before := h.log;
    h.Cleanup();
    log := h.log;
    MarkedLonger(ops, made, marks, before, log);
  }

  ghost function FreeAll(bs: seq<nat>): seq<Event> {
    seq(|bs|, i requires 0 <= i < |bs| => FreeBlock(bs[i]))
  }

  lemma FreeAllStep(bs: seq<nat>, i: nat)
    requires i < |bs|
    ensures FreeAll(bs[..i + 1]) == FreeAll(bs[..i]) + [FreeBlock(bs[i])]
  {}

  lemma {:induction false} FreeAllCounts(bs: seq<nat>)
    requires Distinct(bs)
    ensures forall b :: multiset(FreeAll(bs))[FreeBlock(b)] == if b in bs then 1 else 0
    ensures forall s :: multiset(FreeAll(bs))[Release(s)] == 0
  {
    if bs == [] {
    } else {
      var n := |bs| - 1;
      FreeAllCounts(bs[..n]);
      FreeAllStep(bs, n);
      assert bs[..n + 1] == bs && bs == bs[..n] + [bs[n]];
    }
  }

  lemma CountsAdd<T>(s: seq<T>, t: seq<T>)
    ensures forall x :: multiset(s + t)[x] == multiset(s)[x] + multiset(t)[x]
  {}

  lemma LogOrder(released: seq<Event>, owners: seq<Slot>, bs: seq<nat>)
    requires Distinct(bs) && AllReturned(released, owners, [])
    ensures AllReturned(released + FreeAll(bs), owners, bs)
  {
    CountsAdd(released, FreeAll(bs));
    FreeAllCounts(bs);
    forall i | 0 <= i < |released| ensures released[i].Release? {
      assert released[i].FreeBlock? ==> multiset(released)[FreeBlock(released[i].b)] > 0;
    }
  }
}
