/** Whole runs of the hash map: any sequence of calls, with any pattern of allocation failures. */
module HashMapRuns {
  import opened HashTable
  import opened HashMap

  datatype Op =
    | Set(key: Key, value: Ptr, oomTable: bool, oomKey: bool)
    | Remove(key: Key)
    | Clear

  /** What one call does to the abstract map, given whether it succeeded. */
  ghost function Apply(m: map<string, Ptr>, op: Op, ok: bool): map<string, Ptr> {
    if op.Clear? then map[]
    else if !ok || op.key.NullKey? then m
    else if op.Set? then m[op.key.text := op.value]
    else Without(m, op.key.text)
  }

  /** What a sequence of calls does to the abstract map, given which of them succeeded. */
  ghost function Replay(m: map<string, Ptr>, ops: seq<Op>, oks: seq<bool>): map<string, Ptr>
    requires |oks| == |ops|
  {
    if ops == [] then m
    else Apply(Replay(m, ops[..|ops| - 1], oks[..|ops| - 1]), ops[|ops| - 1], oks[|ops| - 1])
  }

  /** The call, as it went, decides what becomes of key k. */
  ghost predicate Touches(op: Op, ok: bool, k: string) {
    op.Clear? || (ok && op.key == Key(k))
  }

  /** A key is where the last call that touches it has left it. */
  lemma {:induction false} LastTouchDecides(m: map<string, Ptr>, ops: seq<Op>, oks: seq<bool>, k: string, i: nat)
    requires |oks| == |ops| && i < |ops| && Touches(ops[i], oks[i], k)
    requires forall j :: i < j < |ops| ==> !Touches(ops[j], oks[j], k)
    ensures k in Replay(m, ops, oks) <==> ops[i].Set?
    ensures ops[i].Set? ==> Replay(m, ops, oks)[k] == ops[i].value
  {
    var n := |ops| - 1;
    if i < n {
      assert !Touches(ops[n], oks[n], k);
      LastTouchDecides(m, ops[..n], oks[..n], k, i);
    }
  }

  /** ... and otherwise where it was before. */
  lemma {:induction false} UntouchedStays(m: map<string, Ptr>, ops: seq<Op>, oks: seq<bool>, k: string)
    requires |oks| == |ops| && forall j :: 0 <= j < |ops| ==> !Touches(ops[j], oks[j], k)
    ensures k in Replay(m, ops, oks) <==> k in m
    ensures k in m ==> Replay(m, ops, oks)[k] == m[k]
  {
    if ops == [] {
    } else {
      var n := |ops| - 1;
      assert !Touches(ops[n], oks[n], k);
      UntouchedStays(m, ops[..n], oks[..n], k);
    }
  }

  /** The value a call hands over to the map. */
  ghost function Gain(op: Op, ok: bool): multiset<Ptr> {
    if op.Set? && ok then multiset{op.value} else multiset{}
  }

  /** The values of the successful Set calls. */
  ghost function Stored(ops: seq<Op>, oks: seq<bool>): multiset<Ptr>
    requires |oks| == |ops|
  {
    if ops == [] then multiset{}
    else Stored(ops[..|ops| - 1], oks[..|ops| - 1]) + Gain(ops[|ops| - 1], oks[|ops| - 1])
  }

  /** When a call on the map m reports success, n values having been accepted before. */
  ghost predicate Answers(m: map<string, Ptr>, n: nat, op: Op, ok: bool) {
    match op
    case Clear => ok
    case Remove(key) => ok <==> key.Key? && key.text in m
    case Set(key, value, oomTable, oomKey) =>
      && (ok ==> key.Key? && (oomKey ==> key.text in m))
      && (!ok ==> key.NullKey? || oomTable || (oomKey && key.text !in m) || n >= SetLimit)
  }

  method Step(h: Map, op: Op) returns (ok: bool)
    requires h.Valid()
    modifies h, h.keys, h.values, h.states
    ensures h.Valid() && h.SameOrFresh()
    ensures Answers(old(h.model), |old(h.accepted)|, op, ok) && h.model == Apply(old(h.model), op, ok)
    ensures h.accepted == old(h.accepted) + Gain(op, ok)
  {
    match op {
      case Set(key, value, oomTable, oomKey) =>
        ok := h.Set(key, value, oomTable, oomKey);
      case Remove(key) =>
        ok := h.Remove(key);
      case Clear =>
        h.Clear();
        ok := true;
    }
  }

  /** Every call of a run that starts with the map m answers as it must. */
  ghost predicate AllAnswer(m: map<string, Ptr>, n: nat, ops: seq<Op>, oks: seq<bool>)
    requires |oks| == |ops|
  {
    forall i :: 0 <= i < |ops| ==>
      Answers(Replay(m, ops[..i], oks[..i]), n + |Stored(ops[..i], oks[..i])|, ops[i], oks[i])
  }

  /** After any run the map holds what replaying the successful calls gives, each call has succeeded
      or failed as that replay says, and every value stored so far is live or released, NULLs aside. */
  method Run(h: Map, ops: seq<Op>) returns (oks: seq<bool>)
    requires h.Valid()
    modifies h, h.keys, h.values, h.states
    ensures h.Valid() && h.SameOrFresh() && |oks| == |ops|
    ensures AllAnswer(old(h.model), |old(h.accepted)|, ops, oks) && h.model == Replay(old(h.model), ops, oks)
    ensures h.accepted == old(h.accepted) + Stored(ops, oks)
    ensures Ledger(h.model, old(h.accepted) + Stored(ops, oks), h.released, h.frees)
  {
    if ops == [] { return []; }
    var before := Run(h, ops[..|ops| - 1]);
    var ok := Step(h, ops[|ops| - 1]);
    oks := before + [ok];
    AllAnswerStep(old(h.model), |old(h.accepted)|, ops, before, ok);
  }

  lemma AllAnswerStep(m: map<string, Ptr>, n: nat, ops: seq<Op>, before: seq<bool>, ok: bool)
    requires |ops| == |before| + 1 && AllAnswer(m, n, ops[..|before|], before)
    requires Answers(Replay(m, ops[..|before|], before), n + |Stored(ops[..|before|], before)|, ops[|before|], ok)
    ensures AllAnswer(m, n, ops, before + [ok])
  {
    var oks, k := before + [ok], |before|;
    forall i | 0 <= i < |ops|
      ensures Answers(Replay(m, ops[..i], oks[..i]), n + |Stored(ops[..i], oks[..i])|, ops[i], oks[i])
    {
      SamePrefixes(ops, before, ok, i);
      if i < k { AnswerAt(m, n, ops[..k], before, i); }
    }
  }

  lemma SamePrefixes(ops: seq<Op>, before: seq<bool>, ok: bool, i: nat)
    requires |ops| == |before| + 1 && i < |ops|
    ensures (before + [ok])[..i] == before[..i] && ops[..|before|][..i] == ops[..i]
    ensures i < |before| ==> (before + [ok])[i] == before[i] && ops[..|before|][i] == ops[i]
    ensures i == |before| ==> before[..i] == before && (before + [ok])[i] == ok
  {}

  lemma AnswerAt(m: map<string, Ptr>, n: nat, ops: seq<Op>, oks: seq<bool>, i: nat)
    requires |oks| == |ops| && AllAnswer(m, n, ops, oks) && i < |ops|
    ensures Answers(Replay(m, ops[..i], oks[..i]), n + |Stored(ops[..i], oks[..i])|, ops[i], oks[i])
  {}

  /** No allocation of the call fails. */
  predicate Fed(op: Op) {
    op.Set? ==> !op.oomTable && !op.oomKey
  }

  /** What the calls must answer when no allocation fails. */
  ghost function Expected(m: map<string, Ptr>, op: Op): bool {
    match op
    case Clear => true
    case Remove(key) => key.Key? && key.text in m
    case Set(key, _, _, _) => key.Key?
  }

  /** The calls answer as expected, each on the map its predecessors left. */
  ghost predicate AsExpected(m: map<string, Ptr>, ops: seq<Op>, oks: seq<bool>)
    requires |oks| == |ops|
  {
    forall i :: 0 <= i < |ops| ==> (oks[i] <==> Expected(Replay(m, ops[..i], oks[..i]), ops[i]))
  }

  lemma {:induction false} StoredSize(ops: seq<Op>, oks: seq<bool>)
    requires |oks| == |ops|
    ensures |Stored(ops, oks)| <= |ops|
  {
    if ops == [] {
    } else {
      StoredSize(ops[..|ops| - 1], oks[..|ops| - 1]);
    }
  }

  /** Without failed allocations a run is determined: the abstract map and all answers depend on the
      calls only. Fewer than 2^61 values must have been accepted before it ends. */
  lemma RunDetermined(m: map<string, Ptr>, n: nat, ops: seq<Op>, oks: seq<bool>)
    requires |oks| == |ops| && AllAnswer(m, n, ops, oks) && n + |ops| <= SetLimit
    requires forall i :: 0 <= i < |ops| ==> Fed(ops[i])
    ensures AsExpected(m, ops, oks)
  {
    forall i | 0 <= i < |ops| ensures oks[i] <==> Expected(Replay(m, ops[..i], oks[..i]), ops[i]) {
      StoredSize(ops[..i], oks[..i]);
      AnswerAt(m, n, ops, oks, i);
    }
  }

  /** So two such runs, of whichever maps, answer alike and end in the same abstract map. */
  lemma SameRuns(m: map<string, Ptr>, n: nat, n': nat, ops: seq<Op>, a: seq<bool>, b: seq<bool>)
    requires |a| == |b| == |ops| && AllAnswer(m, n, ops, a) && AllAnswer(m, n', ops, b)
    requires n + |ops| <= SetLimit && n' + |ops| <= SetLimit && forall i :: 0 <= i < |ops| ==> Fed(ops[i])
    ensures a == b && Replay(m, ops, a) == Replay(m, ops, b)
  {
    RunDetermined(m, n, ops, a);
    RunDetermined(m, n', ops, b);
    SamePrefix(m, ops, a, b, |ops|);
    assert a[..|ops|] == a && b[..|ops|] == b;
  }

  lemma SameAnswer(m: map<string, Ptr>, ops: seq<Op>, a: seq<bool>, b: seq<bool>, i: nat)
    requires |a| == |b| == |ops| && i < |ops| && AsExpected(m, ops, a) && AsExpected(m, ops, b) && a[..i] == b[..i]
    ensures a[i] == b[i]
  {}

  lemma {:induction false} SamePrefix(m: map<string, Ptr>, ops: seq<Op>, a: seq<bool>, b: seq<bool>, k: nat)
    requires |a| == |b| == |ops| && k <= |ops|
    requires AsExpected(m, ops, a) && AsExpected(m, ops, b)
    ensures a[..k] == b[..k]
  {
    if k == 0 {
    } else {
      SamePrefix(m, ops, a, b, k - 1);
      SameAnswer(m, ops, a, b, k - 1);
      assert a[..k] == a[..k - 1] + [a[k - 1]] && b[..k] == b[..k - 1] + [b[k - 1]];
    }
  }
}
