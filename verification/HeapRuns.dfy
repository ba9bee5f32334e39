/** Whole runs of the heap: any sequence of allocations and releases of live runs. */
module HeapRuns {
  import opened HeapTable

  datatype Op = Alloc(n: nat) | Release(s: nat)
  datatype State = State(t: seq<Entry>, m: Runs)

  /** The state after the scan answered r to a request for n blocks. */
  ghost function Granted(a: State, n: nat, r: int): State {
    if r < 0 || n == 0 then a else State(Marked(a.t, r, n), a.m[r := n])
  }

  ghost predicate Step(a: State, op: Op, b: State) {
    match op
    case Alloc(n) =>
      exists r :: ScanAnswer(a.t, n, r) && b == Granted(a, n, r)
    case Release(s) =>
      s in a.m && b == State(Cleared(a.t, s, a.m[s]), a.m - {s})
  }

  ghost predicate IsRun(states: seq<State>, ops: seq<Op>) {
    && |states| == |ops| + 1
    && forall i :: 0 <= i < |ops| ==> Step(states[i], ops[i], states[i + 1])
  }

  /** What a caller can check before asking: the request fits somewhere, or the last block is taken. */
  predicate Guard(t: seq<Entry>, op: Op) {
    op.Alloc? && op.n >= 1 ==>
      (exists s :: 0 <= s <= |t| && Fits(t, s, op.n)) || |t| == 0 || !IsFree(t[|t| - 1])
  }

  lemma StepKeeps(a: State, op: Op, b: State)
    requires Encodes(a.t, a.m) && Step(a, op, b)
    ensures Encodes(b.t, b.m) && |b.t| == |a.t|
    ensures InPool(a.m, |a.t|) ==> (InPool(b.m, |b.t|) <==> Guard(a.t, op))
  {
    match op
    case Alloc(n) =>
      var r: int :| ScanAnswer(a.t, n, r) && b == Granted(a, n, r);
      ScanFree(a.t, n, r);
      if n >= 1 {
        FirstFitExactly(a.t, n, r);
        assert (exists s :: Fits(a.t, s, n)) <==> (exists s :: 0 <= s <= |a.t| && Fits(a.t, s, n));
        if r >= 0 {
          AddRun(a.t, a.m, r, n);
          assert b.m[r] == n;
        }
      }
    case Release(s) =>
      DropRun(a.t, a.m, s);
  }

  /** Every table a run can reach is a partition into free blocks and well-flagged runs, whatever
      the requests; the runs all stay inside the pool exactly when every request met the guard. */
  lemma {:induction false} RunKeeps(states: seq<State>, ops: seq<Op>)
    requires IsRun(states, ops)
    requires Encodes(states[0].t, states[0].m) && InPool(states[0].m, |states[0].t|)
    ensures forall i :: 0 <= i < |states| ==> Encodes(states[i].t, states[i].m) && |states[i].t| == |states[0].t|
    ensures (forall i :: 0 <= i < |states| ==> InPool(states[i].m, |states[i].t|))
       <==> (forall i :: 0 <= i < |ops| ==> Guard(states[i].t, ops[i]))
    decreases |ops|
  {
    hide Encodes, InPool, Guard, Step;
    if |ops| > 0 {
      var k := |ops| - 1;
      var shorter, fewer := states[..k + 1], ops[..k];
      assert IsRun(shorter, fewer);
      RunKeeps(shorter, fewer);
      assert shorter[k] == states[k];
      StepKeeps(states[k], ops[k], states[k + 1]);
      forall i | 0 <= i < |states| ensures Encodes(states[i].t, states[i].m) && |states[i].t| == |states[0].t| {
        if i <= k { assert shorter[i] == states[i]; }
      }
      if forall i :: 0 <= i < |ops| ==> Guard(states[i].t, ops[i]) {
        assert forall i :: 0 <= i < |fewer| ==> Guard(shorter[i].t, fewer[i]);
        forall i | 0 <= i < |states| ensures InPool(states[i].m, |states[i].t|) {
          if i <= k { assert InPool(shorter[i].m, |shorter[i].t|); }
        }
      }
      if forall i :: 0 <= i < |states| ==> InPool(states[i].m, |states[i].t|) {
        assert forall i :: 0 <= i < |shorter| ==> InPool(shorter[i].m, |shorter[i].t|);
        forall i | 0 <= i < |ops| ensures Guard(states[i].t, ops[i]) {
          if i < k { assert Guard(shorter[i].t, fewer[i]); }
        }
      }
    }
  }

  /** In a guarded run the live allocations are disjoint block ranges inside the table, and
      the free blocks plus the blocks of the live allocations always make up the whole table. */
  lemma RunConserves(states: seq<State>, ops: seq<Op>, k: nat)
    requires IsRun(states, ops) && k < |states|
    requires Encodes(states[0].t, states[0].m) && InPool(states[0].m, |states[0].t|)
    requires forall i :: 0 <= i < |ops| ==> Guard(states[i].t, ops[i])
    ensures forall a, b :: a in states[k].m && b in states[k].m && a < b ==>
      a + states[k].m[a] <= b && b + states[k].m[b] <= |states[0].t|
    ensures FreeCount(states[k].t) + Blocks(states[k].m) == |states[0].t|
  {
    RunKeeps(states, ops);
    Conservation(states[k].t, states[k].m);
  }

  /** The guard can fail: on an empty one-block table a two-block request is granted. */
  lemma OverrunExample()
    ensures var t: seq<Entry> := [FREE];
      Encodes(t, map[]) && !Guard(t, Alloc(2)) && Step(State(t, map[]), Alloc(2), State(Marked(t, 0, 2), map[0 := 2]))
  {
    var t: seq<Entry> := [FREE];
    forall s ensures !Fits(t, s, 2) {}
    assert IsFree(t[0]);
    assert ScanAnswer(t, 2, 0) && State(Marked(t, 0, 2), map[0 := 2]) == Granted(State(t, map[]), 2, 0);
  }
}
