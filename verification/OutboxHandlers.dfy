/**
 Handlers of one row at a time. Row locks keep transactions apart, not handlers: one whose transaction is lost,
 to its time limit or with its database session, goes on while the row is free to be claimed.
 */
module OutboxHandlers {
  import opened Outbox

  predicate HandlesInside(st: State, r: nat, i: nat) {
    r in st.claims && st.claims[r].phase == Running && st.claims[r].row == i
  }

  predicate HandlesAfterwards(st: State, r: nat, i: nat) {
    r in st.strays && st.strays[r] == i
  }

  /** The replica's handler of the row runs, in its open transaction or after that was lost. */
  predicate Handles(st: State, r: nat, i: nat) {
    HandlesInside(st, r, i) || HandlesAfterwards(st, r, i)
  }

  /** No row has two handlers running, neither of two replicas nor of one. */
  ghost predicate OneHandlerPerRow(st: State) {
    && (forall r, q, i :: Handles(st, r, i) && Handles(st, q, i) ==> r == q)
    && (forall r, i :: HandlesInside(st, r, i) ==> !HandlesAfterwards(st, r, i))
  }

  ghost predicate AlwaysOneHandler(st: State, steps: seq<Step>)
    requires Shaped(st) && ValidRun(st, steps)
    decreases steps
  {
    OneHandlerPerRow(st) && (steps == [] || AlwaysOneHandler(Apply(st, steps[0]), steps[1..]))
  }

  /** The transaction is lost while its handler runs, which outlives it. */
  predicate LeavesStray(step: Step) {
    step.Rollback? && step.stray
  }

  predicate NoNewStrays(steps: seq<Step>) {
    forall k :: 0 <= k < |steps| ==> !LeavesStray(steps[k])
  }

  /** Every handler that outlived its transaction is for a row that is processed or exhausted. */
  predicate StraysAreSettled(st: State) {
    forall r :: r in st.strays ==> Settled(st, st.strays[r])
  }

  /** True of every reachable state: a stray handler is one of a registered type, and its replica has no transaction. */
  predicate StraysAreRecorded(st: State) {
    forall r :: r in st.strays ==>
      r !in st.claims && st.strays[r] < |st.rows| && st.rows[st.strays[r]].eventType in st.registered
  }

  lemma StepKeepsRecorded(st: State, step: Step)
    requires Inv(st) && StraysAreRecorded(st) && Enabled(st, step)
    ensures StraysAreRecorded(Apply(st, step))
  {
    if LeavesStray(step) {
      assert ClaimIsRecorded(st, st.claims[step.replica]);
    }
  }

  lemma {:induction false} RunKeepsRecorded(st: State, steps: seq<Step>)
    requires Inv(st) && StraysAreRecorded(st) && ValidRun(st, steps)
    ensures StraysAreRecorded(Final(st, steps))
    decreases steps
  {
    if steps != [] {
      StepKeepsRecorded(st, steps[0]);
      StepKeepsInv(st, steps[0]);
      RunKeepsRecorded(Apply(st, steps[0]), steps[1..]);
    }
  }

  // ---- Settled strays are harmless ----

  lemma StepKeepsOneHandler(st: State, step: Step)
    requires Inv(st) && Enabled(st, step) && !LeavesStray(step) && OneHandlerPerRow(st) && StraysAreSettled(st)
    ensures OneHandlerPerRow(Apply(st, step)) && StraysAreSettled(Apply(st, step))
  {
    var st' := Apply(st, step);
    forall r | r in st'.strays ensures Settled(st', st'.strays[r]) {
      StepKeepsSettled(st, step, st.strays[r]);
    }
    forall r, i | Handles(st', r, i) ensures Handles(st, r, i) || step == ClaimRow(r, i) {
    }
    if step.ClaimRow? {
      assert Claimable(st, step.row);
      assert forall q :: !Handles(st, q, step.row);
    }
  }

  lemma {:induction false} RunKeepsOneHandler(st: State, steps: seq<Step>)
    requires Inv(st) && ValidRun(st, steps) && NoNewStrays(steps) && OneHandlerPerRow(st) && StraysAreSettled(st)
    ensures AlwaysOneHandler(st, steps)
    decreases steps
  {
    if steps != [] {
      assert !LeavesStray(steps[0]);
      StepKeepsOneHandler(st, steps[0]);
      StepKeepsInv(st, steps[0]);
      assert forall k :: 0 <= k < |steps[1..]| ==> steps[1..][k] == steps[k + 1];
      RunKeepsOneHandler(Apply(st, steps[0]), steps[1..]);
    }
  }

  // ---- A stray of an open row is not ----

  lemma FreshReplica(st: State) returns (r: nat)
    ensures Free(st, r)
  {
    r := Above(st.claims.Keys + st.strays.Keys);
  }

  lemma {:induction false} Above(keys: set<nat>) returns (r: nat)
    ensures forall k :: k in keys ==> k < r
    decreases |keys|
  {
    if keys == {} {
      r := 0;
    } else {
      var k :| k in keys;
      var below := Above(keys - {k});
      r := if k < below then below else k + 1;
      assert forall x :: x in keys ==> x == k || x in keys - {k};
    }
  }

  ghost function ClaimableRows(st: State): set<nat> {
    set i | 0 <= i < |st.rows| && Claimable(st, i)
  }

  /** A claim takes its row out of those that can be claimed, and no other row enters them. */
  lemma ClaimShrinks(st: State, r: nat, j: nat)
    requires Inv(st) && Enabled(st, ClaimRow(r, j))
    ensures forall i :: Claimable(Apply(st, ClaimRow(r, j)), i) <==> Claimable(st, i) && i != j
    ensures |ClaimableRows(Apply(st, ClaimRow(r, j)))| < |ClaimableRows(st)|
  {
    var st' := Apply(st, ClaimRow(r, j));
    forall i ensures Held(st', i) <==> Held(st, i) || i == j {
      if Held(st, i) {
        var q :| q in st.claims && st.claims[q].row == i;
        assert q in st'.claims && st'.claims[q].row == i;
      }
      if i == j { assert r in st'.claims && st'.claims[r].row == j; }
    }
    assert ClaimableRows(st') == ClaimableRows(st) - {j};
    assert j in ClaimableRows(st);
  }

  lemma RunsCons(st: State, step: Step, rest: seq<Step>)
    requires Shaped(st) && Enabled(st, step) && ValidRun(Apply(st, step), rest)
    ensures ValidRun(st, [step] + rest) && Final(st, [step] + rest) == Final(Apply(st, step), rest)
    ensures !LeavesStray(step) && NoNewStrays(rest) ==> NoNewStrays([step] + rest)
  {
    assert ([step] + rest)[1..] == rest;
  }

  /** Fresh replicas claim the earlier rows until one claims the row of the stray. */
  lemma {:induction false} ClaimsReachRow(st: State, q: nat, i: nat) returns (steps: seq<Step>)
    requires Inv(st) && Claimable(st, i) && q in st.strays && st.strays[q] == i && st.rows[i].eventType in st.registered
    ensures ValidRun(st, steps) && NoNewStrays(steps) && !OneHandlerPerRow(Final(st, steps))
    decreases |ClaimableRows(st)|
  {
    var j := Earliest(st, |st.rows|);
    var r := FreshReplica(st);
    var st' := Apply(st, ClaimRow(r, j));
    StepKeepsInv(st, ClaimRow(r, j));
    ClaimShrinks(st, r, j);
    var rest: seq<Step> := [];
    if j == i {
      assert Handles(st', r, i) && Handles(st', q, i) && r != q;
    } else {
      rest := ClaimsReachRow(st', q, i);
    }
    RunsCons(st, ClaimRow(r, j), rest);
    steps := [ClaimRow(r, j)] + rest;
  }

  lemma UnsettledStrayOverlaps(st: State, q: nat) returns (steps: seq<Step>)
    requires Inv(st) && StraysAreRecorded(st) && q in st.strays && !Settled(st, st.strays[q])
    requires OneHandlerPerRow(st)
    ensures ValidRun(st, steps) && NoNewStrays(steps) && !OneHandlerPerRow(Final(st, steps))
  {
    var i := st.strays[q];
    if Held(st, i) {
      var r :| r in st.claims && st.claims[r].row == i;
      assert Handles(st, q, i) && r != q && !Handles(st, r, i);
      var st' := Apply(st, Rollback(r, false));
      StepKeepsInv(st, Rollback(r, false));
      HeldAfterClose(st, st', r, i);
      var rest := ClaimsReachRow(st', q, i);
      RunsCons(st, Rollback(r, false), rest);
      steps := [Rollback(r, false)] + rest;
    } else {
      steps := ClaimsReachRow(st, q, i);
    }
  }

  lemma {:induction false} AlwaysMeansFinally(st: State, steps: seq<Step>)
    requires Shaped(st) && ValidRun(st, steps) && AlwaysOneHandler(st, steps)
    ensures OneHandlerPerRow(Final(st, steps))
    decreases steps
  {
    if steps != [] {
      AlwaysMeansFinally(Apply(st, steps[0]), steps[1..]);
    }
  }

  // ---- The main results ----

  ghost predicate SafeWithoutNewStrays(st: State)
    requires Shaped(st)
  {
    forall steps :: ValidRun(st, steps) && NoNewStrays(steps) ==> AlwaysOneHandler(st, steps)
  }

  /**
   From any state a run has reached, as long as no further handler outlives its transaction, no row is ever handled
   twice at once exactly when none is now and every handler that outlived its transaction is for a settled row.
   */
  lemma OneHandlerExactlyWhenStraysAreSettled(registered: set<string>, past: seq<Step>)
    requires ValidRun(Init(registered), past)
    ensures var st := Final(Init(registered), past);
            SafeWithoutNewStrays(st) <==> OneHandlerPerRow(st) && StraysAreSettled(st)
  {
    var st := Final(Init(registered), past);
    InitSatisfiesInv(registered);
    RunKeepsInv(Init(registered), past);
    RunKeepsRecorded(Init(registered), past);
    if OneHandlerPerRow(st) && StraysAreSettled(st) {
      forall steps | ValidRun(st, steps) && NoNewStrays(steps) ensures AlwaysOneHandler(st, steps) {
        RunKeepsOneHandler(st, steps);
      }
    } else {
      var steps: seq<Step> := [];
      if OneHandlerPerRow(st) {
        var q :| q in st.strays && !Settled(st, st.strays[q]);
        steps := UnsettledStrayOverlaps(st, q);
      }
      assert ValidRun(st, steps) && NoNewStrays(steps) && !OneHandlerPerRow(Final(st, steps));
      if AlwaysOneHandler(st, steps) {
        AlwaysMeansFinally(st, steps);
      }
    }
  }

  /** The step starts a handler for a row whose stray handler has not ended: the only kind that breaks the promise. */
  predicate Overlaps(st: State, step: Step) {
    step.ClaimRow? && step.row < |st.rows| && st.rows[step.row].eventType in st.registered
    && exists q :: q in st.strays && st.strays[q] == step.row
  }

  lemma OneStepOverlaps(st: State, step: Step)
    requires Inv(st) && Enabled(st, step) && OneHandlerPerRow(st)
    ensures OneHandlerPerRow(Apply(st, step)) <==> !Overlaps(st, step)
  {
    var st' := Apply(st, step);
    forall r, i | Handles(st', r, i) ensures Handles(st, r, i) || step == ClaimRow(r, i) {
    }
    if Overlaps(st, step) {
      var q :| q in st.strays && st.strays[q] == step.row;
      assert Handles(st', q, step.row) && Handles(st', step.replica, step.row);
    } else if step.ClaimRow? {
      assert Claimable(st, step.row);
      var handled := st.rows[step.row].eventType in st.registered;
      assert handled ==> forall q :: !Handles(st, q, step.row);
      forall r, i | Handles(st', r, i) ensures if r == step.replica then handled && i == step.row else Handles(st, r, i) {
      }
      forall r, i | HandlesInside(st', r, i) ensures !HandlesAfterwards(st', r, i) {
        if r != step.replica { assert HandlesInside(st, r, i); }
      }
    } else {
      assert forall r, i :: HandlesInside(st', r, i) ==> HandlesInside(st, r, i);
      assert forall r, i :: Handles(st', r, i) ==> Handles(st, r, i);
    }
  }

  predicate NoOverlap(st: State, steps: seq<Step>)
    requires Shaped(st) && ValidRun(st, steps)
    decreases steps
  {
    steps == [] || (!Overlaps(st, steps[0]) && NoOverlap(Apply(st, steps[0]), steps[1..]))
  }

  /** In any one run, strays included, a row is handled twice at once exactly from such a step on. */
  lemma {:induction false} OneHandlerExactlyWithoutOverlap(st: State, steps: seq<Step>)
    requires Inv(st) && OneHandlerPerRow(st) && ValidRun(st, steps)
    ensures AlwaysOneHandler(st, steps) <==> NoOverlap(st, steps)
    decreases steps
  {
    if steps != [] {
      OneStepOverlaps(st, steps[0]);
      StepKeepsInv(st, steps[0]);
      if !Overlaps(st, steps[0]) {
        OneHandlerExactlyWithoutOverlap(Apply(st, steps[0]), steps[1..]);
      }
    }
  }

  /** So while no handler outlives its transaction, replicas never handle one row at the same time, crashes or not. */
  lemma OneHandlerWithoutStrays(registered: set<string>, steps: seq<Step>)
    requires ValidRun(Init(registered), steps) && NoNewStrays(steps)
    ensures AlwaysOneHandler(Init(registered), steps)
  {
    InitSatisfiesInv(registered);
    RunKeepsOneHandler(Init(registered), steps);
  }

  lemma {:induction false} LoneReplicaKeepsOneHandler(st: State, steps: seq<Step>, replica: nat)
    requires Inv(st) && ValidRun(st, steps) && OneReplica(steps, replica)
    requires st.claims.Keys <= {replica} && st.strays.Keys <= {replica} && StraysAreRecorded(st)
    ensures AlwaysOneHandler(st, steps)
    decreases steps
  {
    if steps != [] {
      StepKeepsInv(st, steps[0]);
      StepKeepsRecorded(st, steps[0]);
      assert forall k :: 0 <= k < |steps[1..]| ==> steps[1..][k] == steps[k + 1];
      LoneReplicaKeepsOneHandler(Apply(st, steps[0]), steps[1..], replica);
    }
  }

  /** A lone replica never handles a row twice at once, whatever its transactions do: it waits for its handler to end. */
  lemma LoneReplicaHandlesOneAtATime(registered: set<string>, steps: seq<Step>, replica: nat)
    requires ValidRun(Init(registered), steps) && OneReplica(steps, replica)
    ensures AlwaysOneHandler(Init(registered), steps)
  {
    InitSatisfiesInv(registered);
    LoneReplicaKeepsOneHandler(Init(registered), steps, replica);
  }

  /** One row, claimed by replica 1, whose handler runs. */
  const CLAIMED: State := State({"e"}, [Row(0, "e", false, 0)], map[1 := Claim(0, 0, true, Running)], [Tally(1, 1, 0, 0, 0, 0)], map[])

  /** The overlap is real: once the transaction is lost another replica can claim the row, and handle it, while the first still does. */
  lemma LostTransactionLetsHandlersOverlap()
    ensures var steps := [Insert(0, "e"), ClaimRow(1, 0), Rollback(1, true), ClaimRow(2, 0)];
            ValidRun(Init({"e"}), steps) && !OneHandlerPerRow(Final(Init({"e"}), steps))
  {
    FirstReplicaClaims();
    SecondReplicaClaims();
    RunsConcat(Init({"e"}), [Insert(0, "e"), ClaimRow(1, 0)], [Rollback(1, true), ClaimRow(2, 0)]);
    assert [Insert(0, "e"), ClaimRow(1, 0)] + [Rollback(1, true), ClaimRow(2, 0)]
        == [Insert(0, "e"), ClaimRow(1, 0), Rollback(1, true), ClaimRow(2, 0)];
  }

  lemma FirstReplicaClaims()
    ensures var steps := [Insert(0, "e"), ClaimRow(1, 0)];
            ValidRun(Init({"e"}), steps) && Final(Init({"e"}), steps) == CLAIMED
  {
    var s0 := Init({"e"});
    var s1 := Apply(s0, Insert(0, "e"));
    assert IsNext(s1, 0);
    OneStepRun(s0, Insert(0, "e"));
    OneStepRun(s1, ClaimRow(1, 0));
    RunsConcat(s0, [Insert(0, "e")], [ClaimRow(1, 0)]);
    assert [Insert(0, "e")] + [ClaimRow(1, 0)] == [Insert(0, "e"), ClaimRow(1, 0)];
  }

  lemma SecondReplicaClaims()
    ensures var steps := [Rollback(1, true), ClaimRow(2, 0)];
            ValidRun(CLAIMED, steps) && !OneHandlerPerRow(Final(CLAIMED, steps))
  {
    var s1 := Apply(CLAIMED, Rollback(1, true));
    assert Claimable(s1, 0);
    var s2 := Apply(s1, ClaimRow(2, 0));
    assert Handles(s2, 2, 0) && Handles(s2, 1, 0);
    OneStepRun(CLAIMED, Rollback(1, true));
    OneStepRun(s1, ClaimRow(2, 0));
    RunsConcat(CLAIMED, [Rollback(1, true)], [ClaimRow(2, 0)]);
    assert [Rollback(1, true)] + [ClaimRow(2, 0)] == [Rollback(1, true), ClaimRow(2, 0)];
  }

  lemma OneStepRun(st: State, step: Step)
    requires Shaped(st) && Enabled(st, step)
    ensures ValidRun(st, [step]) && Final(st, [step]) == Apply(st, step)
  {
    var e: seq<Step> := [];
    assert [step][1..] == e && ValidRun(Apply(st, step), e);
  }

  lemma {:induction false} RunsConcat(st: State, first: seq<Step>, second: seq<Step>)
    requires Shaped(st) && ValidRun(st, first) && ValidRun(Final(st, first), second)
    ensures ValidRun(st, first + second) && Final(st, first + second) == Final(Final(st, first), second)
    decreases first
  {
    if first == [] {
      assert first + second == second;
    } else {
      assert (first + second)[1..] == first[1..] + second;
      RunsConcat(Apply(st, first[0]), first[1..], second);
    }
  }
}
