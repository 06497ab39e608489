/**
 The outbox as a protocol: several dispatcher replicas share one table of events. A run is
 any interleaving of inserts and of each replica's claim, handler run, commit or rollback.
 */
module Outbox {

  const MAX_ATTEMPTS: nat := 5

  /** A row of the table; its position in the table is its identity. */
  datatype Row = Row(occurredAt: int, eventType: string, processed: bool, attempts: nat)

  datatype Phase = Running | Returned | Threw

  /** An open transaction: the row it holds locked, what it read, and how far the handler has come. */
  datatype Claim = Claim(row: nat, attempts: nat, handled: bool, phase: Phase)

  /** What has happened to one row so far. */
  datatype Tally = Tally(claims: nat, starts: nat, returned: nat, bare: nat, commits: nat, rollbacks: nat)

  /**
   Registered event types never change; claims and strays are keyed by replica. A stray is the row of a
   handler that goes on after its transaction is lost; its replica waits for it to end.
   */
  datatype State = State(registered: set<string>, rows: seq<Row>, claims: map<nat, Claim>, tallies: seq<Tally>, strays: map<nat, nat>)

  datatype Step =
    | Insert(occurredAt: int, eventType: string)
    | ClaimRow(replica: nat, row: nat)
    | HandlerReturns(replica: nat)
    | HandlerThrows(replica: nat)
    | Commit(replica: nat)
    | CommitAsFailure(replica: nat)
    | Rollback(replica: nat, stray: bool)
    | StrayEnds(replica: nat)
    | Crash(replica: nat)

  predicate Eligible(st: State, i: nat) {
    i < |st.rows| && !st.rows[i].processed && st.rows[i].attempts < MAX_ATTEMPTS
  }

  /** Some replica's transaction holds the row lock. */
  predicate Held(st: State, i: nat) {
    exists r :: r in st.claims && st.claims[r].row == i
  }

  predicate Claimable(st: State, i: nat) {
    Eligible(st, i) && !Held(st, i)
  }

  /** ORDER BY occurred_at LIMIT 1 FOR UPDATE SKIP LOCKED: an earliest row among the unlocked eligible ones. */
  predicate IsNext(st: State, i: nat) {
    Claimable(st, i) && forall j :: 0 <= j < |st.rows| && Claimable(st, j) ==> st.rows[i].occurredAt <= st.rows[j].occurredAt
  }

  /** The replica has no transaction open and no handler running. */
  predicate Free(st: State, r: nat) {
    r !in st.claims && r !in st.strays
  }

  /** The rows and tallies match, so that every claim points at both; true of every reachable state. */
  predicate Shaped(st: State) {
    |st.tallies| == |st.rows| && forall r :: r in st.claims ==> st.claims[r].row < |st.rows|
  }

  /**
   When each step is possible. A transaction can be lost at any time, to its time limit or with its database
   session; nothing stops the handler it leaves behind, short of a crash of the whole replica.
   */
  predicate Enabled(st: State, step: Step)
    requires Shaped(st)
  {
    match step
    case Insert(_, _) => true
    case ClaimRow(r, i) => Free(st, r) && IsNext(st, i)
    case HandlerReturns(r) => r in st.claims && st.claims[r].phase == Running
    case HandlerThrows(r) => r in st.claims && st.claims[r].phase == Running
    case Commit(r) => r in st.claims && st.claims[r].phase != Running
    case CommitAsFailure(r) => r in st.claims && st.claims[r].phase == Returned
    case Rollback(r, stray) => r in st.claims && stray == (st.claims[r].phase == Running)
    case StrayEnds(r) => r in st.strays
    case Crash(r) => !Free(st, r)
  }

  function Close(st: State, r: nat): map<nat, Claim> {
    map q | q in st.claims && q != r :: st.claims[q]
  }

  /** The committed update of an open transaction: attempts as read plus one, and processed if asked. */
  function Dispatched(st: State, r: nat, processed: bool): State
    requires Shaped(st) && r in st.claims
  {
    var i, t := st.claims[r].row, st.tallies[st.claims[r].row];
    st.(rows := st.rows[i := st.rows[i].(processed := processed, attempts := st.claims[r].attempts + 1)],
        tallies := st.tallies[i := t.(commits := t.commits + 1)],
        claims := Close(st, r))
  }

  /** A replica dies with its handler, and its open transaction is rolled back. */
  function Crashed(st: State, r: nat): State
    requires Shaped(st)
  {
    if r !in st.claims then st.(strays := st.strays - {r})
    else
      var i := st.claims[r].row;
      st.(claims := Close(st, r), strays := st.strays - {r},
          tallies := st.tallies[i := st.tallies[i].(rollbacks := st.tallies[i].rollbacks + 1)])
  }

  function Apply(st: State, step: Step): (st': State)
    requires Shaped(st) && Enabled(st, step)
    ensures Shaped(st')
  {
    match step
    case Insert(at, eventType) =>
      st.(rows := st.rows + [Row(at, eventType, false, 0)], tallies := st.tallies + [Tally(0, 0, 0, 0, 0, 0)])
    case ClaimRow(r, i) =>
      var row, t := st.rows[i], st.tallies[i];
      var handled := row.eventType in st.registered;
      st.(claims := st.claims[r := Claim(i, row.attempts, handled, if handled then Running else Returned)],
          tallies := st.tallies[i := t.(claims := t.claims + 1,
                                        starts := t.starts + (if handled then 1 else 0),
                                        bare := t.bare + (if handled then 0 else 1))])
    case HandlerReturns(r) =>
      var i := st.claims[r].row;
      st.(claims := st.claims[r := st.claims[r].(phase := Returned)],
          tallies := st.tallies[i := st.tallies[i].(returned := st.tallies[i].returned + 1)])
    case HandlerThrows(r) => st.(claims := st.claims[r := st.claims[r].(phase := Threw)])
    case Commit(r) => Dispatched(st, r, st.claims[r].phase == Returned)
    case CommitAsFailure(r) => Dispatched(st, r, false)
    case Rollback(r, stray) =>
      var i := st.claims[r].row;
      st.(claims := Close(st, r),
          tallies := st.tallies[i := st.tallies[i].(rollbacks := st.tallies[i].rollbacks + 1)],
          strays := if stray then st.strays[r := i] else st.strays)
    case StrayEnds(r) => st.(strays := st.strays - {r})
    case Crash(r) => Crashed(st, r)
  }

  // ---- Invariant ----

  /** No two open transactions hold one row, and each still sees its row as it was read. */
  predicate ClaimsAreExclusive(st: State) {
    && |st.tallies| == |st.rows|
    && (forall r :: r in st.claims ==> Eligible(st, st.claims[r].row) && st.claims[r].attempts == st.rows[st.claims[r].row].attempts)
    && (forall r, q :: r in st.claims && q in st.claims && st.claims[r].row == st.claims[q].row ==> r == q)
  }

  predicate ClaimIsRecorded(st: State, c: Claim) {
    && c.row < |st.rows| == |st.tallies|
    && c.handled == (st.rows[c.row].eventType in st.registered)
    && (!c.handled ==> c.phase == Returned)
    && (c.handled && c.phase == Returned ==> st.tallies[c.row].returned > 0)
  }

  function OpenRuns(st: State, i: nat): nat {
    if Held(st, i) then 1 else 0
  }

  /** Attempts count the committed dispatches; every claim has committed, rolled back or is still open. */
  predicate RowAccounts(st: State, i: nat)
    requires i < |st.rows| == |st.tallies|
  {
    var row, t := st.rows[i], st.tallies[i];
    && row.attempts == t.commits <= MAX_ATTEMPTS
    && t.claims == t.commits + t.rollbacks + OpenRuns(st, i)
    && (if row.eventType in st.registered then t.starts == t.claims && t.bare == 0 else t.starts == 0 && t.bare == t.claims)
    && (row.processed ==> if row.eventType in st.registered then t.returned > 0 else t.bare > 0)
  }

  predicate Inv(st: State) {
    && ClaimsAreExclusive(st)
    && (forall r :: r in st.claims ==> ClaimIsRecorded(st, st.claims[r]))
    && (forall i :: 0 <= i < |st.rows| ==> RowAccounts(st, i))
  }

  function Init(registered: set<string>): State {
    State(registered, [], map[], [], map[])
  }

  lemma StepKeepsInv(st: State, step: Step)
    requires Inv(st) && Enabled(st, step)
    ensures Inv(Apply(st, step))
  {
    var st' := Apply(st, step);
    match step
    case Insert(_, _) => InsertKeepsInv(st, step);
    case ClaimRow(r, i) => ClaimKeepsInv(st, r, i);
    case HandlerReturns(r) => HandlerKeepsInv(st, step);
    case HandlerThrows(r) => HandlerKeepsInv(st, step);
    case Commit(r) => CommitKeepsInv(st, r, st.claims[r].phase == Returned);
    case CommitAsFailure(r) => CommitKeepsInv(st, r, false);
    case Rollback(r, stray) => RollbackKeepsInv(st, r, stray);
    case StrayEnds(_) => HandlerKeepsInv(st, step);
    case Crash(r) => if r in st.claims { CrashKeepsInv(st, r); } else { HandlerKeepsInv(st, step); }
  }

  lemma InsertKeepsInv(st: State, step: Step)
    requires Inv(st) && step.Insert?
    ensures Inv(Apply(st, step))
  {
    var st' := Apply(st, step);
    assert !Held(st, |st.rows|);
    forall i | 0 <= i < |st'.rows| ensures RowAccounts(st', i) {
      assert Held(st', i) == Held(st, i);
      if i < |st.rows| { assert RowAccounts(st, i); }
    }
  }

  lemma ClaimKeepsInv(st: State, r: nat, i: nat)
    requires Inv(st) && Enabled(st, ClaimRow(r, i))
    ensures Inv(Apply(st, ClaimRow(r, i)))
  {
    var st' := Apply(st, ClaimRow(r, i));
    assert r in st'.claims && st'.claims[r].row == i;
    forall j | 0 <= j < |st'.rows| ensures RowAccounts(st', j) {
      assert RowAccounts(st, j);
      if j != i && Held(st, j) {
        var q :| q in st.claims && st.claims[q].row == j;
        assert q in st'.claims && st'.claims[q].row == j;
      }
    }
  }

  lemma HandlerKeepsInv(st: State, step: Step)
    requires Inv(st) && (step.HandlerReturns? || step.HandlerThrows? || step.StrayEnds? || step.Crash?) && Enabled(st, step)
    requires step.Crash? ==> step.replica !in st.claims
    ensures Inv(Apply(st, step))
  {
    var st' := Apply(st, step);
    assert step.HandlerReturns? || step.HandlerThrows? ==> ClaimIsRecorded(st, st.claims[step.replica]);
    forall q | q in st'.claims ensures ClaimIsRecorded(st', st'.claims[q]) {
      assert ClaimIsRecorded(st, st.claims[q]);
    }
    forall j | 0 <= j < |st'.rows| ensures RowAccounts(st', j) {
      assert RowAccounts(st, j);
      HeldAfterUpdate(st, st', j);
    }
  }

  /** A step that keeps every claim's row keeps every lock. */
  lemma HeldAfterUpdate(st: State, st': State, j: nat)
    requires st'.claims.Keys == st.claims.Keys
    requires forall q :: q in st.claims ==> st'.claims[q].row == st.claims[q].row
    ensures Held(st', j) == Held(st, j)
  {
    if Held(st, j) {
      var q :| q in st.claims && st.claims[q].row == j;
      assert q in st'.claims && st'.claims[q].row == j;
    }
    if Held(st', j) {
      var q :| q in st'.claims && st'.claims[q].row == j;
      assert q in st.claims && st.claims[q].row == j;
    }
  }

  /** Closing a transaction unlocks its row and no other. */
  lemma HeldAfterClose(st: State, st': State, r: nat, j: nat)
    requires ClaimsAreExclusive(st) && r in st.claims && st'.claims == Close(st, r)
    ensures Held(st', j) == (Held(st, j) && j != st.claims[r].row)
  {
    if Held(st, j) && j != st.claims[r].row {
      var q :| q in st.claims && st.claims[q].row == j;
      assert q in st'.claims && st'.claims[q].row == j;
    }
    if Held(st', j) {
      var q :| q in st'.claims && st'.claims[q].row == j;
      assert q in st.claims && st.claims[q].row == j;
    }
  }

  lemma CommitKeepsInv(st: State, r: nat, processed: bool)
    requires Inv(st) && r in st.claims && st.claims[r].phase != Running
    requires processed ==> st.claims[r].phase == Returned
    ensures Inv(Dispatched(st, r, processed))
  {
    var st' := Dispatched(st, r, processed);
    var i := st.claims[r].row;
    assert ClaimIsRecorded(st, st.claims[r]);
    forall q | q in st'.claims ensures ClaimIsRecorded(st', st'.claims[q]) && st'.claims[q].row != i {
      assert ClaimIsRecorded(st, st.claims[q]);
    }
    forall j | 0 <= j < |st'.rows| ensures RowAccounts(st', j) {
      assert RowAccounts(st, j);
      HeldAfterClose(st, st', r, j);
    }
  }

  lemma CrashKeepsInv(st: State, r: nat)
    requires Inv(st) && r in st.claims
    ensures Inv(Crashed(st, r))
  {
    var st' := Crashed(st, r);
    forall q | q in st'.claims ensures ClaimIsRecorded(st', st'.claims[q]) {
      assert ClaimIsRecorded(st, st.claims[q]);
    }
    forall j | 0 <= j < |st'.rows| ensures RowAccounts(st', j) {
      assert RowAccounts(st, j);
      HeldAfterClose(st, st', r, j);
    }
  }

  lemma RollbackKeepsInv(st: State, r: nat, stray: bool)
    requires Inv(st) && Enabled(st, Rollback(r, stray))
    ensures Inv(Apply(st, Rollback(r, stray)))
  {
    var st' := Apply(st, Rollback(r, stray));
    forall q | q in st'.claims ensures ClaimIsRecorded(st', st'.claims[q]) {
      assert ClaimIsRecorded(st, st.claims[q]);
    }
    forall j | 0 <= j < |st'.rows| ensures RowAccounts(st', j) {
      assert RowAccounts(st, j);
      HeldAfterClose(st, st', r, j);
    }
  }

  // ---- Runs ----

  predicate ValidRun(st: State, steps: seq<Step>)
    requires Shaped(st)
    decreases steps
  {
    steps == [] || (Enabled(st, steps[0]) && ValidRun(Apply(st, steps[0]), steps[1..]))
  }

  function Final(st: State, steps: seq<Step>): (end: State)
    requires Shaped(st) && ValidRun(st, steps)
    ensures Shaped(end)
    decreases steps
  {
    if steps == [] then st else Final(Apply(st, steps[0]), steps[1..])
  }

  lemma {:induction false} RunKeepsInv(st: State, steps: seq<Step>)
    requires Inv(st) && ValidRun(st, steps)
    ensures Inv(Final(st, steps))
    decreases steps
  {
    if steps != [] {
      StepKeepsInv(st, steps[0]);
      RunKeepsInv(Apply(st, steps[0]), steps[1..]);
    }
  }

  lemma InitSatisfiesInv(registered: set<string>)
    ensures Inv(Init(registered))
  {
  }

  // ---- What a run did to one row, counted from its steps ----

  datatype Kind = Claims | Starts | Returns | Commits | Rollbacks

  predicate Happens(st: State, step: Step, i: nat, kind: Kind)
    requires Shaped(st) && Enabled(st, step)
  {
    match kind
    case Claims => step.ClaimRow? && step.row == i
    case Starts => step.ClaimRow? && step.row == i && st.rows[i].eventType in st.registered
    case Returns => step.HandlerReturns? && st.claims[step.replica].row == i
    case Commits => (step.Commit? || step.CommitAsFailure?) && st.claims[step.replica].row == i
    case Rollbacks => (step.Rollback? || (step.Crash? && step.replica in st.claims)) && st.claims[step.replica].row == i
  }

  /** How many steps of the run did this to row i. */
  function Count(st: State, steps: seq<Step>, i: nat, kind: Kind): nat
    requires Shaped(st) && ValidRun(st, steps)
    decreases steps
  {
    if steps == [] then 0
    else (if Happens(st, steps[0], i, kind) then 1 else 0) + Count(Apply(st, steps[0]), steps[1..], i, kind)
  }

  function Recorded(st: State, i: nat, kind: Kind): nat {
    if i >= |st.tallies| then 0
    else match kind
      case Claims => st.tallies[i].claims
      case Starts => st.tallies[i].starts
      case Returns => st.tallies[i].returned
      case Commits => st.tallies[i].commits
      case Rollbacks => st.tallies[i].rollbacks
  }

  /** The tallies are exactly the counts of the steps taken. */
  lemma {:induction false} TalliesCountSteps(st: State, steps: seq<Step>, i: nat, kind: Kind)
    requires Shaped(st) && ValidRun(st, steps)
    ensures Recorded(Final(st, steps), i, kind) == Recorded(st, i, kind) + Count(st, steps, i, kind)
    decreases steps
  {
    if steps != [] {
      var st' := Apply(st, steps[0]);
      assert Recorded(st', i, kind) == Recorded(st, i, kind) + (if Happens(st, steps[0], i, kind) then 1 else 0);
      TalliesCountSteps(st', steps[1..], i, kind);
    }
  }

  /** In every run from an empty table no two replicas hold one row. */
  lemma NoRowIsHeldTwice(registered: set<string>, steps: seq<Step>)
    requires ValidRun(Init(registered), steps)
    ensures var st := Final(Init(registered), steps);
      forall r, q :: r in st.claims && q in st.claims && st.claims[r].row == st.claims[q].row ==> r == q
  {
    InitSatisfiesInv(registered);
    RunKeepsInv(Init(registered), steps);
  }

  /**
   In every run from an empty table a row's attempts are its committed dispatches, at most five;
   its claims are the committed, the rolled-back and the open ones; a handler starts at each claim
   of a registered type; and a processed row of a registered type has had a handler return normally.
   */
  lemma EveryRowIsAccountedFor(registered: set<string>, steps: seq<Step>, i: nat)
    requires ValidRun(Init(registered), steps) && i < |Final(Init(registered), steps).rows|
    ensures var st, start := Final(Init(registered), steps), Init(registered);
      && st.rows[i].attempts == Count(start, steps, i, Commits) <= 5
      && Count(start, steps, i, Claims) == Count(start, steps, i, Commits) + Count(start, steps, i, Rollbacks) + OpenRuns(st, i)
      && Count(start, steps, i, Starts) == (if st.rows[i].eventType in registered then Count(start, steps, i, Claims) else 0)
      && (st.rows[i].processed && st.rows[i].eventType in registered ==> Count(start, steps, i, Returns) > 0)
  {
    var start := Init(registered);
    InitSatisfiesInv(registered);
    RunKeepsInv(start, steps);
    RegisteredNeverChanges(start, steps);
    assert RowAccounts(Final(start, steps), i);
    TalliesCountSteps(start, steps, i, Claims);
    TalliesCountSteps(start, steps, i, Starts);
    TalliesCountSteps(start, steps, i, Returns);
    TalliesCountSteps(start, steps, i, Commits);
    TalliesCountSteps(start, steps, i, Rollbacks);
  }

  lemma {:induction false} RegisteredNeverChanges(st: State, steps: seq<Step>)
    requires Shaped(st) && ValidRun(st, steps)
    ensures Final(st, steps).registered == st.registered
    decreases steps
  {
    if steps != [] {
      RegisteredNeverChanges(Apply(st, steps[0]), steps[1..]);
    }
  }

  // ---- Processed and exhausted rows ----

  /** A row becomes processed only by the commit of a transaction on it whose handler returned, or that needed none. */
  lemma OnlyReturnedRunsProcess(st: State, step: Step, i: nat)
    requires Inv(st) && Enabled(st, step) && i < |st.rows| && !st.rows[i].processed
    ensures Apply(st, step).rows[i].processed
       <==> step.Commit? && st.claims[step.replica].row == i && st.claims[step.replica].phase == Returned
  {
  }

  predicate Settled(st: State, i: nat) {
    i < |st.rows| && !Eligible(st, i)
  }

  predicate ClaimsRow(step: Step, i: nat) {
    step.ClaimRow? && step.row == i
  }

  lemma StepKeepsSettled(st: State, step: Step, i: nat)
    requires Inv(st) && Enabled(st, step) && Settled(st, i)
    ensures var st' := Apply(st, step); Settled(st', i) && st'.rows[i] == st.rows[i] && st'.tallies[i] == st.tallies[i]
    ensures !ClaimsRow(step, i)
  {
  }

  /** A processed or exhausted row is never claimed again, by any replica, in any continuation. */
  lemma {:induction false} SettledForever(st: State, steps: seq<Step>, i: nat)
    requires Inv(st) && ValidRun(st, steps) && i < |st.rows| && (st.rows[i].processed || st.rows[i].attempts >= 5)
    ensures var end := Final(st, steps); |end.rows| > i && end.rows[i] == st.rows[i] && end.tallies[i] == st.tallies[i]
    ensures forall k :: 0 <= k < |steps| ==> !ClaimsRow(steps[k], i)
    decreases steps
  {
    if steps != [] {
      StepKeepsSettled(st, steps[0], i);
      StepKeepsInv(st, steps[0]);
      SettledForever(Apply(st, steps[0]), steps[1..], i);
      forall k | 0 <= k < |steps| ensures !ClaimsRow(steps[k], i) {
        if k > 0 { assert steps[1..][k - 1] == steps[k]; }
      }
    }
  }

  // ---- Draining ----

  function Remaining(row: Row): nat {
    if row.processed || row.attempts >= MAX_ATTEMPTS then 0 else MAX_ATTEMPTS - row.attempts
  }

  function Work(rows: seq<Row>): nat {
    if rows == [] then 0 else Remaining(rows[0]) + Work(rows[1..])
  }

  lemma {:induction false} WorkAfterUpdate(rows: seq<Row>, i: nat, row: Row)
    requires i < |rows|
    ensures Work(rows[i := row]) == Work(rows) - Remaining(rows[i]) + Remaining(row)
  {
    if i == 0 {
      assert rows[0 := row][1..] == rows[1..];
    } else {
      assert rows[i := row][1..] == rows[1..][i - 1 := row];
      WorkAfterUpdate(rows[1..], i - 1, row);
    }
  }

  lemma {:induction false} WorkIsBounded(rows: seq<Row>)
    ensures Work(rows) <= MAX_ATTEMPTS * |rows|
    ensures Work(rows) == 0 <==> forall i :: 0 <= i < |rows| ==> Remaining(rows[i]) == 0
  {
    if rows != [] {
      WorkIsBounded(rows[1..]);
      assert rows == [rows[0]] + rows[1..];
    }
  }

  predicate IsDispatch(step: Step) {
    step.Commit? || step.CommitAsFailure?
  }

  function Dispatches(steps: seq<Step>): nat {
    if steps == [] then 0 else (if IsDispatch(steps[0]) then 1 else 0) + Dispatches(steps[1..])
  }

  predicate NoInserts(steps: seq<Step>) {
    forall k :: 0 <= k < |steps| ==> !steps[k].Insert?
  }

  lemma StepSpendsWork(st: State, step: Step)
    requires Inv(st) && Enabled(st, step) && !step.Insert?
    ensures Work(Apply(st, step).rows) + (if IsDispatch(step) then 1 else 0) <= Work(st.rows)
  {
    if IsDispatch(step) {
      var i := st.claims[step.replica].row;
      WorkAfterUpdate(st.rows, i, Apply(st, step).rows[i]);
    }
  }

  /** Without inserts every committed dispatch uses up work, so n rows take at most 5n dispatches. */
  lemma {:induction false} DispatchesAreBounded(st: State, steps: seq<Step>)
    requires Inv(st) && ValidRun(st, steps) && NoInserts(steps)
    ensures Work(Final(st, steps).rows) + Dispatches(steps) <= Work(st.rows) <= 5 * |st.rows|
    decreases steps
  {
    WorkIsBounded(st.rows);
    if steps != [] {
      StepSpendsWork(st, steps[0]);
      StepKeepsInv(st, steps[0]);
      assert forall k :: 0 <= k < |steps[1..]| ==> steps[1..][k] == steps[k + 1];
      DispatchesAreBounded(Apply(st, steps[0]), steps[1..]);
    }
  }

  /** While work is left and no transaction is open, some row can be claimed: the queue only rests when it is drained. */
  lemma RestsOnlyWhenDrained(st: State)
    requires Inv(st) && st.claims == map[]
    ensures Work(st.rows) == 0 <==> forall i :: 0 <= i < |st.rows| ==> !IsNext(st, i)
    ensures Work(st.rows) == 0 <==> forall i :: 0 <= i < |st.rows| ==> st.rows[i].processed || st.rows[i].attempts >= 5
  {
    WorkIsBounded(st.rows);
    if Work(st.rows) > 0 {
      var i :| 0 <= i < |st.rows| && Remaining(st.rows[i]) > 0;
      assert Claimable(st, i);
      var j := Earliest(st, |st.rows|);
      assert IsNext(st, j);
    } else {
      forall i | 0 <= i < |st.rows| ensures !IsNext(st, i) {
        assert Remaining(st.rows[i]) == 0;
      }
    }
  }

  /** An earliest claimable row among the first n. */
  lemma {:induction false} Earliest(st: State, n: nat) returns (j: nat)
    requires n <= |st.rows| && exists i :: 0 <= i < n && Claimable(st, i)
    ensures j < n && Claimable(st, j)
    ensures forall i :: 0 <= i < n && Claimable(st, i) ==> st.rows[j].occurredAt <= st.rows[i].occurredAt
  {
    if exists i :: 0 <= i < n - 1 && Claimable(st, i) {
      j := Earliest(st, n - 1);
      if Claimable(st, n - 1) && st.rows[n - 1].occurredAt < st.rows[j].occurredAt {
        j := n - 1;
      }
    } else {
      j := n - 1;
    }
  }

  // ---- Order with one replica ----

  predicate OneReplica(steps: seq<Step>, replica: nat) {
    forall k :: 0 <= k < |steps| ==> !steps[k].Insert? ==> steps[k].replica == replica
  }

  /** Every insert is dated no earlier than the rows already there. */
  predicate InsertsInOrder(st: State, steps: seq<Step>)
    requires Shaped(st) && ValidRun(st, steps)
    decreases steps
  {
    steps == [] ||
    (&& (steps[0].Insert? ==> forall i :: 0 <= i < |st.rows| ==> st.rows[i].occurredAt <= steps[0].occurredAt)
     && InsertsInOrder(Apply(st, steps[0]), steps[1..]))
  }

  predicate NoneBefore(st: State, date: int) {
    forall i :: 0 <= i < |st.rows| && Eligible(st, i) ==> date <= st.rows[i].occurredAt
  }

  /** The date stays below every row that can still be dispatched. */
  lemma StepKeepsDate(st: State, step: Step, date: int)
    requires Inv(st) && Enabled(st, step) && NoneBefore(st, date)
    requires step.Insert? ==> date <= step.occurredAt
    ensures NoneBefore(Apply(st, step), date)
  {
    var st' := Apply(st, step);
    forall i | 0 <= i < |st'.rows| && Eligible(st', i) ensures date <= st'.rows[i].occurredAt {
      if i < |st.rows| { assert Eligible(st, i); }
    }
  }

  /** A lone replica claims an earliest of all the rows still to be dispatched. */
  lemma LoneClaimIsEarliest(st: State, replica: nat, row: nat)
    requires Inv(st) && st.claims.Keys <= {replica} && Enabled(st, ClaimRow(replica, row))
    ensures NoneBefore(st, st.rows[row].occurredAt)
  {
    forall i | 0 <= i < |st.rows| && Eligible(st, i) ensures st.rows[row].occurredAt <= st.rows[i].occurredAt {
      assert Claimable(st, i);
    }
  }

  /** A row keeps its date. */
  lemma {:induction false} DatesStay(st: State, steps: seq<Step>, i: nat)
    requires Shaped(st) && ValidRun(st, steps) && i < |st.rows|
    ensures var end := Final(st, steps); i < |end.rows| && end.rows[i].occurredAt == st.rows[i].occurredAt
    decreases steps
  {
    if steps != [] {
      DatesStay(Apply(st, steps[0]), steps[1..], i);
    }
  }

  /** Every later claim is of an event no earlier than a date that is below all the rows still to be dispatched. */
  lemma {:induction false} LaterClaim(st: State, steps: seq<Step>, k: nat, date: int, seen: nat)
    requires Inv(st) && ValidRun(st, steps) && InsertsInOrder(st, steps) && NoneBefore(st, date)
    requires seen < |st.rows| && date <= st.rows[seen].occurredAt
    requires k < |steps| && steps[k].ClaimRow?
    ensures var end := Final(st, steps); steps[k].row < |end.rows| && date <= end.rows[steps[k].row].occurredAt
    decreases steps
  {
    if k == 0 {
      DatesStay(st, steps, steps[0].row);
    } else {
      StepKeepsInv(st, steps[0]);
      StepKeepsDate(st, steps[0], date);
      LaterClaim(Apply(st, steps[0]), steps[1..], k - 1, date, seen);
    }
  }

  /** With one replica and no back-dated inserts, events are dispatched in the order of their dates. */
  lemma {:induction false} OneReplicaKeepsOrder(st: State, steps: seq<Step>, replica: nat, j: nat, k: nat)
    requires Inv(st) && ValidRun(st, steps) && OneReplica(steps, replica) && InsertsInOrder(st, steps)
    requires st.claims.Keys <= {replica}
    requires j < k < |steps| && steps[j].ClaimRow? && steps[k].ClaimRow?
    ensures var rows := Final(st, steps).rows;
            steps[j].row < |rows| && steps[k].row < |rows| && rows[steps[j].row].occurredAt <= rows[steps[k].row].occurredAt
    decreases steps
  {
    var step, rest, st' := steps[0], steps[1..], Apply(st, steps[0]);
    StepKeepsInv(st, step);
    assert forall n :: 0 <= n < |rest| ==> rest[n] == steps[n + 1];
    if j == 0 {
      var date := st.rows[step.row].occurredAt;
      LoneClaimIsEarliest(st, step.replica, step.row);
      StepKeepsDate(st, step, date);
      DatesStay(st, steps, step.row);
      LaterClaim(st', rest, k - 1, date, step.row);
    } else {
      OneReplicaKeepsOrder(st', rest, replica, j - 1, k - 1);
    }
  }
}
