/**
 One replica's dispatcher among others: its polling loop takes only steps of the protocol, in the
 protocol's order, whatever the other replicas do between any two of its steps.
 */
module OutboxDispatcher {
  import opened Outbox

  const BATCH_SIZE: nat := 50
  const RETRY_STORM_THRESHOLD: nat := 10
  const RETRY_STORM_COOLDOWN_MS: nat := 60_000

  /**
   How one dispatch goes: the handler returns or throws and the transaction commits, the first update is refused
   and the second commits, the transaction aborts behind the handler, or it is lost while the handler still runs.
   */
  datatype Fate = Returns | Throws | UpdateRefused | ReturnsThenAborts | ThrowsThenAborts | TransactionLost {
    predicate Commits() {
      this.Returns? || this.Throws? || this.UpdateRefused?
    }

    predicate HandlerThrew() {
      this.Throws? || this.ThrowsThenAborts?
    }
  }

  /** One turn of the loop: its fate, and what the others do before the claim, after it and before the last step. */
  datatype Turn = Turn(fate: Fate, before: seq<Step>, during: seq<Step>, last: seq<Step>)

  predicate IsBy(step: Step, replica: nat) {
    !step.Insert? && step.replica == replica
  }

  /** The replica's own steps of a run. */
  function Own(steps: seq<Step>, replica: nat): seq<Step> {
    if steps == [] then [] else (if IsBy(steps[0], replica) then [steps[0]] else []) + Own(steps[1..], replica)
  }

  lemma {:induction false} OwnJoin(a: seq<Step>, b: seq<Step>, replica: nat)
    ensures Own(a + b, replica) == Own(a, replica) + Own(b, replica)
  {
    if a == [] {
      assert a + b == b;
    } else {
      var x := if IsBy(a[0], replica) then [a[0]] else [];
      assert (a + b)[0] == a[0] && (a + b)[1..] == a[1..] + b;
      OwnJoin(a[1..], b, replica);
      assert x + (Own(a[1..], replica) + Own(b, replica)) == (x + Own(a[1..], replica)) + Own(b, replica);
    }
  }

  // ---- Runs ----

  ghost predicate Runs(st: State, steps: seq<Step>, end: State) {
    Inv(st) && Inv(end) && ValidRun(st, steps) && Final(st, steps) == end
  }

  lemma {:induction false} RunsJoin(st: State, first: seq<Step>, mid: State, second: seq<Step>, end: State)
    requires Runs(st, first, mid) && Runs(mid, second, end)
    ensures Runs(st, first + second, end)
    decreases first
  {
    if first == [] {
      assert first + second == second;
    } else {
      StepKeepsInv(st, first[0]);
      assert (first + second)[1..] == first[1..] + second;
      RunsJoin(Apply(st, first[0]), first[1..], mid, second, end);
    }
  }

  lemma TakesNothing(st: State, replica: nat)
    requires Inv(st)
    ensures Takes(st, [], st, replica, [])
  {
  }

  lemma RunsOne(st: State, step: Step)
    requires Inv(st) && Enabled(st, step)
    ensures Runs(st, [step], Apply(st, step))
  {
    StepKeepsInv(st, step);
    assert ValidRun(Apply(st, step), []);
  }

  /** A run from one state to another in which the replica takes exactly these steps. */
  ghost predicate Takes(st: State, steps: seq<Step>, end: State, replica: nat, own: seq<Step>) {
    Runs(st, steps, end) && Own(steps, replica) == own
  }

  lemma TakesJoin(st: State, a: seq<Step>, mid: State, b: seq<Step>, end: State, replica: nat, p: seq<Step>, q: seq<Step>)
    requires Takes(st, a, mid, replica, p) && Takes(mid, b, end, replica, q)
    ensures Takes(st, a + b, end, replica, p + q)
  {
    RunsJoin(st, a, mid, b, end);
    OwnJoin(a, b, replica);
  }

  lemma TakesStep(st: State, a: seq<Step>, mid: State, replica: nat, p: seq<Step>, step: Step)
    requires Takes(st, a, mid, replica, p) && Enabled(mid, step) && IsBy(step, replica)
    ensures Takes(st, a + [step], Apply(mid, step), replica, p + [step])
  {
    RunsOne(mid, step);
    assert [step][1..] == [];
    TakesJoin(st, a, mid, [step], Apply(mid, step), replica, p, [step]);
  }

  // ---- What others leave alone ----

  /** The replica's transaction with the row it locks, or the handler that outlived it, is the same in both states. */
  predicate SameFor(replica: nat, a: State, b: State) {
    && (replica in a.claims <==> replica in b.claims) && (replica in a.claims ==> a.claims[replica] == b.claims[replica])
    && (replica in a.claims ==> SameRow(a, b, a.claims[replica].row))
    && (replica in a.strays <==> replica in b.strays)
  }

  predicate SameRow(a: State, b: State, row: nat) {
    row < |a.rows| <= |b.rows| && b.rows[row] == a.rows[row]
  }

  lemma OthersLeaveMine(st: State, step: Step, replica: nat)
    requires Inv(st) && Enabled(st, step) && !IsBy(step, replica)
    ensures SameFor(replica, st, Apply(st, step))
  {
  }

  ghost predicate NothingIsNext(st: State) {
    forall i :: 0 <= i < |st.rows| ==> !IsNext(st, i)
  }

  /** Another's step continues a run in which the replica takes no step. */
  lemma OthersGoOn(st: State, taken: seq<Step>, mid: State, replica: nat, step: Step)
    requires Takes(st, taken, mid, replica, []) && SameFor(replica, st, mid)
    requires Enabled(mid, step) && !IsBy(step, replica)
    ensures Takes(st, taken + [step], Apply(mid, step), replica, []) && SameFor(replica, st, Apply(mid, step))
  {
    OthersLeaveMine(mid, step, replica);
    RunsOne(mid, step);
    assert [step][1..] == [];
    TakesJoin(st, taken, mid, [step], Apply(mid, step), replica, [], []);
  }

  /** The shared table. */
  class Database {
    var st: State

    constructor (registered: set<string>)
      ensures st == Init(registered)
    {
      st := Init(registered);
    }

    /** The others take their steps, those that are possible; every run of the others is one such. */
    method OthersAct(replica: nat, others: seq<Step>) returns (ghost taken: seq<Step>)
      requires Inv(st)
      modifies this
      ensures Takes(old(st), taken, st, replica, []) && SameFor(replica, old(st), st)
      ensures ValidRun(old(st), others) && Own(others, replica) == [] ==> taken == others
    {
      taken := [];
      ghost var rest := others;
      for k := 0 to |others|
        invariant rest == others[k..]
        invariant Takes(old(st), taken, st, replica, []) && SameFor(replica, old(st), st)
        invariant ValidRun(old(st), others) && Own(others, replica) == [] ==>
          ValidRun(st, rest) && Own(rest, replica) == [] && others == taken + rest
      {
        var step := others[k];
        assert rest[0] == step && rest[1..] == others[k + 1..];
        if Enabled(st, step) && !IsBy(step, replica) {
          OthersGoOn(old(st), taken, st, replica, step);
          assert taken + rest == (taken + [step]) + rest[1..];
          st := Apply(st, step);
          taken := taken + [step];
        }
        rest := rest[1..];
      }
    }
  }

  // ---- One dispatch ----

  /**
   The claimed row after its dispatch: processed when the handler returned, or none was needed, and the transaction
   committed; one attempt more when the failure was written; as it was when the transaction was not committed.
   */
  function RowAfter(st: State, row: nat, fate: Fate): Row
    requires row < |st.rows|
  {
    var was, known := st.rows[row], st.rows[row].eventType in st.registered;
    if fate.Returns? || (fate.Throws? && !known) then was.(processed := true, attempts := was.attempts + 1)
    else if fate.Throws? || fate.UpdateRefused? then was.(attempts := was.attempts + 1)
    else was
  }

  /** Which of the closing and handler steps a dispatch takes. */
  predicate FollowsFate(own: seq<Step>, replica: nat, known: bool, fate: Fate) {
    && (HandlerThrows(replica) in own <==> known && (fate.Throws? || fate.ThrowsThenAborts?))
    && (HandlerReturns(replica) in own <==> known && (fate.Returns? || fate.UpdateRefused? || fate.ReturnsThenAborts?))
    && (Commit(replica) in own <==> fate.Returns? || fate.Throws?)
    && (CommitAsFailure(replica) in own <==> fate.UpdateRefused?)
  }

  lemma DispatchFollowsFate(replica: nat, row: nat, known: bool, fate: Fate)
    ensures FollowsFate(DispatchSteps(replica, row, known, fate), replica, known, fate)
  {
    var middle, closing := HandlerStep(replica, fate), ClosingStep(replica, known, fate);
    assert DispatchSteps(replica, row, known, fate)
        == if !known then [ClaimRow(replica, row), closing]
           else if fate == TransactionLost then [ClaimRow(replica, row), closing, StrayEnds(replica)]
           else [ClaimRow(replica, row), middle, closing];
  }

  /** Only a committed dispatch writes to the table, and only to the row its transaction holds. */
  lemma OnlyDispatchesWrite(st: State, step: Step, i: nat)
    requires Inv(st) && Enabled(st, step) && i < |st.rows|
    requires Apply(st, step).rows[i] != st.rows[i]
    ensures (step.Commit? || step.CommitAsFailure?) && st.claims[step.replica].row == i
    ensures Apply(st, step).rows[i] == st.rows[i].(processed := step.Commit? && st.claims[step.replica].phase == Returned,
                                                   attempts := st.rows[i].attempts + 1)
  {
  }

  /** What the handler's part of a dispatch does, when there is a handler. */
  function HandlerStep(replica: nat, fate: Fate): Step {
    if fate.HandlerThrew() then HandlerThrows(replica) else HandlerReturns(replica)
  }

  function ClosingStep(replica: nat, handled: bool, fate: Fate): Step {
    if !fate.Commits() then Rollback(replica, handled && fate == TransactionLost)
    else if fate.UpdateRefused? then CommitAsFailure(replica)
    else Commit(replica)
  }

  /** The replica's steps in one dispatch of the row; when the transaction is lost it waits for the handler to end. */
  function DispatchSteps(replica: nat, row: nat, handled: bool, fate: Fate): seq<Step> {
    [ClaimRow(replica, row)]
    + (if handled && fate != TransactionLost then [HandlerStep(replica, fate)] else [])
    + [ClosingStep(replica, handled, fate)]
    + (if handled && fate == TransactionLost then [StrayEnds(replica)] else [])
  }

  predicate IsHandled(st: State, row: nat)
    requires row < |st.rows|
  {
    st.rows[row].eventType in st.registered
  }

  /** The replica's transaction is as far as its closing step needs. */
  predicate CanClose(st: State, replica: nat, handled: bool, fate: Fate) {
    && replica in st.claims && replica !in st.strays
    && st.claims[replica].phase ==
         (if !handled then Returned else if fate == TransactionLost then Running else if fate.HandlerThrew() then Threw else Returned)
  }

  lemma ClosingIsEnabled(st: State, replica: nat, handled: bool, fate: Fate)
    requires Shaped(st) && CanClose(st, replica, handled, fate)
    ensures Enabled(st, ClosingStep(replica, handled, fate))
    ensures var end := Apply(st, ClosingStep(replica, handled, fate));
            if handled && fate == TransactionLost then replica !in end.claims && replica in end.strays else Free(end, replica)
  {
  }

  class Dispatcher {
    const replica: nat
    const db: Database
    var running: bool
    var lastRetryStormAlertAt: int
    var alerts: seq<int>

    constructor (replica: nat, db: Database)
      ensures this.replica == replica && this.db == db && !running && lastRetryStormAlertAt == 0 && alerts == []
    {
      this.replica := replica;
      this.db := db;
      this.running := false;
      this.lastRetryStormAlertAt := 0;
      this.alerts := [];
    }

    /** The replica takes a step of its own. */
    method Act(step: Step)
      requires Shaped(db.st) && Enabled(db.st, step)
      modifies db
      ensures db.st == Apply(old(db.st), step)
    {
      db.st := Apply(db.st, step);
    }

    /**
     Claims an earliest row, dispatches it and closes the transaction, while others act in between; it returns once
     the handler has ended. False when no row was claimable or the transaction aborted. A row whose transaction was lost
     is open to the others while the handler goes on; the steps of this dispatch then write nothing.
     */
    method ClaimAndDispatchOne(turn: Turn) returns (handled: bool, ghost row: nat, ghost steps: seq<Step>, ghost own: seq<Step>)
      requires Inv(db.st) && Free(db.st, replica)
      modifies db
      ensures Takes(old(db.st), steps, db.st, replica, own) && Free(db.st, replica)
      ensures own == [] ==> db.st == old(db.st) && NothingIsNext(db.st)
      ensures own != [] ==> row < |old(db.st.rows)| && IsNext(old(db.st), row) && own[0] == ClaimRow(replica, row)
      ensures own != [] ==>
        var fate, known := turn.fate, old(db.st.rows[row].eventType in db.st.registered);
        && own == DispatchSteps(replica, row, known, fate)
        && (fate != TransactionLost || !known ==> |db.st.rows| > row && db.st.rows[row] == RowAfter(old(db.st), row, fate))
        && FollowsFate(own, replica, known, fate)
      ensures handled <==> own != [] && (turn.fate.Returns? || turn.fate.Throws? || turn.fate.UpdateRefused?)
    {
      ghost var start := db.st;
      steps, own, row := [], [], 0;
      if next: nat :| next < |db.st.rows| && IsNext(db.st, next) {
        row := next;
        var fate, known := turn.fate, IsHandled(db.st, next);
        steps, own := Claim(next, turn.during);
        if known && fate != TransactionLost {
          steps, own := Handle(start, steps, own, row, start.rows[row], fate, turn.last);
        }
        steps, own := CloseTransaction(start, steps, own, start, row, known, turn);
        assert own == DispatchSteps(replica, row, known, fate);
        DispatchFollowsFate(replica, row, known, fate);
        handled := fate.Commits();
      } else {
        handled := false;
      }
    }

    /** The replica's transaction holds the row, which is as given and as the transaction read it. */
    ghost predicate Holds(row: nat, was: Row)
      reads this, db
    {
      && replica in db.st.claims && replica !in db.st.strays && db.st.claims[replica].row == row < |db.st.rows|
      && db.st.rows[row] == was && db.st.claims[replica].attempts == was.attempts
    }

    method Claim(row: nat, during: seq<Step>) returns (ghost steps: seq<Step>, ghost own: seq<Step>)
      requires Inv(db.st) && Free(db.st, replica) && row < |db.st.rows| && IsNext(db.st, row)
      modifies db
      ensures own == [ClaimRow(replica, row)] && Takes(old(db.st), steps, db.st, replica, own)
      ensures Holds(row, old(db.st.rows[row]))
      ensures db.st.claims[replica].phase == (if IsHandled(old(db.st), row) then Running else Returned)
    {
      ghost var start := db.st;
      own := [ClaimRow(replica, row)];
      TakesNothing(start, replica);
      TakesStep(start, [], start, replica, [], ClaimRow(replica, row));
      assert [] + own == own;
      Act(ClaimRow(replica, row));
      ghost var mid := db.st;
      ghost var taken := db.OthersAct(replica, during);
      TakesJoin(start, own, mid, taken, db.st, replica, own, []);
      assert own + [] == own;
      steps := own + taken;
    }

    method Handle(ghost start: State, ghost before: seq<Step>, ghost done: seq<Step>, ghost row: nat, ghost was: Row,
                  fate: Fate, last: seq<Step>)
      returns (ghost steps: seq<Step>, ghost own: seq<Step>)
      requires Takes(start, before, db.st, replica, done) && fate != TransactionLost
      requires Holds(row, was) && db.st.claims[replica].phase == Running
      modifies db
      ensures own == done + [HandlerStep(replica, fate)] && Takes(start, steps, db.st, replica, own)
      ensures CanClose(db.st, replica, true, fate) && Holds(row, was)
    {
      TakesStep(start, before, db.st, replica, done, HandlerStep(replica, fate));
      own := done + [HandlerStep(replica, fate)];
      steps := before + [HandlerStep(replica, fate)];
      Act(HandlerStep(replica, fate));
      ghost var mid := db.st;
      ghost var taken := db.OthersAct(replica, last);
      TakesJoin(start, steps, mid, taken, db.st, replica, own, []);
      assert own + [] == own;
      steps := steps + taken;
    }

    method CloseTransaction(ghost start: State, ghost before: seq<Step>, ghost done: seq<Step>,
                            ghost claimed: State, ghost row: nat, known: bool, turn: Turn)
      returns (ghost steps: seq<Step>, ghost own: seq<Step>)
      requires Takes(start, before, db.st, replica, done) && CanClose(db.st, replica, known, turn.fate)
      requires row < |claimed.rows| && Holds(row, claimed.rows[row]) && known == (claimed.rows[row].eventType in claimed.registered)
      modifies db
      ensures own == done + [ClosingStep(replica, known, turn.fate)]
                     + (if known && turn.fate == TransactionLost then [StrayEnds(replica)] else [])
      ensures Takes(start, steps, db.st, replica, own) && Free(db.st, replica)
      ensures turn.fate != TransactionLost || !known ==> |db.st.rows| > row && db.st.rows[row] == RowAfter(claimed, row, turn.fate)
    {
      var closing := ClosingStep(replica, known, turn.fate);
      ClosingIsEnabled(db.st, replica, known, turn.fate);
      TakesStep(start, before, db.st, replica, done, closing);
      steps, own := before + [closing], done + [closing];
      Act(closing);
      if known && turn.fate == TransactionLost {
        ghost var mid := db.st;
        ghost var taken := db.OthersAct(replica, turn.last);
        TakesJoin(start, steps, mid, taken, db.st, replica, own, []);
        assert own + [] == own;
        steps := steps + taken;
        TakesStep(start, steps, db.st, replica, own, StrayEnds(replica));
        steps, own := steps + [StrayEnds(replica)], own + [StrayEnds(replica)];
        Act(StrayEnds(replica));
      }
    }

    /** Alerts so far lie a cool-down apart, and the last one is the remembered one. */
    ghost predicate AlertsSpaced()
      reads this
    {
      && (forall k :: 0 < k < |alerts| ==> alerts[k] >= alerts[k - 1] + 60_000)
      && (alerts != [] ==> alerts[|alerts| - 1] == lastRetryStormAlertAt)
    }

    /** Alerts when ten or more unprocessed rows have failed three times, at most once per cool-down. */
    method CheckRetryStorm(now: int)
      requires AlertsSpaced()
      modifies this`alerts, this`lastRetryStormAlertAt
      ensures AlertsSpaced()
      ensures var due := |FailedThrice(db.st.rows)| >= 10 && now - old(lastRetryStormAlertAt) >= 60_000;
              alerts == old(alerts) + (if due then [now] else [])
    {
      StrugglingCounts(db.st.rows);
      if Struggling(db.st.rows) < RETRY_STORM_THRESHOLD { return; }
      if now - lastRetryStormAlertAt < RETRY_STORM_COOLDOWN_MS { return; }
      lastRetryStormAlertAt := now;
      alerts := alerts + [now];
    }

    /** The others act, then the replica dispatches once, and the run so far goes on. */
    method TakeTurn(ghost start: State, ghost before: seq<Step>, ghost done: seq<Step>, turn: Turn)
      returns (handled: bool, ghost acted: bool, ghost steps: seq<Step>, ghost own: seq<Step>)
      requires Takes(start, before, db.st, replica, done) && Free(db.st, replica)
      modifies db
      ensures Takes(start, steps, db.st, replica, own) && Free(db.st, replica)
      ensures !acted ==> NothingIsNext(db.st)
      ensures handled <==> acted && (turn.fate.Returns? || turn.fate.Throws? || turn.fate.UpdateRefused?)
      ensures Dispatches(own) == Dispatches(done) + if handled then 1 else 0
    {
      ghost var was := db.st;
      ghost var others := db.OthersAct(replica, turn.before);
      TakesJoin(start, before, was, others, db.st, replica, done, []);
      ghost var claimed := db.st;
      ghost var row, taken, mine;
      handled, row, taken, mine := ClaimAndDispatchOne(turn);
      TakesJoin(start, before + others, claimed, taken, db.st, replica, done + [], mine);
      assert done + [] == done;
      steps, own, acted := before + others + taken, done + mine, mine != [];
      DispatchesJoin(done, mine);
      if acted {
        DispatchesOfOne(replica, row, IsHandled(claimed, row), turn.fate);
      }
    }

    /**
     One tick of the timer. A tick during another one does nothing. Otherwise, whatever happens to each dispatch and whatever
     the others do meanwhile, it is a run of the protocol that leaves the replica free; it stops early only with nothing left
     to claim or after an aborted transaction.
     */
    method Poll(plan: seq<Turn>, now: int) returns (ghost steps: seq<Step>, ghost own: seq<Step>, ghost turns: nat)
      requires Inv(db.st) && (!running ==> Free(db.st, replica)) && AlertsSpaced() && |plan| == 50
      modifies this, db
      ensures AlertsSpaced() && running == old(running)
      ensures old(running) ==> db.st == old(db.st) && steps == [] && turns == 0
      ensures Takes(old(db.st), steps, db.st, replica, own) && (!old(running) ==> Free(db.st, replica))
      ensures !old(running) && turns < 50 ==> Aborted(plan, turns) || NothingIsNext(db.st)
      ensures turns <= 50 && Dispatches(own) == Completed(plan[..turns])
    {
      steps, own, turns := [], [], 0;
      TakesNothing(db.st, replica);
      if running { return; }
      running := true;
      steps, own, turns := DispatchBatch(plan);
      CheckRetryStorm(now);
      running := false;
    }

    /** Up to fifty dispatches, until nothing is claimable or a transaction aborts. */
    method DispatchBatch(plan: seq<Turn>) returns (ghost steps: seq<Step>, ghost own: seq<Step>, ghost turns: nat)
      requires Inv(db.st) && Free(db.st, replica) && |plan| == 50
      modifies db
      ensures Takes(old(db.st), steps, db.st, replica, own) && Free(db.st, replica)
      ensures turns <= 50 && Dispatches(own) == Completed(plan[..turns])
      ensures turns < 50 ==> Aborted(plan, turns) || NothingIsNext(db.st)
    {
      steps, own, turns := [], [], 0;
      TakesNothing(db.st, replica);
      var i, more := 0, true;
      assert plan[..0] == [];
      while i < BATCH_SIZE && more
        invariant turns <= i <= BATCH_SIZE && (more ==> turns == i)
        invariant Takes(old(db.st), steps, db.st, replica, own) && Free(db.st, replica)
        invariant !more ==> Aborted(plan, turns) || NothingIsNext(db.st)
        invariant Dispatches(own) == Completed(plan[..turns])
        decreases BATCH_SIZE - i
      {
        ghost var acted;
        more, acted, steps, own := TakeTurn(old(db.st), steps, own, plan[i]);
        if acted {
          CompletedNext(plan, turns);
          turns := turns + 1;
        }
        i := i + 1;
      }
    }
  }

  /** The last of the first turns ends without a commit. */
  predicate Aborted(plan: seq<Turn>, turns: nat) {
    0 < turns <= |plan| && plan[turns - 1].fate in {ReturnsThenAborts, ThrowsThenAborts, TransactionLost}
  }

  /** Unprocessed rows that have failed at least three times. */
  function Struggling(rows: seq<Row>): nat {
    if rows == [] then 0
    else (if !rows[0].processed && rows[0].attempts >= 3 then 1 else 0) + Struggling(rows[1..])
  }

  ghost function FailedThrice(rows: seq<Row>): set<nat> {
    set i: nat | i < |rows| && !rows[i].processed && rows[i].attempts >= 3
  }

  lemma {:induction false} StrugglingCounts(rows: seq<Row>)
    ensures Struggling(rows) == |FailedThrice(rows)|
  {
    if rows != [] {
      var n := |rows| - 1;
      assert rows == rows[..n] + [rows[n]];
      StrugglingCounts(rows[..n]);
      StrugglingJoin(rows[..n], rows[n]);
      assert FailedThrice(rows) == FailedThrice(rows[..n]) + if !rows[n].processed && rows[n].attempts >= 3 then {n} else {};
    }
  }

  lemma {:induction false} StrugglingJoin(rows: seq<Row>, row: Row)
    ensures Struggling(rows + [row]) == Struggling(rows) + if !row.processed && row.attempts >= 3 then 1 else 0
  {
    if rows == [] {
      assert [row][1..] == [];
    } else {
      assert (rows + [row])[1..] == rows[1..] + [row];
      StrugglingJoin(rows[1..], row);
    }
  }

  /** Dispatches that commit, whichever way the handler went. */
  function Completed(plan: seq<Turn>): nat {
    if plan == [] then 0 else (if plan[0].fate.Commits() then 1 else 0) + Completed(plan[1..])
  }

  lemma {:induction false} CompletedNext(plan: seq<Turn>, n: nat)
    requires n < |plan|
    ensures Completed(plan[..n + 1]) == Completed(plan[..n]) + (if plan[n].fate.Commits() then 1 else 0)
  {
    if n == 0 {
      assert plan[..1][1..] == [] && plan[..0] == [];
    } else {
      assert plan[..n + 1][1..] == plan[1..][..n] && plan[..n][1..] == plan[1..][..n - 1];
      CompletedNext(plan[1..], n - 1);
    }
  }

  lemma {:induction false} DispatchesJoin(a: seq<Step>, b: seq<Step>)
    ensures Dispatches(a + b) == Dispatches(a) + Dispatches(b)
  {
    if a == [] {
      assert a + b == b;
    } else {
      assert (a + b)[1..] == a[1..] + b;
      DispatchesJoin(a[1..], b);
    }
  }

  lemma DispatchesOfOne(replica: nat, row: nat, handled: bool, fate: Fate)
    ensures Dispatches(DispatchSteps(replica, row, handled, fate)) == if fate.Commits() then 1 else 0
  {
    var first, closing := [ClaimRow(replica, row)], [ClosingStep(replica, handled, fate)];
    var middle := if handled && fate != TransactionLost then [HandlerStep(replica, fate)] else [];
    var end := if handled && fate == TransactionLost then [StrayEnds(replica)] else [];
    assert closing[1..] == [];
    assert Dispatches(first) == Dispatches(middle) == Dispatches(end) == 0;
    DispatchesJoin(first, middle);
    DispatchesJoin(first + middle, closing);
    DispatchesJoin(first + middle + closing, end);
  }
}
