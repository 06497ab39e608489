/**
 The Redis lease lock as timed runs of several instances. A lease is what an acquire that
 returned true gives its caller: the key for ttl time units unless released before.
 */
module LeaseLock {
  import opened Outcomes

  datatype Entry = Entry(owner: nat, expiresAt: nat)

  type Store = map<string, Entry>

  /** A key's entry; Redis does not show one that has expired. */
  function Lookup(store: Store, now: nat, key: string): Option<Entry> {
    if key in store && store[key].expiresAt > now then Some(store[key]) else None
  }

  /** SET key owner EX ttl NX; a zero ttl is refused. */
  predicate SetSucceeds(store: Store, now: nat, key: string, ttl: nat) {
    ttl > 0 && Lookup(store, now, key).None?
  }

  function SetNx(store: Store, now: nat, key: string, owner: nat, ttl: nat): Store {
    if SetSucceeds(store, now, key, ttl) then store[key := Entry(owner, now + ttl)] else store
  }

  /** The release script: delete the key if it still holds this owner. */
  function DeleteIfOwner(store: Store, now: nat, key: string, owner: nat): Store {
    var entry := Lookup(store, now, key);
    if entry.Some? && entry.value.owner == owner then store - {key} else store
  }

  // ---- The service object ----

  /** How a command fares: it works, is lost before the server acts, or only its reply is lost. */
  datatype Fault = Works | Lost | ReplyLost

  class RedisServer {
    var store: Store
    var now: nat

    constructor ()
      ensures store == map[] && now == 0
    {
      store := map[];
      now := 0;
    }
  }

  class RedisLockService {
    const instanceId: nat
    const redisUrl: string
    const server: RedisServer
    var connected: bool

    constructor (instanceId: nat, redisUrl: string, server: RedisServer)
      ensures this.instanceId == instanceId && this.redisUrl == redisUrl && this.server == server && !connected
    {
      this.instanceId := instanceId;
      this.redisUrl := redisUrl;
      this.server := server;
      this.connected := false;
    }

    method Acquire(key: string, ttlSeconds: nat, fault: Fault) returns (acquired: bool)
      modifies this`connected, server`store
      ensures redisUrl == [] ==> acquired && server.store == old(server.store) && connected == old(connected)
      ensures redisUrl != [] ==> connected && acquired == (fault == Works && SetSucceeds(old(server.store), server.now, key, ttlSeconds))
      ensures redisUrl != [] ==> server.store == (if fault == Lost then old(server.store)
                                                  else SetNx(old(server.store), server.now, key, instanceId, ttlSeconds))
    {
      if redisUrl == [] { return true; }
      connected := true;
      if fault == Lost { return false; }
      var free := SetSucceeds(server.store, server.now, key, ttlSeconds);
      server.store := SetNx(server.store, server.now, key, instanceId, ttlSeconds);
      return free && fault == Works;
    }

    method Release(key: string, fault: Fault)
      modifies server`store
      ensures server.store == (if !connected || fault == Lost then old(server.store)
                               else DeleteIfOwner(old(server.store), server.now, key, instanceId))
    {
      if !connected || fault == Lost { return; }
      server.store := DeleteIfOwner(server.store, server.now, key, instanceId);
    }
  }

  /** Without a configured Redis the lock excludes nobody: two instances can acquire one key at once. */
  method WithoutRedisEveryoneAcquires(key: string, ttl: nat) returns (first: bool, second: bool)
    ensures first && second
  {
    var server := new RedisServer();
    var a := new RedisLockService(1, [], server);
    var b := new RedisLockService(2, [], server);
    first := a.Acquire(key, ttl, Works);
    second := b.Acquire(key, ttl, Works);
  }

  // ---- Timed runs with Redis configured ----

  datatype Lease = Lease(holder: nat, key: string, expiresAt: nat, released: bool)

  /** The leases are listed in the order they were acquired. */
  datatype State = State(now: nat, store: Store, leases: seq<Lease>)

  datatype Step =
    | Tick(dt: nat)
    | Acquire(holder: nat, key: string, ttl: nat, fault: Fault)
    | Release(holder: nat, key: string, lease: Option<nat>, fault: Fault)

  /** A release gives up a lease of its caller, or comes from a caller that holds none. */
  predicate Enabled(st: State, step: Step) {
    match step
    case Release(p, k, Some(i), _) => i < |st.leases| && st.leases[i].holder == p && st.leases[i].key == k && !st.leases[i].released
    case _ => true
  }

  function Apply(st: State, step: Step): State
    requires Enabled(st, step)
  {
    match step
    case Tick(dt) => st.(now := st.now + dt)
    case Acquire(p, k, ttl, fault) =>
      if fault == Lost then st
      else
        var granted := fault == Works && SetSucceeds(st.store, st.now, k, ttl);
        st.(store := SetNx(st.store, st.now, k, p, ttl),
            leases := st.leases + (if granted then [Lease(p, k, st.now + ttl, false)] else []))
    case Release(p, k, lease, fault) =>
      st.(store := if fault == Lost then st.store else DeleteIfOwner(st.store, st.now, k, p),
          leases := match lease case None => st.leases case Some(i) => st.leases[i := st.leases[i].(released := true)])
  }

  /** A key is set and leased exactly when it is absent or expired and the time to live is not zero. */
  lemma AcquireExactly(st: State, p: nat, k: string, ttl: nat, fault: Fault)
    ensures var end := Apply(st, Acquire(p, k, ttl, fault));
            var free := ttl > 0 && (k !in st.store || st.store[k].expiresAt <= st.now);
            && end.now == st.now
            && end.store == (if free && fault != Lost then st.store[k := Entry(p, st.now + ttl)] else st.store)
            && end.leases == st.leases + (if free && fault == Works then [Lease(p, k, st.now + ttl, false)] else [])
  {
  }

  /** A release that arrives deletes the key exactly when an entry of the same instance is live on it. */
  lemma ReleaseExactly(st: State, p: nat, k: string, fault: Fault)
    ensures var end := Apply(st, Release(p, k, None, fault));
            var own := k in st.store && st.store[k].owner == p && st.store[k].expiresAt > st.now;
            end == st.(store := if own && fault != Lost then st.store - {k} else st.store)
  {
  }

  predicate Live(st: State, i: nat) {
    i < |st.leases| && !st.leases[i].released && st.leases[i].expiresAt > st.now
  }

  /** No two instances hold one key at the same time. */
  predicate Exclusive(st: State) {
    forall i, j :: 0 <= i < |st.leases| && 0 <= j < |st.leases| && Live(st, i) && Live(st, j) && st.leases[i].key == st.leases[j].key
      ==> st.leases[i].holder == st.leases[j].holder
  }

  /** The server still has the entry of every live lease, and no key has two live leases. */
  predicate Backed(st: State) {
    && (forall i :: 0 <= i < |st.leases| && Live(st, i) ==>
          Lookup(st.store, st.now, st.leases[i].key) == Some(Entry(st.leases[i].holder, st.leases[i].expiresAt)))
    && (forall i, j :: 0 <= i < j < |st.leases| && Live(st, i) ==> !(Live(st, j) && st.leases[i].key == st.leases[j].key))
  }

  /** Of two unreleased leases on one key the later one expires no earlier. */
  predicate Ordered(st: State) {
    forall i, j :: 0 <= i < j < |st.leases| && st.leases[i].key == st.leases[j].key && !st.leases[i].released ==>
      st.leases[i].expiresAt <= st.leases[j].expiresAt
  }

  /** A release that deletes the entry of another live lease of the same instance: the token is the process, not the acquire. */
  predicate Harmful(st: State, step: Step) {
    step.Release? && step.fault != Lost &&
    exists j :: 0 <= j < |st.leases| && Live(st, j) && st.leases[j].holder == step.holder && st.leases[j].key == step.key && step.lease != Some(j)
  }

  lemma StepKeepsBacked(st: State, step: Step)
    requires Backed(st) && Enabled(st, step) && !Harmful(st, step)
    ensures Backed(Apply(st, step))
  {
    var st' := Apply(st, step);
    forall i | 0 <= i < |st'.leases| && Live(st', i)
      ensures Lookup(st'.store, st'.now, st'.leases[i].key) == Some(Entry(st'.leases[i].holder, st'.leases[i].expiresAt))
    {
      if i < |st.leases| { assert Live(st, i); }
    }
    forall i, j | 0 <= i < j < |st'.leases| && Live(st', i) ensures !(Live(st', j) && st'.leases[i].key == st'.leases[j].key) {
      assert Live(st, i);
      if j < |st.leases| && Live(st', j) { assert Live(st, j); }
    }
  }

  lemma StepKeepsOrdered(st: State, step: Step)
    requires Backed(st) && Ordered(st) && Enabled(st, step)
    ensures Ordered(Apply(st, step))
  {
    var st' := Apply(st, step);
    forall i, j | 0 <= i < j < |st'.leases| && st'.leases[i].key == st'.leases[j].key && !st'.leases[i].released
      ensures st'.leases[i].expiresAt <= st'.leases[j].expiresAt
    {
      if j == |st.leases| {
        assert !Live(st, i);
      }
    }
  }

  lemma BackedIsExclusive(st: State)
    requires Backed(st)
    ensures Exclusive(st)
  {
  }

  /** A harmful release on behalf of a lease is a stale one: the instance has acquired the key again since. */
  lemma HarmfulIsStale(st: State, p: nat, k: string, i: nat, fault: Fault)
    requires Backed(st) && Ordered(st) && Enabled(st, Release(p, k, Some(i), fault)) && Harmful(st, Release(p, k, Some(i), fault))
    ensures st.leases[i].expiresAt <= st.now
    ensures exists j :: i < j < |st.leases| && Live(st, j) && st.leases[j].holder == p && st.leases[j].key == k
  {
    var j :| 0 <= j < |st.leases| && Live(st, j) && st.leases[j].holder == p && st.leases[j].key == k && j != i;
    assert i == j || !Live(st, i);
    assert i < j;
  }

  // ---- Runs ----

  predicate ValidRun(st: State, steps: seq<Step>)
    decreases steps
  {
    steps == [] || (Enabled(st, steps[0]) && ValidRun(Apply(st, steps[0]), steps[1..]))
  }

  function Final(st: State, steps: seq<Step>): State
    requires ValidRun(st, steps)
    decreases steps
  {
    if steps == [] then st else Final(Apply(st, steps[0]), steps[1..])
  }

  predicate HarmFree(st: State, steps: seq<Step>)
    requires ValidRun(st, steps)
    decreases steps
  {
    steps == [] || (!Harmful(st, steps[0]) && HarmFree(Apply(st, steps[0]), steps[1..]))
  }

  /** No two instances hold a key now, nor after any one further acquire. */
  ghost predicate SafeNow(st: State) {
    Exclusive(st) && forall p, k, ttl :: Exclusive(Apply(st, Acquire(p, k, ttl, Works)))
  }

  ghost predicate AlwaysSafe(st: State, steps: seq<Step>)
    requires ValidRun(st, steps)
    decreases steps
  {
    SafeNow(st) && (steps == [] || AlwaysSafe(Apply(st, steps[0]), steps[1..]))
  }

  lemma BackedIsSafeNow(st: State)
    requires Backed(st)
    ensures SafeNow(st)
  {
    BackedIsExclusive(st);
    forall p, k, ttl ensures Exclusive(Apply(st, Acquire(p, k, ttl, Works))) {
      StepKeepsBacked(st, Acquire(p, k, ttl, Works));
      BackedIsExclusive(Apply(st, Acquire(p, k, ttl, Works)));
    }
  }

  /** After a harmful release the next instance to ask gets a key that is still held. */
  lemma HarmBreaksExclusion(st: State, step: Step)
    requires Backed(st) && Enabled(st, step) && Harmful(st, step)
    ensures !SafeNow(Apply(st, step))
  {
    var st' := Apply(st, step);
    var j :| 0 <= j < |st.leases| && Live(st, j) && st.leases[j].holder == step.holder && st.leases[j].key == step.key && step.lease != Some(j);
    assert Lookup(st'.store, st'.now, step.key).None?;
    var rival := step.holder + 1;
    var st'' := Apply(st', Acquire(rival, step.key, 1, Works));
    var n := |st'.leases|;
    assert st''.leases[n] == Lease(rival, step.key, st'.now + 1, false);
    assert st''.leases[j] == st.leases[j];
    assert Live(st'', n) && Live(st'', j);
    assert !Exclusive(st'');
  }

  /** Leases exclude each other throughout a run exactly when no release in it is harmful. */
  lemma {:induction false} SafeExactlyWithoutHarm(st: State, steps: seq<Step>)
    requires Backed(st) && ValidRun(st, steps)
    ensures AlwaysSafe(st, steps) <==> HarmFree(st, steps)
    decreases steps
  {
    BackedIsSafeNow(st);
    if steps != [] {
      var st' := Apply(st, steps[0]);
      if Harmful(st, steps[0]) {
        HarmBreaksExclusion(st, steps[0]);
      } else {
        StepKeepsBacked(st, steps[0]);
        SafeExactlyWithoutHarm(st', steps[1..]);
      }
    }
  }

  const START: State := State(0, map[], [])

  /** From the start: without a harmful release no two instances ever hold a key at the same time. */
  lemma LeasesExclude(steps: seq<Step>)
    requires ValidRun(START, steps) && HarmFree(START, steps)
    ensures Exclusive(Final(START, steps))
  {
    RunKeepsBacked(START, steps);
    BackedIsExclusive(Final(START, steps));
  }

  /**
   The release is for a lease whose holder has acquired the key again since, or for none
   although the caller holds a live one: something an instance can know of its own acquires.
   */
  predicate Stale(st: State, step: Step) {
    step.Release? &&
    match step.lease
    case Some(i) => exists j :: i < j < |st.leases| && st.leases[j].holder == step.holder && st.leases[j].key == step.key
    case None => exists j :: 0 <= j < |st.leases| && Live(st, j) && st.leases[j].holder == step.holder && st.leases[j].key == step.key
  }

  predicate NoneStale(st: State, steps: seq<Step>)
    requires ValidRun(st, steps)
    decreases steps
  {
    steps == [] || (!Stale(st, steps[0]) && NoneStale(Apply(st, steps[0]), steps[1..]))
  }

  /** Only stale releases are harmful. */
  lemma HarmfulMeansStale(st: State, step: Step)
    requires Backed(st) && Ordered(st) && Enabled(st, step) && Harmful(st, step)
    ensures Stale(st, step)
  {
    if step.lease.Some? {
      HarmfulIsStale(st, step.holder, step.key, step.lease.value, step.fault);
    }
  }

  lemma {:induction false} NoneStaleIsHarmFree(st: State, steps: seq<Step>)
    requires Backed(st) && Ordered(st) && ValidRun(st, steps) && NoneStale(st, steps)
    ensures HarmFree(st, steps)
    decreases steps
  {
    if steps != [] {
      if Harmful(st, steps[0]) {
        HarmfulMeansStale(st, steps[0]);
        assert false;
      }
      StepKeepsBacked(st, steps[0]);
      StepKeepsOrdered(st, steps[0]);
      NoneStaleIsHarmFree(Apply(st, steps[0]), steps[1..]);
    }
  }

  /** While no instance releases an older acquire after acquiring the key again, no two instances ever hold a key at once. */
  lemma LeasesExcludeWithoutStaleReleases(steps: seq<Step>)
    requires ValidRun(START, steps) && NoneStale(START, steps)
    ensures AlwaysSafe(START, steps) && Exclusive(Final(START, steps))
  {
    NoneStaleIsHarmFree(START, steps);
    SafeExactlyWithoutHarm(START, steps);
    LeasesExclude(steps);
  }

  lemma {:induction false} RunKeepsBacked(st: State, steps: seq<Step>)
    requires Backed(st) && ValidRun(st, steps) && HarmFree(st, steps)
    ensures Backed(Final(st, steps))
    decreases steps
  {
    if steps != [] {
      StepKeepsBacked(st, steps[0]);
      RunKeepsBacked(Apply(st, steps[0]), steps[1..]);
    }
  }

  /** A release by an instance that does not own the key changes nothing on the server. */
  lemma NonOwnerReleaseChangesNothing(st: State, step: Step)
    requires step.Release? && Enabled(st, step)
    requires Lookup(st.store, st.now, step.key) == None || Lookup(st.store, st.now, step.key).value.owner != step.holder
    ensures Apply(st, step).store == st.store
  {
  }

  /** The harm is real: a lease that outlived its job, released late, lets a rival in beside its successor. */
  lemma StaleReleaseLetsRivalIn(p: nat, q: nat, k: string)
    requires p != q
    ensures var steps := [Acquire(p, k, 1, Works), Tick(1), Acquire(p, k, 9, Works), Release(p, k, Some(0), Works), Acquire(q, k, 9, Works)];
            ValidRun(START, steps) && !Exclusive(Final(START, steps))
  {
    var s1 := Apply(START, Acquire(p, k, 1, Works));
    var s2 := Apply(s1, Tick(1));
    var s3 := Apply(s2, Acquire(p, k, 9, Works));
    var s4 := Apply(s3, Release(p, k, Some(0), Works));
    var s5 := Apply(s4, Acquire(q, k, 9, Works));
    var e: seq<Step> := [];
    assert ValidRun(s5, e);
    assert ValidRun(s4, [Acquire(q, k, 9, Works)]);
    assert s5.leases[1] == Lease(p, k, 10, false) && s5.leases[2] == Lease(q, k, 10, false);
    assert Live(s5, 1) && Live(s5, 2);
    assert !Exclusive(s5);
    FinalOfFive(START, s1, s2, s3, s4, s5, Acquire(p, k, 1, Works), Tick(1), Acquire(p, k, 9, Works), Release(p, k, Some(0), Works), Acquire(q, k, 9, Works));
  }

  lemma FinalOfFive(s0: State, s1: State, s2: State, s3: State, s4: State, s5: State, a: Step, b: Step, c: Step, d: Step, e: Step)
    requires Enabled(s0, a) && Apply(s0, a) == s1 && Enabled(s1, b) && Apply(s1, b) == s2 && Enabled(s2, c) && Apply(s2, c) == s3
    requires Enabled(s3, d) && Apply(s3, d) == s4 && Enabled(s4, e) && Apply(s4, e) == s5
    ensures ValidRun(s0, [a, b, c, d, e]) && Final(s0, [a, b, c, d, e]) == s5
  {
    assert ValidRun(s5, []) && Final(s5, []) == s5;
    StepFirst(s4, e, s5, [], s5);
    StepFirst(s3, d, s4, [e], s5);
    StepFirst(s2, c, s3, [d, e], s5);
    StepFirst(s1, b, s2, [c, d, e], s5);
    StepFirst(s0, a, s1, [b, c, d, e], s5);
    assert [a] + [b, c, d, e] == [a, b, c, d, e] && [b] + [c, d, e] == [b, c, d, e] && [c] + [d, e] == [c, d, e] && [d] + [e] == [d, e];
    assert [e] + [] == [e];
  }

  lemma StepFirst(st: State, step: Step, next: State, rest: seq<Step>, end: State)
    requires Enabled(st, step) && Apply(st, step) == next && ValidRun(next, rest) && Final(next, rest) == end
    ensures ValidRun(st, [step] + rest) && Final(st, [step] + rest) == end
  {
    assert ([step] + rest)[1..] == rest;
  }
}
