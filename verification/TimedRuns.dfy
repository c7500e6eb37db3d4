/**
 Runs with a clock: every event of the transition system carries the time at which it happens,
 so accepting and sweeping take as long as they take, with anything in between.
 */
module TimedRuns {
  import opened Connections
  import opened Runs
  import opened Sweeps

  datatype Timed = Timed(at: nat, event: Event)

  function Events(run: seq<Timed>): (es: seq<Event>)
    ensures |es| == |run|
  {
    seq(|run|, i requires 0 <= i < |run| => run[i].event)
  }

  /** The server when the first `n` events have happened. */
  function StateAt(run: seq<Timed>, n: nat): State
    requires n <= |run|
  {
    After(Events(run)[..n])
  }

  ghost predicate Sorted(run: seq<Timed>) {
    forall i, j :: 0 <= i <= j < |run| ==> run[i].at <= run[j].at
  }

  ghost predicate LegalTimed(run: seq<Timed>) {
    Sorted(run) && Legal(INIT, Events(run))
  }

  /** One event later. */
  lemma NextState(run: seq<Timed>, n: nat)
    requires LegalTimed(run) && n < |run|
    ensures Inv(StateAt(run, n)) && Enabled(StateAt(run, n), run[n].event)
    ensures StateAt(run, n + 1) == Step(StateAt(run, n), run[n].event)
  {
    hide Inv, Step, Enabled;
    var es := Events(run);
    LegalPrefix(INIT, es, n + 1);
    LegalLast(INIT, es[..n + 1]);
    assert es[..n + 1][..n] == es[..n];
    RunKeepsInv(es[..n]);
  }

  // ---- keep-alive ----

  /** `sleep(k)` between two passes: from a clear to any later look at least `k` goes by. */
  ghost predicate Sleeps(run: seq<Timed>, k: nat) {
    forall i, j :: 0 <= i < j < |run| && run[i].event.Clear? && run[j].event.Look? ==> run[i].at + k <= run[j].at
  }

  /** A message sent at `t` is recorded within `d`, unless the run ends while it may still be on its way. */
  ghost predicate Delivered(run: seq<Timed>, m: nat, ip: string, t: nat, d: nat)
    requires run != []
  {
    || run[|run| - 1].at <= t + d
    || exists j :: m < j < |run| && Records(run[j].event, ip) && t <= run[j].at <= t + d
  }

  /** Event `m` completes an accept of `ip` that no visit of that address interferes with. */
  ghost predicate Joined(run: seq<Timed>, m: nat, ip: string) {
    && m < |run| && run[m].event == Mark(ip)
    && ip in StateAt(run, m).connected && !StateAt(run, m).sweeping.Visits(ip)
  }

  /**
   A client that has joined at event `m` lives on: it sends its first heartbeat at most `p` after
   that (`keep_alive` sends before it first sleeps, possibly before the accept loop gets to it), the
   next ones at most `p` apart, and each one sent since is recorded within `d`.
   */
  ghost predicate Alive(run: seq<Timed>, m: nat, ip: string, send: nat -> nat, p: nat, d: nat) {
    && Joined(run, m, ip)
    && send(0) <= run[m].at + p
    && (forall i: nat :: send(i) < send(i + 1) <= send(i) + p)
    && (forall i: nat :: run[m].at <= send(i) ==> Delivered(run, m, ip, send(i), d))
  }

  lemma {:induction false} BeatStays(run: seq<Timed>, j: nat, n: nat, ip: string)
    requires LegalTimed(run) && j < n <= |run|
    requires Records(run[j].event, ip)
    requires forall k :: j < k < n ==> !run[k].event.Clear?
    ensures ip in StateAt(run, n).beats
  {
    hide StateAt, LegalTimed, Inv, Step, Enabled;
    NextState(run, n - 1);
    BeatsStep(StateAt(run, n - 1), run[n - 1].event, ip);
    if j < n - 1 {
      BeatStays(run, j, n - 1, ip);
    }
  }

  /** The last time at or before `t` that is sent at. */
  lemma {:induction false} LastSend(send: nat -> nat, t: nat, i: nat) returns (l: nat)
    requires forall i: nat :: send(i) < send(i + 1)
    requires send(i) <= t
    ensures send(l) <= t < send(l + 1)
    decreases t - send(i)
  {
    if t < send(i + 1) {
      l := i;
    } else {
      l := LastSend(send, t, i + 1);
    }
  }

  /** Between a clear and the next pass a live client is heard. */
  lemma HeardBetween(
    run: seq<Timed>, m: nat, ip: string, send: nat -> nat, p: nat, d: nat, k: nat, a: nat, b: nat)
    returns (j: nat)
    requires LegalTimed(run) && Alive(run, m, ip, send, p, d) && Sleeps(run, k) && p + d < k
    requires m < a < b < |run| && run[a].event.Clear? && run[b].event.Look?
    ensures a < j < b && Records(run[j].event, ip)
  {
    hide Legal, StateAt;
    var t := run[a].at;
    assert run[m].at <= t;
    var u := send(0);
    if u <= t {
      var l := LastSend(send, t, 0);
      u := send(l + 1);
    }
    assert u + d < run[b].at <= run[|run| - 1].at;
    assert Delivered(run, m, ip, u, d);
    j :| m < j < |run| && Records(run[j].event, ip) && u <= run[j].at <= u + d;
    assert a < j by {
      assert Sorted(run);
    }
  }

  /** The last clear in a stretch of the run, if there is one. */
  lemma {:induction false} LastClear(run: seq<Timed>, m: nat, n: nat) returns (a: nat)
    requires m < n <= |run|
    ensures m <= a < n && (a == m || run[a].event.Clear?)
    ensures forall k :: a < k < n ==> !run[k].event.Clear?
  {
    if n - 1 == m || run[n - 1].event.Clear? {
      a := n - 1;
    } else {
      a := LastClear(run, m, n - 1);
    }
  }

  /** Every look at a live client finds a heartbeat. */
  lemma LookFinds(run: seq<Timed>, m: nat, ip: string, send: nat -> nat, p: nat, d: nat, k: nat, l: nat)
    requires LegalTimed(run) && Alive(run, m, ip, send, p, d) && Sleeps(run, k) && p + d < k
    requires m < l < |run| && run[l].event == Look(ip)
    ensures ip in StateAt(run, l).beats
  {
    hide StateAt, LegalTimed, Sleeps;
    var a := LastClear(run, m, l);
    var j := a;
    if a == m {
      assert Records(run[m].event, ip);
    } else {
      j := HeardBetween(run, m, ip, send, p, d, k, a, l);
    }
    BeatStays(run, j, l, ip);
  }

  /** While period plus delay stays below the sleep, no visit of a live client ever goes past its look. */
  lemma {:induction false} KeptAlive(
    run: seq<Timed>, m: nat, ip: string, send: nat -> nat, p: nat, d: nat, k: nat, n: nat)
    requires LegalTimed(run) && Alive(run, m, ip, send, p, d) && Sleeps(run, k) && p + d < k
    requires m < n <= |run|
    ensures ip in StateAt(run, n).connected && !StateAt(run, n).sweeping.Visits(ip)
  {
    hide StateAt, LegalTimed, Alive, Sleeps, Inv;
    NextState(run, n - 1);
    if m == n - 1 {
      AliveJoined(run, m, ip, send, p, d);
    } else {
      KeptAlive(run, m, ip, send, p, d, k, n - 1);
      if run[n - 1].event == Look(ip) {
        LookFinds(run, m, ip, send, p, d, k, n - 1);
      }
    }
  }

  lemma AliveJoined(run: seq<Timed>, m: nat, ip: string, send: nat -> nat, p: nat, d: nat)
    requires Alive(run, m, ip, send, p, d)
    ensures m < |run| && run[m].event == Mark(ip)
    ensures ip in StateAt(run, m).connected && !StateAt(run, m).sweeping.Visits(ip)
  {
  }

  /** With period `p` and delays up to `d`, a server that sleeps `k` never evicts a live client. */
  ghost predicate Safe(k: nat, p: nat, d: nat) {
    forall run, m: nat, ip, send: nat -> nat, n: nat ::
      LegalTimed(run) && Sleeps(run, k) && Alive(run, m, ip, send, p, d) && m < n <= |run| ==>
        ip in StateAt(run, n).connected
  }

  /** Events that all happen at one time. */
  function AllAt(t: nat, es: seq<Event>): seq<Timed> {
    seq(|es|, i requires 0 <= i < |es| => Timed(t, es[i]))
  }

  /**
   The run that evicts a live client when period and delay fill the interval: the first heartbeat
   arrives before a pass, which uses it up, and the next may still be on its way at the following
   pass.
   */
  function EvictingRun(k: nat, fd: nat, ip: string): seq<Timed> {
    AllAt(0, AcceptEvents(fd, ip) + [Heartbeat(ip), Look(ip), Clear]) + AllAt(k, KillEvents(ip) + [Erase(ip)])
  }

  lemma EvictingRunEvicts(k: nat, fd: nat, ip: string)
    ensures var run := EvictingRun(k, fd, ip);
            |run| == 11 && LegalTimed(run) && Sleeps(run, k) && Joined(run, 2, ip) && ip !in StateAt(run, 11).connected
  {
    var run := EvictingRun(k, fd, ip);
    var a, b, c := AcceptEvents(fd, ip), [Heartbeat(ip), Look(ip), Clear], KillEvents(ip);
    assert Events(run) == a + b + c + [Erase(ip)];
    EvictingEvents(fd, ip);
    assert Events(run)[..11] == Events(run);
    assert Events(run)[..2] == [Connect(fd, ip), Store(ip)];
  }

  lemma EvictingEvents(fd: nat, ip: string)
    ensures var es := AcceptEvents(fd, ip) + [Heartbeat(ip), Look(ip), Clear] + KillEvents(ip) + [Erase(ip)];
            Legal(INIT, es) && After(es).connected == map[]
    ensures After([Connect(fd, ip), Store(ip)]).connected == map[ip := Client(fd, ip, true)]
    ensures After([Connect(fd, ip), Store(ip)]).sweeping.Resting?
  {
    hide Legal, Steps, AcceptEvents, KillEvents;
    var a, b, c, d := AcceptEvents(fd, ip), [Heartbeat(ip), Look(ip), Clear], KillEvents(ip), [Erase(ip)];
    AcceptEffect(INIT, fd, ip);
    var s := After(a);
    var es, t := Begin(s);
    es, t := Then(s, es, t, Heartbeat(ip));
    es, t := Then(s, es, t, Look(ip));
    es, t := Then(s, es, t, Clear);
    assert es == b;
    Pieces(INIT, a, b);
    KillEffect(t, ip);
    Pieces(INIT, a + b, c);
    EraseEffect(After(a + b + c), ip);
    Pieces(INIT, a + b + c, d);
    assert After(a + b + c).connected - {ip} == map[];
    var es2, t2 := Begin(INIT);
    es2, t2 := Then(INIT, es2, t2, Connect(fd, ip));
    es2, t2 := Then(INIT, es2, t2, Store(ip));
    assert es2 == [Connect(fd, ip), Store(ip)];
  }

  /** Sending every `p`, starting at 0. */
  function Every(p: nat): nat -> nat {
    (i: nat) => i * p
  }

  lemma EveryAlive(k: nat, fd: nat, ip: string, p: nat, d: nat)
    requires 0 < p && k <= p + d
    ensures Alive(EvictingRun(k, fd, ip), 2, ip, Every(p), p, d)
    ensures Every(p)(0) == EvictingRun(k, fd, ip)[2].at
  {
    hide LegalTimed, Sleeps, Joined;
    var run, send := EvictingRun(k, fd, ip), Every(p);
    EvictingRunEvicts(k, fd, ip);
    forall i: nat ensures send(i + 1) == send(i) + p {
      assert (i + 1) * p == i * p + p;
    }
    forall i: nat | 0 < i ensures p <= send(i) {
      assert send(i) == send(i - 1) + p;
    }
    assert send(0) == 0;
    forall i: nat ensures Delivered(run, 2, ip, send(i), d) {
      assert run[|run| - 1].at == k;
      assert Records(run[3].event, ip) && run[3].at == 0;
    }
  }

  lemma SafeBelow(k: nat, p: nat, d: nat)
    requires p + d < k
    ensures Safe(k, p, d)
  {
    hide LegalTimed, Sleeps, StateAt, Alive;
    forall run, m: nat, ip, send: nat -> nat, n: nat
      | LegalTimed(run) && Sleeps(run, k) && Alive(run, m, ip, send, p, d) && m < n <= |run|
      ensures ip in StateAt(run, n).connected
    {
      KeptAlive(run, m, ip, send, p, d, k, n);
    }
  }

  /** Keep-alive is safe exactly while period plus delay is strictly below the sleep. */
  lemma KeepAliveExact(k: nat, p: nat, d: nat)
    requires 0 < p
    ensures Safe(k, p, d) <==> p + d < k
  {
    hide LegalTimed, Sleeps, StateAt, Alive, EvictingRun;
    if p + d < k {
      SafeBelow(k, p, d);
    } else {
      var run := EvictingRun(k, 0, "");
      EvictingRunEvicts(k, 0, "");
      EveryAlive(k, 0, "", p, d);
      assert "" !in StateAt(run, 11).connected;
    }
  }

  /** `ceil((float)KEEP_ALIVE_TIME/3.0)`: the seconds between two heartbeats of a client. */
  function HeartbeatPeriod(k: nat): (p: nat)
    ensures 3 * p - 3 < k <= 3 * p
  {
    (k + 2) / 3
  }

  /** The delay that the period leaves room for; with the interval of 10 it is up to 5. */
  lemma DelayBudget(k: nat, d: nat)
    requires 0 < k
    ensures Safe(k, HeartbeatPeriod(k), d) <==> d < k - HeartbeatPeriod(k)
    ensures k == 10 ==> HeartbeatPeriod(k) == 4 && (Safe(k, HeartbeatPeriod(k), d) <==> d <= 5)
  {
    KeepAliveExact(k, HeartbeatPeriod(k), d);
  }

  // ---- staleness ----

  /** The first clear at or after event `i`, or the length of the run when there is none. */
  function NextClear(run: seq<Timed>, i: nat): (k: nat)
    requires i <= |run|
    ensures i <= k <= |run| && (k < |run| ==> run[k].event.Clear?)
    ensures forall j :: i <= j < k ==> !run[j].event.Clear?
    decreases |run| - i
  {
    if i == |run| || run[i].event.Clear? then i else NextClear(run, i + 1)
  }

  lemma {:induction false} NextClearIs(run: seq<Timed>, i: nat, k: nat)
    requires i <= k < |run| && run[k].event.Clear?
    requires forall j :: i <= j < k ==> !run[j].event.Clear?
    ensures NextClear(run, i) == k
    decreases k - i
  {
    if i < k {
      NextClearIs(run, i + 1, k);
    }
  }

  /** Every stretch of the run longer than `g` has a clear in it: a pass and the sleep take at most `g`. */
  ghost predicate ClearsWithin(run: seq<Timed>, g: nat) {
    forall i: nat, j: nat :: i < j < |run| && run[i].at + g < run[j].at ==> NextClear(run, i + 1) < j
  }

  /** Between the clears `a` and `b` the address is in the map all the time. */
  ghost predicate Stays(run: seq<Timed>, a: nat, b: nat, ip: string)
    requires b <= |run|
  {
    forall n :: a < n <= b ==> ip in StateAt(run, n).connected
  }

  ghost predicate LookedAt(run: seq<Timed>, a: nat, b: nat, ip: string)
    requires b <= |run|
  {
    exists l :: a < l < b && run[l].event == Look(ip)
  }

  /** A pass of `std::map` iterators visits every key that is there from its beginning to its end. */
  ghost predicate PassComplete(run: seq<Timed>, a: nat, ip: string)
    requires a < |run|
  {
    var b := NextClear(run, a + 1);
    run[a].event.Clear? && b < |run| && Stays(run, a, b, ip) ==> LookedAt(run, a, b, ip)
  }

  ghost predicate PassesComplete(run: seq<Timed>) {
    forall a: nat, ip :: a < |run| ==> PassComplete(run, a, ip)
  }

  /** Nothing is heard from `ip` from event `m` until `n`: no heartbeat, and no accept. */
  ghost predicate Quiet(run: seq<Timed>, m: nat, n: nat, ip: string)
    requires n <= |run|
  {
    forall k :: m <= k < n ==> !Records(run[k].event, ip) && run[k].event != Store(ip)
  }

  lemma {:induction false} SilentStays(run: seq<Timed>, a: nat, n: nat, ip: string)
    requires LegalTimed(run) && a < n <= |run| && run[a].event.Clear? && Quiet(run, a + 1, n, ip)
    ensures ip !in StateAt(run, n).beats
  {
    hide StateAt, LegalTimed, Inv, Step, Enabled;
    NextState(run, n - 1);
    BeatsStep(StateAt(run, n - 1), run[n - 1].event, ip);
    if a < n - 1 {
      SilentStays(run, a, n - 1, ip);
    }
  }

  /** Once out of the map, a quiet address stays out. */
  lemma {:induction false} GoneStays(run: seq<Timed>, b: nat, n: nat, ip: string)
    requires LegalTimed(run) && b <= n <= |run| && Quiet(run, b, n, ip)
    requires ip !in StateAt(run, b).connected
    ensures ip !in StateAt(run, n).connected
  {
    hide StateAt, LegalTimed, Inv;
    if b < n {
      GoneStays(run, b, n - 1, ip);
      NextState(run, n - 1);
    }
  }

  /** A visit that is over has erased its address. */
  lemma {:induction false} VisitEnds(run: seq<Timed>, x: nat, b: nat, ip: string)
    requires LegalTimed(run) && x <= b <= |run| && Quiet(run, x, b, ip)
    requires StateAt(run, x).sweeping.Visits(ip)
    ensures StateAt(run, b).sweeping.Visits(ip) || ip !in StateAt(run, b).connected
  {
    hide StateAt, LegalTimed, Inv;
    if x < b {
      VisitEnds(run, x, b - 1, ip);
      NextState(run, b - 1);
    }
  }

  /** Whoever is quiet after event `m` is gone once more than two rounds have passed. */
  lemma StaleEvicted(run: seq<Timed>, m: nat, n: nat, ip: string, g: nat)
    requires LegalTimed(run) && ClearsWithin(run, g) && PassesComplete(run)
    requires m < n < |run| && run[m].at + 2 * g < run[n].at
    requires Quiet(run, m + 1, n, ip)
    ensures ip !in StateAt(run, n).connected
  {
    assert Sorted(run);
    hide StateAt, LegalTimed, PassesComplete;
    var a := FirstClearAfter(run, m, n, g);
    var b := FirstClearAfter(run, a, n, g);
    PassErases(run, a, ip);
    GoneStays(run, b, n, ip);
  }

  /** A silent look in a pass means that the address is erased before the pass is over. */
  lemma LookErases(run: seq<Timed>, a: nat, l: nat, b: nat, ip: string)
    requires LegalTimed(run) && a < l < b < |run| && Quiet(run, a, b, ip)
    requires run[a].event.Clear? && run[l].event == Look(ip) && run[b].event.Clear?
    ensures ip !in StateAt(run, b).connected
  {
    hide StateAt, LegalTimed, Inv;
    SilentStays(run, a, l, ip);
    NextState(run, l);
    VisitEnds(run, l + 1, b, ip);
    NextState(run, b);
  }

  /** A pass in which nothing is heard from an address leaves it out of the map. */
  lemma PassErases(run: seq<Timed>, a: nat, ip: string)
    requires LegalTimed(run) && PassesComplete(run)
    requires a < |run| && run[a].event.Clear? && NextClear(run, a + 1) < |run|
    requires Quiet(run, a, NextClear(run, a + 1), ip)
    ensures ip !in StateAt(run, NextClear(run, a + 1)).connected
  {
    hide StateAt, LegalTimed, Quiet, NextClear;
    var b := NextClear(run, a + 1);
    assert PassComplete(run, a, ip);
    if Stays(run, a, b, ip) {
      var l :| a < l < b && run[l].event == Look(ip);
      LookErases(run, a, l, b, ip);
    } else {
      var x :| a < x <= b && ip !in StateAt(run, x).connected;
      assert Quiet(run, x, b, ip) by { QuietLater(run, a, x, b, ip); }
      GoneStays(run, x, b, ip);
    }
  }

  lemma QuietLater(run: seq<Timed>, a: nat, x: nat, b: nat, ip: string)
    requires b <= |run| && a <= x && Quiet(run, a, b, ip)
    ensures Quiet(run, x, b, ip)
  {
  }

  /** The next clear comes within a round. */
  lemma FirstClearAfter(run: seq<Timed>, m: nat, n: nat, g: nat) returns (a: nat)
    requires Sorted(run) && ClearsWithin(run, g)
    requires m < n < |run| && run[m].at + g < run[n].at
    ensures m < a < n && a == NextClear(run, m + 1) && run[a].event.Clear? && run[a].at <= run[m].at + g
  {
    var j := FirstLater(run, m, n, run[m].at + g);
    a := NextClear(run, m + 1);
  }

  lemma {:induction false} FirstLater(run: seq<Timed>, m: nat, n: nat, t: nat) returns (j: nat)
    requires m < n < |run| && run[m].at <= t < run[n].at && Sorted(run)
    ensures m < j <= n && t < run[j].at
    ensures forall i :: m <= i < j ==> run[i].at <= t
  {
    if run[n - 1].at <= t {
      j := n;
    } else {
      j := FirstLater(run, m, n - 1, t);
    }
  }

  function TightRun(k: nat, fd: nat, ip: string): seq<Timed> {
    [Timed(0, Clear), Timed(0, Connect(fd, ip)), Timed(0, Store(ip)), Timed(0, Mark(ip)),
     Timed(k, Look(ip)), Timed(k, Clear),
     Timed(2 * k, Look(ip)), Timed(2 * k, Disconnect(ip)), Timed(2 * k, Close(ip)), Timed(2 * k, Delete(ip)),
     Timed(2 * k, Erase(ip)), Timed(2 * k, Clear)]
  }

  lemma TightEvents(fd: nat, ip: string)
    ensures var a, b, c, d := [Clear], AcceptEvents(fd, ip), [Look(ip), Clear], KillEvents(ip) + [Erase(ip), Clear];
            && Legal(INIT, a + b + c + d)
            && After(a).connected == map[]
            && After(a + b + c).connected == map[ip := Client(fd, ip, true)]
            && After(a + b + c + d).connected == map[]
  {
    hide Legal, Steps, AcceptEvents, KillEvents;
    var a, b, c := [Clear], AcceptEvents(fd, ip), [Look(ip), Clear];
    ClearEffect(INIT);
    AcceptEffect(After(a), fd, ip);
    Pieces(INIT, a, b);
    var s := After(a + b);
    var es, t := Begin(s);
    es, t := Then(s, es, t, Look(ip));
    es, t := Then(s, es, t, Clear);
    assert es == c;
    Pieces(INIT, a + b, c);
    KillEffect(t, ip);
    var u := Steps(t, KillEvents(ip));
    var fs, v := Begin(u);
    fs, v := Then(u, fs, v, Erase(ip));
    fs, v := Then(u, fs, v, Clear);
    assert fs == [Erase(ip), Clear];
    Pieces(t, KillEvents(ip), fs);
    Pieces(INIT, a + b + c, KillEvents(ip) + fs);
    assert u.connected - {ip} == map[];
  }

  lemma TightRunLegal(k: nat, fd: nat, ip: string)
    ensures var run := TightRun(k, fd, ip);
            && LegalTimed(run) && StateAt(run, 1).connected == map[]
            && StateAt(run, 6).connected == map[ip := Client(fd, ip, true)] && StateAt(run, 12).connected == map[]
  {
    hide Steps, Legal;
    var es := Events(TightRun(k, fd, ip));
    var a, b, c, d := [Clear], AcceptEvents(fd, ip), [Look(ip), Clear], KillEvents(ip) + [Erase(ip), Clear];
    TightEvents(fd, ip);
    assert es == a + b + c + d;
    assert es[..1] == a && es[..6] == a + b + c && es[..12] == es;
  }

  lemma TightPasses(k: nat, fd: nat, ip: string)
    ensures PassesComplete(TightRun(k, fd, ip))
  {
    hide LegalTimed, StateAt, NextClear;
    var run := TightRun(k, fd, ip);
    TightRunLegal(k, fd, ip);
    NextClearIs(run, 1, 5);
    NextClearIs(run, 6, 11);
    forall a: nat, x | a < |run| ensures PassComplete(run, a, x) {
      if run[a].event.Clear? && NextClear(run, a + 1) < |run| && Stays(run, a, NextClear(run, a + 1), x) {
        assert x in StateAt(run, a + 1).connected;
        assert a == 5 && x == ip && run[6].event == Look(ip);
      }
    }
  }

  lemma TightClears(k: nat, fd: nat, ip: string)
    ensures ClearsWithin(TightRun(k, fd, ip), k)
  {
    hide NextClear;
    var run := TightRun(k, fd, ip);
    assert run[5].event.Clear?;
  }

  /** The bound is met: a client that is accepted right after a clear is still there when the second pass is due. */
  lemma StalenessTight(k: nat, fd: nat, ip: string)
    ensures var run := TightRun(k, fd, ip);
            && LegalTimed(run) && Sleeps(run, k) && ClearsWithin(run, k) && PassesComplete(run)
            && run[3] == Timed(0, Mark(ip)) && run[6].at == 2 * k && Quiet(run, 4, 12, ip)
            && ip in StateAt(run, 6).connected && ip !in StateAt(run, 12).connected
  {
    hide LegalTimed, StateAt, ClearsWithin, PassesComplete;
    TightRunLegal(k, fd, ip);
    TightClears(k, fd, ip);
    TightPasses(k, fd, ip);
  }
}
