/** Runs in which the threads get in each other's way, event by event. */
module Races {
  import opened Connections
  import opened Runs
  import opened Sweeps
  import opened Visits

  /**
   The window between the two writes of the accept loop: a visit that comes in between kills the
   client that was just accepted, although nothing ever went silent.
   */
  lemma AcceptRace(fd: nat, ip: string)
    ensures var es := [Connect(fd, ip), Store(ip)] + KillEvents(ip) + [Erase(ip)];
            && Legal(INIT, es)
            && After(es).killed == [Client(fd, ip, false)] && After(es).connected == map[] && After(es).clients == []
  {
    hide Legal, Steps, Step, Enabled;
    var a, b, c := [Connect(fd, ip), Store(ip)], KillEvents(ip), [Erase(ip)];
    StoreEffect(fd, ip);
    var s := After(a);
    KillEffect(s, ip);
    Pieces(INIT, a, b);
    var t := After(a + b);
    EraseEffect(t, ip);
    Pieces(INIT, a + b, c);
    assert RemoveFirst(s.clients, Client(fd, ip, false)) == [];
    assert t.connected - {ip} == map[];
  }

  lemma StoreEffect(fd: nat, ip: string)
    ensures var a, c := [Connect(fd, ip), Store(ip)], Client(fd, ip, true);
            Legal(INIT, a)
            && After(a) == INIT.(connected := map[ip := c], clients := [c], accepting := Stored(ip),
                                 used := map[fd := ip], stored := {fd})
  {
    hide Legal, Steps;
    var es, s := Begin(INIT);
    es, s := Then(INIT, es, s, Connect(fd, ip));
    es, s := Then(INIT, es, s, Store(ip));
    assert es == [Connect(fd, ip), Store(ip)];
  }

  /** A client goes silent, and reconnects while the sweep is killing its old connection. */
  function LostClientRun(fd0: nat, fd1: nat, ip: string): seq<Event> {
    AcceptEvents(fd0, ip) + [Clear] + KillEvents(ip) + AcceptEvents(fd1, ip) + [Erase(ip)]
  }

  /** The erase then drops the new connection, which is listed, was never closed and has a heartbeat. */
  lemma LostClientRace(fd0: nat, fd1: nat, ip: string)
    requires fd0 != fd1
    ensures var es := LostClientRun(fd0, fd1, ip);
            && Legal(INIT, es)
            && After(es).connected == map[] && After(es).clients == [Client(fd1, ip, true)]
            && After(es).beats == {ip} && After(es).closes == [fd0]
  {
    hide Legal, Steps, Step, Enabled, AcceptEvents, KillEvents;
    var a, b, c, d, e := AcceptEvents(fd0, ip), [Clear], KillEvents(ip), AcceptEvents(fd1, ip), [Erase(ip)];
    AcceptEffect(INIT, fd0, ip);
    var s1 := After(a);
    ClearEffect(s1);
    Pieces(INIT, a, b);
    var s2 := After(a + b);
    KillEffect(s2, ip);
    Pieces(INIT, a + b, c);
    var s3 := After(a + b + c);
    assert RemoveFirst(s2.clients, Client(fd0, ip, false)) == [];
    AcceptEffect(s3, fd1, ip);
    Pieces(INIT, a + b + c, d);
    var s4 := After(a + b + c + d);
    EraseEffect(s4, ip);
    Pieces(INIT, a + b + c + d, e);
    assert s4.connected - {ip} == map[];
  }

  /** Inside a visit, after the close, the map holds a client that is disconnected and already killed. */
  lemma KilledInMap(s: State, ip: string)
    requires s.sweeping.Resting? && ip in s.connected && ip !in s.beats
    ensures var t := Steps(s, KillEvents(ip));
            Legal(s, KillEvents(ip)) && ip in t.connected && !t.connected[ip].connected && t.connected[ip] in t.killed
  {
    KillEffect(s, ip);
  }

  /** A client that hangs up stays in the map, so the sweep closes its descriptor again. */
  function DoubleCloseRun(fd: nat, ip: string): seq<Event> {
    AcceptEvents(fd, ip) + [HangUp(Client(fd, ip, true))] + [Clear] + KillEvents(ip)
  }

  lemma DoubleClose(fd: nat, ip: string)
    ensures Legal(INIT, DoubleCloseRun(fd, ip)) && After(DoubleCloseRun(fd, ip)).closes == [fd, fd]
    ensures var es := AcceptEvents(fd, ip) + [HangUp(Client(fd, ip, true))];
            After(es).connected == map[ip := Client(fd, ip, true)] && After(es).closes == [fd]
  {
    hide Legal, Steps, AcceptEvents, KillEvents;
    var a, b, c, d := AcceptEvents(fd, ip), [HangUp(Client(fd, ip, true))], [Clear], KillEvents(ip);
    AcceptEffect(INIT, fd, ip);
    OneStep(After(a), b[0]);
    Pieces(INIT, a, b);
    ClearEffect(After(a + b));
    Pieces(INIT, a + b, c);
    KillEffect(After(a + b + c), ip);
    Pieces(INIT, a + b + c, d);
  }

  /** A client reconnects between the close and the removal of its old connection. */
  function SplitVisitRun(fd0: nat, fd1: nat, ip: string): seq<Event> {
    AcceptEvents(fd0, ip) + [Clear]
    + SplitVisitEvents(fd1, ip)
  }

  function SplitVisitEvents(fd: nat, ip: string): seq<Event> {
    [Look(ip), Disconnect(ip), Close(ip), Connect(fd, ip), Store(ip), Delete(ip)]
  }

  lemma SplitVisitEffect(s: State, fd: nat, ip: string)
    requires s.sweeping.Resting? && s.accepting.Idle? && ip in s.connected && ip !in s.beats && fd !in s.used
    ensures var es, t := SplitVisitEvents(fd, ip), Steps(s, SplitVisitEvents(fd, ip));
            && Legal(s, es) && t.closes == s.closes + [s.connected[ip].fd]
            && t.clients == RemoveFirst(s.clients + [Client(fd, ip, true)], Client(fd, ip, true))
            && t.connected == s.connected[ip := Client(fd, ip, true)]
  {
    hide Legal, Steps, RemoveFirst;
    var es, t := Begin(s);
    es, t := Then(s, es, t, Look(ip));
    es, t := Then(s, es, t, Disconnect(ip));
    es, t := Then(s, es, t, Close(ip));
    es, t := Then(s, es, t, Connect(fd, ip));
    es, t := Then(s, es, t, Store(ip));
    es, t := Then(s, es, t, Delete(ip));
    assert es == SplitVisitEvents(fd, ip);
  }

  /** The closed connection stays in the list, and the open one leaves it. */
  lemma SplitVisit(fd0: nat, fd1: nat, ip: string)
    requires fd0 != fd1
    ensures var es := SplitVisitRun(fd0, fd1, ip);
            && Legal(INIT, es) && After(es).closes == [fd0]
            && After(es).clients == [Client(fd0, ip, true)] && After(es).connected == map[ip := Client(fd1, ip, true)]
  {
    hide Legal, Steps, AcceptEvents;
    var a, b := AcceptEvents(fd0, ip), [Clear];
    AcceptEffect(INIT, fd0, ip);
    ClearEffect(After(a));
    Pieces(INIT, a, b);
    SplitVisitEffect(After(a + b), fd1, ip);
    Pieces(INIT, a + b, SplitVisitEvents(fd1, ip));
    assert RemoveFirst([Client(fd1, ip, true)], Client(fd1, ip, true)) == [];
  }

  /** A client that connects twice from one address: the first connection is listed and not in the map. */
  lemma Reconnected(fd0: nat, fd1: nat, ip: string)
    requires fd0 != fd1
    ensures var es := AcceptEvents(fd0, ip) + AcceptEvents(fd1, ip);
            && Legal(INIT, es) && After(es).connected == map[ip := Client(fd1, ip, true)]
            && After(es).clients == [Client(fd0, ip, true), Client(fd1, ip, true)]
            && Orphan(After(es), Client(fd0, ip, true))
  {
    hide Legal, Steps, AcceptEvents;
    AcceptEffect(INIT, fd0, ip);
    AcceptEffect(After(AcceptEvents(fd0, ip)), fd1, ip);
    Pieces(INIT, AcceptEvents(fd0, ip), AcceptEvents(fd1, ip));
  }
}
