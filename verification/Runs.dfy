/**
 The server's shared state as a transition system. The accept loop, the receive callbacks and
 the sweep run in different threads, so each of their statements that reads or writes
 `connected_clients`, `client_heartbeats` or `m_clients` is a step of its own. Accepting a
 client is three steps (src/tcp/src/tcp_server.cpp:192, src/server.cpp:86-87). Visiting a silent
 client is five (src/server.cpp:36, src/tcp/src/tcp_server.cpp:24, 25 and 27, src/server.cpp:39);
 the last four use whatever the map entry holds by then. The end of a receive task, which touches
 its own element of the list only, is one step.
 */
module Runs {
  import opened Connections

  /** Where the accept loop is. */
  datatype Accepting = Idle | Accepted(client: Client) | Stored(ip: string)

  /** Where the sweep is: between visits, or inside the visit of an address it found silent. */
  datatype Sweeping =
    | Resting
    | Silent(ip: string)    // no heartbeat found
    | Marked(ip: string)    // the entry is set disconnected
    | Closed(ip: string)    // the entry's connection is closed
    | Deleted(ip: string)   // the entry's connection is out of the list
  {
    predicate Visits(a: string) {
      match this
      case Resting => false
      case _ => this.ip == a
    }
  }

  /**
   The last six fields record history: every connection ever made, those that were stored in
   the map, those whose receive task ended, those a visit took out of the list, those a visit
   closed, and every descriptor passed to `close`, in order.
   */
  datatype State = State(
    connected: map<string, Client>, beats: set<string>, clients: seq<Client>,
    accepting: Accepting, sweeping: Sweeping,
    used: map<nat, string>, stored: set<nat>, hungUp: set<nat>, deleted: set<nat>, killed: seq<Client>,
    closes: seq<nat>)

  datatype Event =
    | Connect(fd: nat, ip: string)  // acceptClient
    | Store(ip: string)             // connected_clients[ip] = client
    | Mark(ip: string)              // client_heartbeats[ip] = true, by the accept loop
    | Heartbeat(ip: string)         // client_heartbeats[ip] = true, by a receive callback
    | HangUp(client: Client)        // receiveTask ends: it closes, and m_clients forgets the client
    | Look(ip: string)              // client_heartbeats.find(ip)
    | Disconnect(ip: string)        // client.setDisconnected()
    | Close(ip: string)             // close(client.getFileDescriptor())
    | Delete(ip: string)            // deleteClient(client)
    | Erase(ip: string)             // connected_clients.erase(ip)
    | Clear                         // client_heartbeats.clear()

  const INIT: State := State(map[], {}, [], Idle, Resting, map[], {}, {}, {}, [], [])

  /** The connection is the one that was made under its descriptor. */
  predicate Known(s: State, c: Client) {
    c.fd in s.used && s.used[c.fd] == c.ip
  }

  /** A receive task ends once, whether or not its client is still listed. */
  predicate Enabled(s: State, e: Event) {
    match e
    case Connect(fd, _) => s.accepting.Idle? && fd !in s.used
    case Store(ip) => s.accepting.Accepted? && s.accepting.client.ip == ip
    case Mark(ip) => s.accepting == Stored(ip)
    case Heartbeat(_) => true
    case HangUp(c) => Known(s, c) && c.fd !in s.hungUp
    case Look(ip) => s.sweeping.Resting? && ip in s.connected
    case Disconnect(ip) => s.sweeping == Silent(ip) && ip in s.connected
    case Close(ip) => s.sweeping == Marked(ip) && ip in s.connected
    case Delete(ip) => s.sweeping == Closed(ip) && ip in s.connected
    case Erase(ip) => s.sweeping == Deleted(ip)
    case Clear => s.sweeping.Resting?
  }

  /** A step that is not enabled does not happen. */
  function Step(s: State, e: Event): State {
    if !Enabled(s, e) then s else
    match e
    case Connect(fd, ip) =>
      var c := Client(fd, ip, true);
      s.(clients := s.clients + [c], accepting := Accepted(c), used := s.used[fd := ip])
    case Store(ip) =>
      var c := s.accepting.client;
      s.(connected := s.connected[ip := c], accepting := Stored(ip), stored := s.stored + {c.fd})
    case Mark(ip) => s.(beats := s.beats + {ip}, accepting := Idle)
    case Heartbeat(ip) => s.(beats := s.beats + {ip})
    case HangUp(c) =>
      s.(clients := RemoveFirst(s.clients, c), hungUp := s.hungUp + {c.fd}, closes := s.closes + [c.fd])
    case Look(ip) => if ip in s.beats then s else s.(sweeping := Silent(ip))
    case Disconnect(ip) =>
      s.(connected := s.connected[ip := s.connected[ip].(connected := false)], sweeping := Marked(ip))
    case Close(ip) =>
      var c := s.connected[ip];
      s.(killed := s.killed + [c], closes := s.closes + [c.fd], sweeping := Closed(ip))
    case Delete(ip) =>
      var c := s.connected[ip];
      s.(clients := RemoveFirst(s.clients, c), deleted := s.deleted + {c.fd}, sweeping := Deleted(ip))
    case Erase(ip) => s.(connected := s.connected - {ip}, sweeping := Resting)
    case Clear => s.(beats := {})
  }

  function Steps(s: State, es: seq<Event>): State {
    if es == [] then s else Step(Steps(s, es[..|es| - 1]), es[|es| - 1])
  }

  ghost predicate EnabledAt(s: State, es: seq<Event>, i: nat)
    requires i < |es|
  {
    Enabled(Steps(s, es[..i]), es[i])
  }

  ghost predicate Legal(s: State, es: seq<Event>) {
    forall i: nat :: i < |es| ==> EnabledAt(s, es, i)
  }

  /** The state after a run from the start of the server. */
  function After(es: seq<Event>): State {
    Steps(INIT, es)
  }

  lemma {:induction false} StepsAppend(s: State, a: seq<Event>, b: seq<Event>)
    ensures Steps(s, a + b) == Steps(Steps(s, a), b)
  {
    if b == [] {
      assert a + b == a;
    } else {
      var m := |b| - 1;
      StepsAppend(s, a, b[..m]);
      assert (a + b)[..|a + b| - 1] == a + b[..m];
    }
  }

  lemma LegalPrefix(s: State, es: seq<Event>, n: nat)
    requires Legal(s, es) && n <= |es|
    ensures Legal(s, es[..n])
  {
    forall i: nat | i < n ensures EnabledAt(s, es[..n], i) {
      assert EnabledAt(s, es, i);
      assert es[..n][..i] == es[..i];
    }
  }

  lemma LegalLast(s: State, es: seq<Event>)
    requires Legal(s, es) && es != []
    ensures var m := |es| - 1; Legal(s, es[..m]) && Enabled(Steps(s, es[..m]), es[m])
  {
    LegalPrefix(s, es, |es| - 1);
    assert EnabledAt(s, es, |es| - 1);
  }

  lemma LegalAppend(s: State, a: seq<Event>, b: seq<Event>)
    requires Legal(s, a) && Legal(Steps(s, a), b)
    ensures Legal(s, a + b)
  {
    var all := a + b;
    forall i: nat | i < |all| ensures EnabledAt(s, all, i) {
      if i < |a| {
        assert EnabledAt(s, a, i);
        assert all[..i] == a[..i];
      } else {
        assert EnabledAt(Steps(s, a), b, i - |a|);
        assert all[..i] == a + b[..i - |a|];
        StepsAppend(s, a, b[..i - |a|]);
      }
    }
  }

  lemma LegalSnoc(s: State, es: seq<Event>, e: Event)
    requires Legal(s, es) && Enabled(Steps(s, es), e)
    ensures Legal(s, es + [e])
  {
    var all := es + [e];
    forall i: nat | i < |all| ensures EnabledAt(s, all, i) {
      assert all[..i] == es[..i];
      assert i < |es| ==> EnabledAt(s, es, i);
    }
  }

  // ---- what every step keeps ----

  function Fds(cs: seq<Client>): set<nat> {
    set c | c in cs :: c.fd
  }

  predicate DistinctFds(cs: seq<Client>) {
    forall i, j :: 0 <= i < j < |cs| ==> cs[i].fd != cs[j].fd
  }

  /**
   Each key is its client's address. The entry is marked connected and no visit has closed it,
   unless it is the one that the sweep is in the middle of killing. (Its receive task may have
   closed it at any time: `Visits.EntryClosedExact`.)
   */
  ghost predicate KeysMatch(s: State) {
    forall ip :: ip in s.connected ==>
      var c := s.connected[ip];
      && c.ip == ip && Known(s, c) && c.fd in s.stored
      && (!s.sweeping.Visits(ip) || s.sweeping.Silent? ==> c.connected)
      && (!s.sweeping.Visits(ip) || s.sweeping.Silent? || s.sweeping.Marked? ==> c.fd !in Fds(s.killed))
  }

  /** The address that is being visited is in the map: only the sweep erases. */
  ghost predicate VisitPresent(s: State) {
    !s.sweeping.Resting? ==> s.sweeping.ip in s.connected
  }

  /** The list holds each connection once. */
  ghost predicate ListedOnce(s: State) {
    DistinctFds(s.clients) && forall c :: c in s.clients ==> c.connected && Known(s, c)
  }

  /** A visit closes a connection at most once, and only after it was stored. */
  ghost predicate KilledOnce(s: State) {
    DistinctFds(s.killed) && forall c :: c in s.killed ==> Known(s, c) && c.fd in s.stored
  }

  /** A connection that is still being accepted was never in the map. */
  ghost predicate AcceptedFresh(s: State) {
    && s.stored <= s.used.Keys
    && (s.accepting.Accepted? ==>
          var c := s.accepting.client; c.connected && Known(s, c) && c.fd !in s.stored)
  }

  /** Conservation: every connection ever made is in the list, or hung up, or taken out by a visit. */
  ghost predicate Accounted(s: State) {
    && s.used.Keys == Fds(s.clients) + s.hungUp + s.deleted
    && Fds(s.clients) !! s.hungUp + s.deleted
  }

  /** A descriptor is closed once by its receive task's end and once by a visit, if these happened. */
  ghost predicate ClosesCounted(s: State) {
    forall fd: nat ::
      multiset(s.closes)[fd] == (if fd in s.hungUp then 1 else 0) + (if fd in Fds(s.killed) then 1 else 0)
  }

  ghost predicate Inv(s: State) {
    && KeysMatch(s) && VisitPresent(s) && ListedOnce(s) && KilledOnce(s) && AcceptedFresh(s)
    && Accounted(s) && ClosesCounted(s)
  }

  lemma InvDistinct(s: State)
    requires Inv(s)
    ensures Distinct(s.clients)
  {
  }

  lemma {:induction false} RemoveFirstKeeps(cs: seq<Client>, c: Client)
    requires DistinctFds(cs)
    ensures DistinctFds(RemoveFirst(cs, c))
    ensures forall d :: d in RemoveFirst(cs, c) <==> d in cs && d.Id() != c.Id()
  {
    if cs != [] {
      RemoveFirstKeeps(cs[1..], c);
      assert forall d :: d in cs[1..] ==> d.fd != cs[0].fd;
    }
  }

  /** Removing a known connection removes its descriptor and no other. */
  lemma RemoveFirstFds(s: State, c: Client)
    requires ListedOnce(s) && Known(s, c)
    ensures Fds(RemoveFirst(s.clients, c)) == Fds(s.clients) - {c.fd}
  {
    RemoveFirstKeeps(s.clients, c);
    var r := RemoveFirst(s.clients, c);
    forall fd | fd in Fds(s.clients) - {c.fd} ensures fd in Fds(r) {
      var d :| d in s.clients && d.fd == fd;
      assert d in r;
    }
  }

  lemma FdsAppend(cs: seq<Client>, c: Client)
    ensures Fds(cs + [c]) == Fds(cs) + {c.fd}
  {
    forall fd | fd in Fds(cs) + {c.fd} ensures fd in Fds(cs + [c]) {
      if fd == c.fd {
        assert c in cs + [c];
      } else {
        var d :| d in cs && d.fd == fd;
        assert d in cs + [c];
      }
    }
  }

  lemma StepKeepsInv(s: State, e: Event)
    requires Inv(s)
    ensures Inv(Step(s, e))
  {
    if Enabled(s, e) {
      match e
      case Connect(fd, ip) => ConnectKeepsInv(s, fd, ip);
      case Store(ip) => StoreKeepsInv(s, ip);
      case Mark(ip) =>
      case Heartbeat(ip) =>
      case HangUp(c) => RemovalKeepsInv(s, e, c);
      case Look(ip) =>
      case Disconnect(ip) => DisconnectKeepsInv(s, ip);
      case Close(ip) => CloseKeepsInv(s, ip);
      case Delete(ip) => RemovalKeepsInv(s, e, s.connected[ip]);
      case Erase(ip) => EraseKeepsInv(s, ip);
      case Clear =>
    }
  }

  lemma ConnectKeepsInv(s: State, fd: nat, ip: string)
    requires Inv(s) && Enabled(s, Connect(fd, ip))
    ensures Inv(Step(s, Connect(fd, ip)))
  {
    FdsAppend(s.clients, Client(fd, ip, true));
    assert forall c :: c in s.clients ==> c.fd in Fds(s.clients);
  }

  lemma StoreKeepsInv(s: State, ip: string)
    requires Inv(s) && Enabled(s, Store(ip))
    ensures Inv(Step(s, Store(ip)))
  {
    assert s.accepting.client.fd !in Fds(s.killed);
  }

  lemma RemovalKeepsInv(s: State, e: Event, c: Client)
    requires Inv(s) && Enabled(s, e)
    requires e == HangUp(c) || (e.Delete? && s.connected[e.ip] == c)
    ensures Inv(Step(s, e))
  {
    RemoveFirstKeeps(s.clients, c);
    RemoveFirstFds(s, c);
    if e.HangUp? {
      OneMoreClose(s, Step(s, e), c.fd);
    }
  }

  lemma OneMoreClose(s: State, t: State, fd: nat)
    requires ClosesCounted(s) && t.closes == s.closes + [fd]
    requires || (t.hungUp == s.hungUp + {fd} && fd !in s.hungUp && Fds(t.killed) == Fds(s.killed))
             || (t.hungUp == s.hungUp && Fds(t.killed) == Fds(s.killed) + {fd} && fd !in Fds(s.killed))
    ensures ClosesCounted(t)
  {
    assert multiset(t.closes) == multiset(s.closes) + multiset{fd};
  }

  lemma DisconnectKeepsInv(s: State, ip: string)
    requires Inv(s) && Enabled(s, Disconnect(ip))
    ensures Inv(Step(s, Disconnect(ip)))
  {
  }

  lemma CloseKeepsInv(s: State, ip: string)
    requires Inv(s) && Enabled(s, Close(ip))
    ensures Inv(Step(s, Close(ip)))
  {
    hide ClosesCounted, DistinctFds, Fds;
    var c := s.connected[ip];
    FdsAppend(s.killed, c);
    OneMoreFd(s.killed, c);
    OneMoreClose(s, Step(s, Close(ip)), c.fd);
  }

  lemma OneMoreFd(cs: seq<Client>, c: Client)
    requires DistinctFds(cs) && c.fd !in Fds(cs)
    ensures DistinctFds(cs + [c])
  {
    assert forall d :: d in cs ==> d.fd in Fds(cs);
  }

  lemma EraseKeepsInv(s: State, ip: string)
    requires Inv(s) && Enabled(s, Erase(ip))
    ensures Inv(Step(s, Erase(ip)))
  {
  }

  lemma {:induction false} StepsKeepInv(s: State, es: seq<Event>)
    requires Inv(s)
    ensures Inv(Steps(s, es))
  {
    hide Inv, Step;
    if es != [] {
      StepsKeepInv(s, es[..|es| - 1]);
      StepKeepsInv(Steps(s, es[..|es| - 1]), es[|es| - 1]);
    }
  }

  /** Every reachable state of every interleaving. */
  lemma RunKeepsInv(es: seq<Event>)
    ensures Inv(After(es))
  {
    hide Inv;
    InitInv();
    StepsKeepInv(INIT, es);
  }

  lemma InitInv()
    ensures Inv(INIT)
  {
  }

  // ---- heartbeats ----

  predicate Records(e: Event, ip: string) {
    e == Mark(ip) || e == Heartbeat(ip)
  }

  /** A heartbeat entry for `ip` was written and not cleared since. */
  ghost predicate RecordedSinceClear(es: seq<Event>, ip: string) {
    exists j :: 0 <= j < |es| && Records(es[j], ip) && forall k :: j < k < |es| ==> es[k] != Clear
  }

  lemma RecordedSnoc(es: seq<Event>, e: Event, ip: string)
    ensures RecordedSinceClear(es + [e], ip) <==>
            Records(e, ip) || (e != Clear && RecordedSinceClear(es, ip))
  {
    var all := es + [e];
    if RecordedSinceClear(all, ip) && !Records(e, ip) {
      var j :| 0 <= j < |all| && Records(all[j], ip) && forall k :: j < k < |all| ==> all[k] != Clear;
      assert all[|es|] == e && Records(es[j], ip);
      assert forall k :: j < k < |es| ==> es[k] == all[k];
    }
    if Records(e, ip) {
      assert Records(all[|es|], ip);
    } else if e != Clear && RecordedSinceClear(es, ip) {
      var j :| 0 <= j < |es| && Records(es[j], ip) && forall k :: j < k < |es| ==> es[k] != Clear;
      assert Records(all[j], ip);
    }
  }

  /** The heartbeat map holds exactly what was recorded since the last clear. */
  lemma {:induction false} BeatsExact(es: seq<Event>, ip: string)
    requires Legal(INIT, es)
    ensures ip in After(es).beats <==> RecordedSinceClear(es, ip)
  {
    hide RecordedSinceClear, Step, Enabled, Records;
    if es == [] {
      NothingRecorded(ip);
    } else {
      var m := |es| - 1;
      LegalLast(INIT, es);
      BeatsExact(es[..m], ip);
      assert es == es[..m] + [es[m]];
      RecordedSnoc(es[..m], es[m], ip);
      BeatsStep(After(es[..m]), es[m], ip);
    }
  }

  lemma BeatsStep(s: State, e: Event, ip: string)
    requires Enabled(s, e)
    ensures ip in Step(s, e).beats <==> Records(e, ip) || (e != Clear && ip in s.beats)
  {
  }

  lemma NothingRecorded(ip: string)
    ensures !RecordedSinceClear([], ip)
  {
  }

  // ---- building runs ----

  /** One more event of a run that is written down event by event. */
  lemma Then(s: State, es: seq<Event>, t: State, e: Event) returns (es': seq<Event>, t': State)
    requires Legal(s, es) && Steps(s, es) == t && Enabled(t, e)
    ensures es' == es + [e] && t' == Step(t, e) && Legal(s, es') && Steps(s, es') == t'
  {
    es', t' := es + [e], Step(t, e);
    LegalSnoc(s, es, e);
    assert es'[..|es|] == es;
  }

  lemma Begin(s: State) returns (es: seq<Event>, t: State)
    ensures es == [] && t == s && Legal(s, es) && Steps(s, es) == t
  {
    es, t := [], s;
  }

  /** A piece of a run after another. */
  lemma Pieces(s: State, a: seq<Event>, b: seq<Event>)
    requires Legal(s, a) && Legal(Steps(s, a), b)
    ensures Legal(s, a + b) && Steps(s, a + b) == Steps(Steps(s, a), b)
  {
    LegalAppend(s, a, b);
    StepsAppend(s, a, b);
  }

  lemma OneStep(s: State, e: Event)
    requires Enabled(s, e)
    ensures Legal(s, [e]) && Steps(s, [e]) == Step(s, e)
  {
    assert [e][..0] == [];
  }
}
