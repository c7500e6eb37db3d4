/** A sweep that no other thread interferes with is a filter. */
module Sweeps {
  import opened Connections
  import opened Runs

  // ---- uninterrupted pieces ----

  function AcceptEvents(fd: nat, ip: string): seq<Event> {
    [Connect(fd, ip), Store(ip), Mark(ip)]
  }

  /** One turn of the accept loop. */
  lemma AcceptEffect(s: State, fd: nat, ip: string)
    requires s.accepting.Idle? && fd !in s.used
    ensures var es, c := AcceptEvents(fd, ip), Client(fd, ip, true);
            && Legal(s, es)
            && Steps(s, es) == s.(
                 connected := s.connected[ip := c], beats := s.beats + {ip}, clients := s.clients + [c],
                 used := s.used[fd := ip], stored := s.stored + {fd})
  {
    hide Legal, Steps;
    var es, t := Begin(s);
    es, t := Then(s, es, t, Connect(fd, ip));
    es, t := Then(s, es, t, Store(ip));
    es, t := Then(s, es, t, Mark(ip));
    assert es == AcceptEvents(fd, ip);
  }

  function KillEvents(ip: string): seq<Event> {
    [Look(ip), Disconnect(ip), Close(ip), Delete(ip)]
  }

  /** The visit of a silent client, up to its erase. */
  lemma KillEffect(s: State, ip: string)
    requires s.sweeping.Resting? && ip in s.connected && ip !in s.beats
    ensures var es, c := KillEvents(ip), s.connected[ip].(connected := false);
            && Legal(s, es)
            && Steps(s, es) == s.(
                 connected := s.connected[ip := c], clients := RemoveFirst(s.clients, c),
                 sweeping := Deleted(ip), deleted := s.deleted + {c.fd}, killed := s.killed + [c],
                 closes := s.closes + [c.fd])
  {
    hide Legal, Steps, RemoveFirst;
    var es, t := Begin(s);
    es, t := Then(s, es, t, Look(ip));
    es, t := Then(s, es, t, Disconnect(ip));
    es, t := Then(s, es, t, Close(ip));
    es, t := Then(s, es, t, Delete(ip));
    assert es == KillEvents(ip);
  }

  lemma EraseEffect(s: State, ip: string)
    requires s.sweeping == Deleted(ip)
    ensures Legal(s, [Erase(ip)])
    ensures Steps(s, [Erase(ip)]) == s.(connected := s.connected - {ip}, sweeping := Resting)
  {
    OneStep(s, Erase(ip));
  }

  lemma ClearEffect(s: State)
    requires s.sweeping.Resting?
    ensures Legal(s, [Clear]) && Steps(s, [Clear]) == s.(beats := {})
  {
    OneStep(s, Clear);
  }

  /** A heartbeat may arrive at any time, from anybody. */
  lemma HeartbeatEffect(s: State, ip: string)
    ensures Legal(s, [Heartbeat(ip)]) && Steps(s, [Heartbeat(ip)]) == s.(beats := s.beats + {ip})
  {
    OneStep(s, Heartbeat(ip));
  }

  /** Any connection that was made may end, once, whether it is listed or not. */
  lemma HangUpEffect(s: State, c: Client)
    requires c.fd in s.used && s.used[c.fd] == c.ip && c.fd !in s.hungUp
    ensures Legal(s, [HangUp(c)])
    ensures Steps(s, [HangUp(c)]) ==
            s.(clients := RemoveFirst(s.clients, c), hungUp := s.hungUp + {c.fd}, closes := s.closes + [c.fd])
    ensures !Enabled(Steps(s, [HangUp(c)]), HangUp(c))
  {
    OneStep(s, HangUp(c));
  }

  // ---- the sweep ----

  /** `order` visits every key once, in any order. */
  ghost predicate Enumerates(order: seq<string>, keys: set<string>) {
    && (forall ip :: ip in order <==> ip in keys)
    && (forall i, j :: 0 <= i < j < |order| ==> order[i] != order[j])
  }

  function Elements(order: seq<string>): set<string> {
    set ip | ip in order
  }

  function VisitEvents(ip: string, beats: set<string>): seq<Event> {
    if ip in beats then [Look(ip)] else KillEvents(ip) + [Erase(ip)]
  }

  /** The events of a sweep that finds the heartbeats `beats`. */
  function VisitAll(order: seq<string>, beats: set<string>): seq<Event> {
    if order == [] then [] else
    VisitAll(order[..|order| - 1], beats) + VisitEvents(order[|order| - 1], beats)
  }

  function SweepEvents(order: seq<string>, beats: set<string>): seq<Event> {
    VisitAll(order, beats) + [Clear]
  }

  /** The clients whose address has a heartbeat. */
  function Kept(m: map<string, Client>, beats: set<string>): map<string, Client> {
    map ip | ip in m && ip in beats :: m[ip]
  }

  /** The connections of the silent ones among `ips`. */
  function SilentIds(m: map<string, Client>, ips: set<string>, beats: set<string>): set<(nat, string)> {
    set ip | ip in ips && ip in m && ip !in beats :: m[ip].Id()
  }

  function SilentFds(m: map<string, Client>, ips: set<string>, beats: set<string>): set<nat> {
    set ip | ip in ips && ip in m && ip !in beats :: m[ip].fd
  }

  function SilentIn(m: map<string, Client>, order: seq<string>, beats: set<string>): seq<Client> {
    if order == [] then [] else
    var ip := order[|order| - 1];
    SilentIn(m, order[..|order| - 1], beats)
    + if ip in m && ip !in beats then [m[ip].(connected := false)] else []
  }

  function FdsInOrder(cs: seq<Client>): seq<nat> {
    seq(|cs|, i requires 0 <= i < |cs| => cs[i].fd)
  }

  /** The state when the sweep has visited the clients in `order`. */
  function Visited(s: State, order: seq<string>): State {
    var done := Elements(order);
    s.(connected := map ip | ip in s.connected && (ip !in done || ip in s.beats) :: s.connected[ip],
       clients := Without(s.clients, SilentIds(s.connected, done, s.beats)),
       deleted := s.deleted + SilentFds(s.connected, done, s.beats),
       killed := s.killed + SilentIn(s.connected, order, s.beats),
       closes := s.closes + FdsInOrder(SilentIn(s.connected, order, s.beats)))
  }

  /** One visit. */
  lemma VisitEffect(s: State, ip: string)
    requires s.sweeping.Resting? && ip in s.connected
    ensures var es, c := VisitEvents(ip, s.beats), s.connected[ip].(connected := false);
            && Legal(s, es)
            && Steps(s, es) ==
               if ip in s.beats then s else
               s.(connected := s.connected - {ip}, clients := RemoveFirst(s.clients, c),
                  deleted := s.deleted + {c.fd}, killed := s.killed + [c], closes := s.closes + [c.fd])
  {
    hide Legal, Steps, KillEvents, RemoveFirst;
    if ip in s.beats {
      OneStep(s, Look(ip));
    } else {
      KillEffect(s, ip);
      var t := Steps(s, KillEvents(ip));
      EraseEffect(t, ip);
      Pieces(s, KillEvents(ip), [Erase(ip)]);
      assert t.connected - {ip} == s.connected - {ip};
    }
  }

  lemma SilentGrows(m: map<string, Client>, order: seq<string>, ip: string, beats: set<string>)
    requires ip in m
    ensures SilentIds(m, Elements(order + [ip]), beats) ==
            SilentIds(m, Elements(order), beats) + if ip in beats then {} else {m[ip].Id()}
    ensures SilentFds(m, Elements(order + [ip]), beats) ==
            SilentFds(m, Elements(order), beats) + if ip in beats then {} else {m[ip].fd}
  {
    assert Elements(order + [ip]) == Elements(order) + {ip};
  }

  lemma VisitOneMore(s: State, order: seq<string>, ip: string)
    requires s.sweeping.Resting? && Distinct(s.clients) && ip in s.connected && ip !in order
    ensures ip in Visited(s, order).connected
    ensures Legal(Visited(s, order), VisitEvents(ip, s.beats))
    ensures Steps(Visited(s, order), VisitEvents(ip, s.beats)) == Visited(s, order + [ip])
  {
    hide SilentIds, SilentFds, Distinct, Without, RemoveFirst, Legal, Steps, VisitEvents;
    var t, u := Visited(s, order), Visited(s, order + [ip]);
    var before := SilentIds(s.connected, Elements(order), s.beats);
    var fds := SilentFds(s.connected, Elements(order), s.beats);
    VisitEffect(t, ip);
    SilentGrows(s.connected, order, ip, s.beats);
    assert (order + [ip])[..|order|] == order;
    if ip in s.beats {
      assert before + {} == before && fds + {} == fds;
      assert u.connected == t.connected;
    } else {
      var c := s.connected[ip].(connected := false);
      WithoutDistinct(s.clients, before);
      RemoveFirstIsWithout(t.clients, c);
      WithoutTwice(s.clients, before, {c.Id()});
      assert u.connected == t.connected - {ip};
      assert s.deleted + (fds + {c.fd}) == s.deleted + fds + {c.fd};
      assert u.closes == t.closes + [c.fd];
    }
  }

  lemma {:induction false} VisitAllFilters(s: State, order: seq<string>)
    requires s.sweeping.Resting? && Distinct(s.clients)
    requires forall ip :: ip in order ==> ip in s.connected
    requires forall i, j :: 0 <= i < j < |order| ==> order[i] != order[j]
    ensures Legal(s, VisitAll(order, s.beats)) && Steps(s, VisitAll(order, s.beats)) == Visited(s, order)
  {
    hide Visited, Legal, Steps, VisitEvents;
    if order == [] {
      VisitedNone(s);
    } else {
      var front, ip := order[..|order| - 1], order[|order| - 1];
      VisitAllFilters(s, front);
      VisitOneMore(s, front, ip);
      assert front + [ip] == order;
      Pieces(s, VisitAll(front, s.beats), VisitEvents(ip, s.beats));
    }
  }

  lemma VisitedNone(s: State)
    ensures Visited(s, []) == s && Legal(s, []) && Steps(s, []) == s
  {
    assert SilentIds(s.connected, Elements([]), s.beats) == {};
    assert SilentFds(s.connected, Elements([]), s.beats) == {};
    WithoutNone(s.clients, {});
    assert Visited(s, []).connected == s.connected;
  }

  /** A whole sweep, in whatever order it visits the clients, is a filter. */
  lemma SweepFilters(s: State, order: seq<string>)
    requires s.sweeping.Resting? && Distinct(s.clients) && Enumerates(order, s.connected.Keys)
    ensures var es := SweepEvents(order, s.beats);
            && Legal(s, es)
            && Steps(s, es) == s.(
                 connected := Kept(s.connected, s.beats), beats := {},
                 clients := Without(s.clients, SilentIds(s.connected, s.connected.Keys, s.beats)),
                 deleted := s.deleted + SilentFds(s.connected, s.connected.Keys, s.beats),
                 killed := s.killed + SilentIn(s.connected, order, s.beats),
                 closes := s.closes + FdsInOrder(SilentIn(s.connected, order, s.beats)))
  {
    hide Legal, Steps, VisitAll, SilentIds, SilentFds;
    VisitAllFilters(s, order);
    assert Elements(order) == s.connected.Keys;
    ClearEffect(Visited(s, order));
    Pieces(s, VisitAll(order, s.beats), [Clear]);
    assert Visited(s, order).connected == Kept(s.connected, s.beats);
  }

  /** The silent clients among `order`, each once. */
  lemma {:induction false} SilentInExact(s: State, order: seq<string>)
    requires KeysMatch(s)
    requires forall i, j :: 0 <= i < j < |order| ==> order[i] != order[j]
    ensures var m, cs := s.connected, SilentIn(s.connected, order, s.beats);
            && DistinctFds(cs)
            && forall c :: c in cs <==>
                 c.ip in order && c.ip in m && c.ip !in s.beats && c == m[c.ip].(connected := false)
  {
    if order != [] {
      var front, ip := order[..|order| - 1], order[|order| - 1];
      SilentInExact(s, front);
      assert order == front + [ip];
      assert ip !in front;
      if ip in s.connected && ip !in s.beats {
        var cs, c := SilentIn(s.connected, front, s.beats), s.connected[ip].(connected := false);
        assert forall d :: d in cs ==> s.used[d.fd] != s.used[c.fd];
        OneMoreFd(cs, c);
      }
    }
  }

  /** A sweep closes every silent client's connection once, and nothing else. */
  lemma ClosesExact(s: State, order: seq<string>)
    requires Inv(s) && Enumerates(order, s.connected.Keys)
    ensures var fds := FdsInOrder(SilentIn(s.connected, order, s.beats));
            && (forall i, j :: 0 <= i < j < |fds| ==> fds[i] != fds[j])
            && forall fd :: fd in fds <==>
                 exists ip :: ip in s.connected && ip !in s.beats && s.connected[ip].fd == fd
  {
    hide SilentIn;
    var m, cs := s.connected, SilentIn(s.connected, order, s.beats);
    SilentInExact(s, order);
    var fds := FdsInOrder(cs);
    forall fd | fd in fds ensures exists ip :: ip in m && ip !in s.beats && m[ip].fd == fd {
      var i :| 0 <= i < |fds| && fds[i] == fd;
      assert cs[i] in cs;
    }
    forall ip | ip in m && ip !in s.beats ensures m[ip].fd in fds {
      var c := m[ip].(connected := false);
      assert c in cs;
      var i :| 0 <= i < |cs| && cs[i] == c;
      assert fds[i] == m[ip].fd;
    }
  }

  /** What is left of the containers, connection by connection, and what a sweep closes. */
  lemma SweptMeans(s: State, order: seq<string>)
    requires Inv(s) && Enumerates(order, s.connected.Keys)
    ensures forall ip :: ip in Kept(s.connected, s.beats) <==> ip in s.connected && ip in s.beats
    ensures forall ip :: ip in Kept(s.connected, s.beats) ==> Kept(s.connected, s.beats)[ip] == s.connected[ip]
    ensures forall c :: c in Without(s.clients, SilentIds(s.connected, s.connected.Keys, s.beats)) <==>
              c in s.clients && !(c.ip in s.connected && c.ip !in s.beats && s.connected[c.ip].fd == c.fd)
  {
    forall c: Client
      ensures c.Id() in SilentIds(s.connected, s.connected.Keys, s.beats) <==>
              c.ip in s.connected && c.ip !in s.beats && s.connected[c.ip].fd == c.fd
    {
    }
  }
}
