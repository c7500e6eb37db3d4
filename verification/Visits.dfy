/** What every interleaving does to a client that is visited, stored over or hung up. */
module Visits {
  import opened Connections
  import opened Runs

  // ---- a visit, whatever happens in between ----

  /** The sweep goes on to kill exactly when no heartbeat was recorded since the last clear. */
  lemma LookExact(es: seq<Event>, ip: string)
    requires Legal(INIT, es) && Enabled(After(es), Look(ip))
    ensures After(es + [Look(ip)]).sweeping == if RecordedSinceClear(es, ip) then Resting else Silent(ip)
  {
    assert (es + [Look(ip)])[..|es|] == es;
    BeatsExact(es, ip);
  }

  /** What begins or ends a visit, or a sweep. */
  predicate Bounds(e: Event) {
    e.Look? || e.Erase? || e.Clear?
  }

  /** The visit of `ip` began with look `l`, which found it connected and silent, and is not over. */
  ghost predicate InVisit(es: seq<Event>, l: nat, ip: string) {
    && l < |es| && es[l] == Look(ip)
    && !RecordedSinceClear(es[..l], ip)
    && ip in After(es[..l]).connected
    && forall k :: l < k < |es| ==> !Bounds(es[k])
  }

  lemma {:induction false} VisitBegan(es: seq<Event>, ip: string) returns (l: nat)
    requires Legal(INIT, es) && After(es).sweeping.Visits(ip)
    ensures InVisit(es, l, ip)
  {
    hide RecordedSinceClear;
    var m := |es| - 1;
    var front, e := es[..m], es[m];
    LegalLast(INIT, es);
    BeatsExact(front, ip);
    if After(front).sweeping.Visits(ip) {
      l := VisitBegan(front, ip);
      assert es[..l] == front[..l];
    } else {
      l := m;
    }
  }

  /** During a visit the address has a heartbeat entry exactly if one was recorded since the look. */
  lemma BeatsSinceLook(es: seq<Event>, l: nat, ip: string)
    requires Legal(INIT, es) && InVisit(es, l, ip)
    ensures ip in After(es).beats <==> exists k :: l < k < |es| && Records(es[k], ip)
  {
    BeatsExact(es, ip);
  }

  /** What one step does to the entry of `ip`, and to a connection `fd` that was stored once. */
  lemma EntryStep(s: State, e: Event, ip: string, fd: nat)
    requires Inv(s) && Enabled(s, e) && fd in s.stored
    ensures var t := Step(s, e);
            && fd in t.stored
            && (e == Store(ip) ==> ip in t.connected && t.connected[ip].fd != fd)
            && (e == Erase(ip) ==> ip !in t.connected)
            && (e != Store(ip) && e != Erase(ip) ==>
                  && (ip in t.connected <==> ip in s.connected)
                  && (ip in t.connected ==> t.connected[ip].fd == s.connected[ip].fd))
  {
  }

  /** While nothing erases it, a map entry is still the same connection exactly if nothing was stored over it. */
  lemma {:induction false} EntryExact(es: seq<Event>, a: nat, ip: string)
    requires Legal(INIT, es) && a <= |es|
    requires ip in After(es[..a]).connected
    requires forall k :: a <= k < |es| ==> es[k] != Erase(ip)
    ensures ip in After(es).connected
    ensures After(es[..a]).connected[ip].fd in After(es).stored
    ensures After(es).connected[ip].fd == After(es[..a]).connected[ip].fd <==>
            forall k :: a <= k < |es| ==> es[k] != Store(ip)
  {
    hide Legal, Step, Enabled;
    RunKeepsInv(es[..a]);
    if a == |es| {
      assert es[..a] == es;
    } else {
      hide Inv;
      var m := |es| - 1;
      LegalLast(INIT, es);
      assert es[..m][..a] == es[..a];
      EntryExact(es[..m], a, ip);
      RunKeepsInv(es[..m]);
      EntryStep(After(es[..m]), es[m], ip, After(es[..a]).connected[ip].fd);
      assert forall k :: a <= k < m ==> es[..m][k] == es[k];
    }
  }

  /**
   Event `j` closed connection `c` in the visit that look `l` began: nothing was recorded for its
   address from the last clear up to that look, and `c` is the client the look found exactly if no
   accept stored another one in between.
   */
  ghost predicate KilledBy(es: seq<Event>, l: nat, j: nat, c: Client) {
    && l < j < |es| && InVisit(es[..j], l, c.ip) && es[j] == Close(c.ip)
    && c.ip in After(es[..l]).connected
    && (c.fd == After(es[..l]).connected[c.ip].fd <==> forall k :: l < k < j ==> es[k] != Store(c.ip))
  }

  lemma {:induction false} KilledHow(es: seq<Event>, c: Client) returns (l: nat, j: nat)
    requires Legal(INIT, es) && c in After(es).killed
    ensures KilledBy(es, l, j, c)
  {
    hide Inv, Enabled, InVisit, Legal, RecordedSinceClear, Sweeping.Visits;
    var m := |es| - 1;
    var front := es[..m];
    LegalLast(INIT, es);
    if c in After(front).killed {
      l, j := KilledHow(front, c);
      assert front[..j] == es[..j] && front[..l] == es[..l];
    } else {
      RunKeepsInv(front);
      NewlyKilled(After(front), es[m], c);
      j := m;
      l := VisitBegan(front, c.ip);
      VisitEntry(front, l, c.ip);
      assert front[..l] == es[..l];
      assert forall k :: l < k < j ==> front[k] == es[k];
    }
  }

  lemma NewlyKilled(s: State, e: Event, c: Client)
    requires Inv(s) && Enabled(s, e)
    requires c in Step(s, e).killed && c !in s.killed
    ensures e == Close(c.ip) && s.sweeping.Visits(c.ip) && c.ip in s.connected && s.connected[c.ip] == c
  {
  }

  lemma VisitEntry(es: seq<Event>, l: nat, ip: string)
    requires Legal(INIT, es) && InVisit(es, l, ip)
    ensures l < |es| && ip in After(es).connected && ip in After(es[..l]).connected
    ensures After(es).connected[ip].fd == After(es[..l]).connected[ip].fd <==>
            forall k :: l < k < |es| ==> es[k] != Store(ip)
  {
    EntryExact(es, l, ip);
  }

  /**
   Over every run: whoever was closed by the sweep was closed in a visit whose look found no
   heartbeat of its address since the last clear.
   */
  lemma OnlySilentKilled(es: seq<Event>, c: Client)
    requires Legal(INIT, es) && c in After(es).killed
    ensures exists l: nat, j: nat :: KilledBy(es, l, j, c)
  {
    var l, j := KilledHow(es, c);
  }

  // ---- what a visit drops ----

  /** Nothing but the erase that ends a visit takes an address out of the map. */
  lemma OnlyEraseDrops(s: State, e: Event, ip: string)
    requires ip in s.connected && ip !in Step(s, e).connected
    ensures e == Erase(ip) && s.sweeping == Deleted(ip)
  {
  }

  /**
   The erase drops an address that has a heartbeat entry exactly if one was recorded since the
   look, and an entry other than the one the look found exactly if one was stored since.
   */
  lemma EraseExact(es: seq<Event>, ip: string) returns (l: nat)
    requires Legal(INIT, es) && Enabled(After(es), Erase(ip))
    ensures InVisit(es, l, ip) && ip in After(es).connected && ip !in Step(After(es), Erase(ip)).connected
    ensures ip in Step(After(es), Erase(ip)).beats <==> exists k :: l < k < |es| && Records(es[k], ip)
    ensures After(es).connected[ip].fd != After(es[..l]).connected[ip].fd <==>
            exists k :: l < k < |es| && es[k] == Store(ip)
  {
    l := VisitBegan(es, ip);
    BeatsSinceLook(es, l, ip);
    VisitEntry(es, l, ip);
  }

  // ---- what is closed ----

  /** The receive task of `fd` has ended. */
  ghost predicate HungUpIn(es: seq<Event>, fd: nat) {
    exists j :: 0 <= j < |es| && es[j].HangUp? && es[j].client.fd == fd
  }

  lemma HungUpSnoc(es: seq<Event>, e: Event, fd: nat)
    ensures HungUpIn(es + [e], fd) <==> HungUpIn(es, fd) || (e.HangUp? && e.client.fd == fd)
  {
    var all := es + [e];
    if HungUpIn(all, fd) && !(e.HangUp? && e.client.fd == fd) {
      var j :| 0 <= j < |all| && all[j].HangUp? && all[j].client.fd == fd;
      assert es[j] == all[j];
    }
    if HungUpIn(es, fd) {
      var j :| 0 <= j < |es| && es[j].HangUp? && es[j].client.fd == fd;
      assert all[j] == es[j];
    }
    assert all[|es|] == e;
  }

  lemma {:induction false} HungUpExact(es: seq<Event>, fd: nat)
    requires Legal(INIT, es)
    ensures fd in After(es).hungUp <==> HungUpIn(es, fd)
  {
    hide HungUpIn, Legal;
    if es == [] {
      NobodyHungUp(fd);
    } else {
      var m := |es| - 1;
      LegalLast(INIT, es);
      HungUpExact(es[..m], fd);
      HungUpSnoc(es[..m], es[m], fd);
      assert es[..m] + [es[m]] == es;
    }
  }

  lemma NobodyHungUp(fd: nat)
    ensures !HungUpIn([], fd)
  {
  }

  /**
   Over every run: a descriptor is passed to `close` at most twice, and twice exactly if both its
   receive task ended and a visit closed it.
   */
  lemma ClosedTwiceExact(es: seq<Event>, fd: nat)
    requires Legal(INIT, es)
    ensures var n := multiset(After(es).closes)[fd];
            n <= 2 && (n == 2 <==> HungUpIn(es, fd) && exists c :: c in After(es).killed && c.fd == fd)
  {
    RunKeepsInv(es);
    HungUpExact(es, fd);
  }

  /**
   Up to the close of its own visit, a map entry is closed exactly if its receive task has ended;
   so that is also exactly when the visit closes a closed descriptor.
   */
  lemma EntryClosedExact(es: seq<Event>, ip: string)
    requires Legal(INIT, es) && ip in After(es).connected
    requires After(es).sweeping !in {Closed(ip), Deleted(ip)}
    ensures var fd := After(es).connected[ip].fd; fd in After(es).closes <==> HungUpIn(es, fd)
  {
    hide HungUpIn;
    RunKeepsInv(es);
    var s := After(es);
    var fd := s.connected[ip].fd;
    HungUpExact(es, fd);
    assert fd in s.closes <==> multiset(s.closes)[fd] > 0;
  }

  // ---- the same connection all along? ----

  lemma {:induction false} CloseBegan(es: seq<Event>, ip: string) returns (j: nat)
    requires Legal(INIT, es) && After(es).sweeping == Closed(ip)
    ensures j < |es| && es[j] == Close(ip)
    ensures forall k :: j < k < |es| ==> !es[k].Close? && !es[k].Erase?
    ensures After(es[..j]).connected.Keys >= {ip}
    ensures After(es).killed == After(es[..j]).killed + [After(es[..j]).connected[ip]]
  {
    hide Legal, RemoveFirst;
    var m := |es| - 1;
    var front := es[..m];
    LegalLast(INIT, es);
    if es[m] == Close(ip) {
      j := m;
    } else {
      j := CloseBegan(front, ip);
      assert es[..j] == front[..j];
    }
  }

  /** A visit takes out of the list the connection it closed exactly if none was stored in between. */
  lemma DeleteExact(es: seq<Event>, ip: string) returns (j: nat)
    requires Legal(INIT, es) && Enabled(After(es), Delete(ip))
    ensures j < |es| && es[j] == Close(ip) && (forall k :: j < k < |es| ==> !es[k].Close?)
    ensures |After(es).killed| > 0
    ensures After(es).killed[|After(es).killed| - 1].fd == After(es).connected[ip].fd <==>
            forall k :: j < k < |es| ==> es[k] != Store(ip)
  {
    j := CloseBegan(es, ip);
    EntryExact(es, j, ip);
  }

  /**
   A connection is in the map exactly from its store until another is stored over it or the
   address is erased; it never comes back.
   */
  lemma {:induction false} StoredExact(es: seq<Event>, i: nat, c: Client)
    requires Legal(INIT, es) && i < |es| && es[i] == Store(c.ip)
    requires After(es[..i]).accepting == Accepted(c)
    ensures c.fd in After(es).stored
    ensures c.ip in After(es).connected && After(es).connected[c.ip].fd == c.fd <==>
            forall k :: i < k < |es| ==> es[k] != Store(c.ip) && es[k] != Erase(c.ip)
  {
    hide Legal, Enabled, RemoveFirst, Inv;
    var m := |es| - 1;
    var front := es[..m];
    LegalLast(INIT, es);
    RunKeepsInv(front);
    if i == m {
      StoreStep(After(front), c);
    } else {
      hide Step;
      assert front[..i] == es[..i];
      StoredExact(front, i, c);
      EntryStep(After(front), es[m], c.ip, c.fd);
      assert forall k :: i < k < m ==> front[k] == es[k];
    }
  }

  lemma StoreStep(s: State, c: Client)
    requires s.accepting == Accepted(c)
    ensures var t := Step(s, Store(c.ip)); c.fd in t.stored && t.connected == s.connected[c.ip := c]
  {
  }

  /** Stored once, still listed, and no longer the map's entry. */
  predicate Orphan(s: State, c: Client) {
    && c in s.clients && c.fd in s.stored
    && (c.ip in s.connected ==> s.connected[c.ip].fd != c.fd)
  }

  /** Nothing that a sweep does ever removes an orphan from the list: it stays until it hangs up. */
  lemma {:induction false} OrphanExact(es: seq<Event>, a: nat, c: Client)
    requires Legal(INIT, es) && a <= |es| && Orphan(After(es[..a]), c)
    ensures c in After(es).clients <==> forall k :: a <= k < |es| ==> !(es[k].HangUp? && es[k].client.fd == c.fd)
    ensures c in After(es).clients ==> Orphan(After(es), c)
    ensures c.fd in After(es).used
  {
    hide Legal;
    var s := After(es[..a]);
    RunKeepsInv(es[..a]);
    if a == |es| {
      assert es[..a] == es;
      assert c.fd in Fds(s.clients);
    } else {
      var m := |es| - 1;
      var front := es[..m];
      LegalLast(INIT, es);
      assert front[..a] == es[..a];
      OrphanExact(front, a, c);
      assert forall k :: a <= k < m ==> front[k] == es[k];
      RunKeepsInv(front);
      OrphanStep(After(front), es[m], c);
    }
  }

  lemma OrphanStep(s: State, e: Event, c: Client)
    requires Inv(s) && Enabled(s, e) && c.fd in s.used
    ensures Orphan(s, c) ==>
              if e.HangUp? && e.client.fd == c.fd then c !in Step(s, e).clients else Orphan(Step(s, e), c)
    ensures c !in s.clients ==> c !in Step(s, e).clients
  {
    if e.HangUp? {
      RemoveFirstKeeps(s.clients, e.client);
    } else if e.Delete? {
      RemoveFirstKeeps(s.clients, s.connected[e.ip]);
    }
  }
}
