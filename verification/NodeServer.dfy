/** The server object: every method is a sequence of steps of the transition system in `Runs`. */
module NodeServer {
  import opened Prelude
  import opened Wire
  import opened Connections
  import opened Runs
  import opened Sweeps
  import JumboPacket

  /** What a received message leads to. */
  datatype Reaction =
    | RecordBeat
    | ConnectBack(ip: string)  // to the sender's own address, not the one in the poke
    | Show(text: Bytes)
    | Invalid

  class NServer {
    const tserver: TcpServer
    var connected: map<string, Client>
    /** The keys of `client_heartbeats`; the value stored is always true. */
    var beats: set<string>
    /** Where the transition system stands. */
    ghost var state: State

    ghost predicate Valid()
      reads this, tserver
    {
      && connected == state.connected && beats == state.beats
      && tserver.clients == state.clients && tserver.closed == state.closes
      && state.accepting.Idle? && state.sweeping.Resting? && Inv(state)
    }

    constructor ()
      ensures Valid() && fresh(tserver) && state == INIT
    {
      tserver := new TcpServer();
      connected, beats, state := map[], {}, INIT;
      new;
      InitInv();
    }

    /** One turn of the accept loop, when no other thread runs in between. */
    method Accept(incoming: Incoming) returns (r: Result<Client>)
      requires Valid() && (incoming.Somebody? ==> incoming.fd !in state.used)
      modifies this, tserver`clients
      ensures Valid()
      ensures incoming.Nobody? ==>
                r == Err(AcceptFailed) && state == old(state)
      ensures incoming.Somebody? ==>
                var fd, ip, c := incoming.fd, incoming.ip, Client(incoming.fd, incoming.ip, true);
                && r == Ok(c) && state == Steps(old(state), AcceptEvents(fd, ip))
                && connected == old(connected)[ip := c] && beats == old(beats) + {ip}
                && tserver.clients == old(tserver.clients) + [c]
    {
      hide Inv, Step, Steps;
      var client := tserver.AcceptClient(incoming);
      if !client.connected {
        return Err(AcceptFailed);
      }
      connected := connected[client.ip := client];
      beats := beats + {client.ip};
      AcceptEffect(state, client.fd, client.ip);
      StepsKeepInv(state, AcceptEvents(client.fd, client.ip));
      state := Steps(state, AcceptEvents(client.fd, client.ip));
      return Ok(client);
    }

    /**
     The type in the header alone decides: nothing below looks at the magic word. Only a heartbeat
     touches the shared maps. The source's BROADCAST_TX branch is never reached.
     */
    method ReceiveMessage(client: Client, message: Bytes) returns (r: Result<Reaction>)
      requires Valid()
      modifies this`beats, this`state
      ensures Valid()
      ensures var t := if |message| >= 6 && message[5] == 0 then message[4] else 0;
              && (t == 1 ==> r == Ok(ConnectBack(client.ip)))
              && (t == 2 ==> r == Ok(RecordBeat))
              && (t == 3 ==> match ReadString(message, 6)
                             case Got(text, _) => r == Ok(Show(text))
                             case Fail(e) => r == Err(e))
              && (t !in {1, 2, 3} ==> r == Ok(Invalid))
      ensures beats == if r == Ok(RecordBeat) then old(beats) + {client.ip} else old(beats)
      ensures state == if r == Ok(RecordBeat) then Step(old(state), Heartbeat(client.ip)) else old(state)
    {
      hide Inv;
      var t := JumboPacket.ReadHeader(message);
      if t == JumboPacket.CLIENT_HEARTBEAT {
        beats := beats + {client.ip};
        StepKeepsInv(state, Heartbeat(client.ip));
        state := Step(state, Heartbeat(client.ip));
        return Ok(RecordBeat);
      }
      if t == JumboPacket.CLIENT_POKE {
        return Ok(ConnectBack(client.ip));
      }
      if t == JumboPacket.SIMPLE_STRING {
        var d :- JumboPacket.DecodeSimpleString(message);
        return Ok(Show(d.text));
      }
      return Ok(Invalid);
    }

    /** The end of a receive task: it closes, and the list forgets the client; the map does not. */
    method HangUp(client: Client)
      requires Valid() && Known(state, client) && client.fd !in state.hungUp
      modifies this`state, tserver`clients, tserver`closed
      ensures Valid()
      ensures state == Step(old(state), Runs.HangUp(client))
      ensures tserver.closed == old(tserver.closed) + [client.fd]
      ensures tserver.clients == RemoveFirst(old(tserver.clients), client)
    {
      hide Inv;
      tserver.EndReceive(client);
      StepKeepsInv(state, Runs.HangUp(client));
      state := Step(state, Runs.HangUp(client));
    }

    method HasClientWithIP(ip: string) returns (found: bool)
      ensures found <==> ip in connected
    {
      var todo := connected.Keys;
      while todo != {}
        invariant todo <= connected.Keys
        invariant ip in connected ==> ip in todo
        decreases todo
      {
        var key :| key in todo;
        if key == ip {
          return true;
        }
        todo := todo - {key};
      }
      return false;
    }

    /**
     One pass of the heartbeat loop. The order of the visits is left open, so this covers the
     key order of `std::map`. The pass is a filter: it keeps the clients whose address has a
     heartbeat, erases exactly the others' connections from the list, and forgets the heartbeats.
     */
    method Sweep()
      requires Valid()
      modifies this, tserver`clients, tserver`closed
      ensures Valid()
      ensures exists order ::
                && Enumerates(order, old(connected).Keys)
                && state == Steps(old(state), SweepEvents(order, old(beats)))
                && tserver.closed ==
                   old(tserver.closed) + FdsInOrder(SilentIn(old(connected), order, old(beats)))
      ensures connected == Kept(old(connected), old(beats)) && beats == {}
      ensures tserver.clients ==
              Without(old(tserver.clients), SilentIds(old(connected), old(connected).Keys, old(beats)))
      ensures forall ip :: ip in connected <==> ip in old(connected) && ip in old(beats)
      ensures forall ip :: ip in connected ==> connected[ip] == old(connected)[ip]
      ensures forall c :: c in tserver.clients <==>
                && c in old(tserver.clients)
                && !(c.ip in old(connected) && c.ip !in old(beats) && old(connected)[c.ip].fd == c.fd)
      ensures old(tserver.closed) <= tserver.closed
      ensures var fds := tserver.closed[|old(tserver.closed)|..];
              && (forall i, j :: 0 <= i < j < |fds| ==> fds[i] != fds[j])
              && forall fd :: fd in fds <==>
                   exists ip :: ip in old(connected) && ip !in old(beats) && old(connected)[ip].fd == fd
    {
      hide Step, Steps, Inv, Visiting, Enumerates, VisitEvents, SweepEvents;
      hide Kept, SilentIds, SilentIn, FdsInOrder, Without, RemoveFirst;
      ghost var order := [];
      var todo := connected.Keys;
      NothingVisited(state);
      while todo != {}
        invariant Valid() && beats == old(beats) && todo <= connected.Keys
        invariant state == Steps(old(state), VisitAll(order, old(beats)))
        invariant Visiting(order, todo, old(connected).Keys)
        decreases todo
      {
        var ip :| ip in todo;
        VisitStep(old(state), state, order, ip);
        VisitNext(order, todo, old(connected).Keys, ip);
        todo := todo - {ip};
        if ip !in beats {
          var killed := tserver.KillClient(connected[ip]);
          connected := connected[ip := killed];
          connected := connected - {ip};
        }
        order := order + [ip];
        state := Steps(state, VisitEvents(ip, beats));
      }
      beats := {};
      ClearStep(old(state), state, order);
      state := Step(state, Clear);
      AllVisited(order, old(connected).Keys);
      InvDistinct(old(state));
      SweepFilters(old(state), order);
      SweptMeans(old(state), order);
      ClosesExact(old(state), order);
    }
  }

  /** `order` are the keys visited so far, `todo` the others. */
  ghost predicate Visiting(order: seq<string>, todo: set<string>, keys: set<string>) {
    Enumerates(order, keys - todo) && todo <= keys
  }

  lemma NothingVisited(s: State)
    ensures Visiting([], s.connected.Keys, s.connected.Keys)
    ensures Steps(s, VisitAll([], s.beats)) == s
  {
  }

  lemma VisitNext(order: seq<string>, todo: set<string>, keys: set<string>, ip: string)
    requires Visiting(order, todo, keys) && ip in todo
    ensures Visiting(order + [ip], todo - {ip}, keys)
  {
  }

  lemma AllVisited(order: seq<string>, keys: set<string>)
    requires Visiting(order, {}, keys)
    ensures Enumerates(order, keys)
  {
    assert keys - {} == keys;
  }

  lemma VisitStep(start: State, s: State, order: seq<string>, ip: string)
    requires s == Steps(start, VisitAll(order, s.beats))
    requires Inv(s) && s.sweeping.Resting? && ip in s.connected
    ensures var t := Steps(s, VisitEvents(ip, s.beats));
            && t == Steps(start, VisitAll(order + [ip], s.beats)) && Inv(t)
            && t.accepting == s.accepting && t.sweeping.Resting? && t.beats == s.beats
            && t.closes == (if ip in s.beats then s.closes else s.closes + [s.connected[ip].fd])
            && t.connected == (if ip in s.beats then s.connected else s.connected - {ip})
            && t.clients == (if ip in s.beats then s.clients
                             else RemoveFirst(s.clients, s.connected[ip].(connected := false)))
  {
    hide Inv, Steps, VisitEvents;
    StepsKeepInv(s, VisitEvents(ip, s.beats));
    VisitEffect(s, ip);
    assert (order + [ip])[..|order|] == order;
    StepsAppend(start, VisitAll(order, s.beats), VisitEvents(ip, s.beats));
  }

  lemma ClearStep(start: State, s: State, order: seq<string>)
    requires s == Steps(start, VisitAll(order, s.beats)) && Inv(s) && s.sweeping.Resting?
    ensures Step(s, Clear) == s.(beats := {}) && Inv(Step(s, Clear))
    ensures Step(s, Clear) == Steps(start, SweepEvents(order, s.beats))
  {
    hide Inv;
    StepKeepsInv(s, Clear);
    assert (SweepEvents(order, s.beats))[..|VisitAll(order, s.beats)|] == VisitAll(order, s.beats);
  }
}
