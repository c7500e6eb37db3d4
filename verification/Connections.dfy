/** The connection list of TcpServer: accepting, deleting and sending. */
module Connections {
  import opened Prelude

  /** A connection; `fd` identifies it, as descriptors are not reused in this model. */
  datatype Client = Client(fd: nat, ip: string, connected: bool) {
    /** What `operator==` compares. */
    function Id(): (nat, string) {
      (fd, ip)
    }
  }

  /** What waits at the listening socket; `Nobody` also stands for a timeout or a failed accept. */
  datatype Incoming = Nobody | Somebody(fd: nat, ip: string)

  predicate Distinct(cs: seq<Client>) {
    forall i, j :: 0 <= i < j < |cs| ==> cs[i].Id() != cs[j].Id()
  }

  /** The list after the first equal client is erased. */
  function RemoveFirst(cs: seq<Client>, c: Client): (r: seq<Client>) {
    if cs == [] then []
    else if cs[0].Id() == c.Id() then cs[1..]
    else [cs[0]] + RemoveFirst(cs[1..], c)
  }

  /** The clients that are not in `gone`, in order. */
  function Without(cs: seq<Client>, gone: set<(nat, string)>): (r: seq<Client>)
    ensures forall c :: c in r <==> c in cs && c.Id() !in gone
  {
    if cs == [] then []
    else if cs[0].Id() in gone then Without(cs[1..], gone)
    else [cs[0]] + Without(cs[1..], gone)
  }

  lemma {:induction false} WithoutNone(cs: seq<Client>, gone: set<(nat, string)>)
    requires forall c :: c in cs ==> c.Id() !in gone
    ensures Without(cs, gone) == cs
  {
    if cs != [] {
      WithoutNone(cs[1..], gone);
    }
  }

  /** With distinct connections, erasing the first match erases exactly that connection. */
  lemma {:induction false} RemoveFirstIsWithout(cs: seq<Client>, c: Client)
    requires Distinct(cs)
    ensures RemoveFirst(cs, c) == Without(cs, {c.Id()})
  {
    if cs != [] {
      if cs[0].Id() == c.Id() {
        WithoutNone(cs[1..], {c.Id()});
      } else {
        RemoveFirstIsWithout(cs[1..], c);
      }
    }
  }

  lemma {:induction false} WithoutTwice(cs: seq<Client>, a: set<(nat, string)>, b: set<(nat, string)>)
    ensures Without(Without(cs, a), b) == Without(cs, a + b)
  {
    if cs != [] {
      WithoutTwice(cs[1..], a, b);
    }
  }

  lemma WithoutFirst(cs: seq<Client>, gone: set<(nat, string)>)
    requires cs != []
    ensures Without(cs, gone) == (if (cs[0].fd, cs[0].ip) in gone then [] else [cs[0]]) + Without(cs[1..], gone)
  {
  }

  /** A filter keeps the order: it works piece by piece. */
  lemma {:induction false} WithoutAppend(front: seq<Client>, back: seq<Client>, gone: set<(nat, string)>)
    ensures Without(front + back, gone) == Without(front, gone) + Without(back, gone)
  {
    if front == [] {
      assert front + back == back && Without(front, gone) == [];
    } else {
      hide Without;
      var all := front + back;
      assert all[0] == front[0] && all[1..] == front[1..] + back;
      WithoutFirst(all, gone);
      WithoutFirst(front, gone);
      WithoutAppend(front[1..], back, gone);
    }
  }

  lemma {:induction false} WithoutDistinct(cs: seq<Client>, gone: set<(nat, string)>)
    requires Distinct(cs)
    ensures Distinct(Without(cs, gone))
  {
    if cs != [] {
      WithoutDistinct(cs[1..], gone);
      assert forall c :: c in cs[1..] ==> c.Id() != cs[0].Id();
    }
  }

  class TcpServer {
    var clients: seq<Client>
    /** The messages that went out whole, with the connection each went to. */
    var sent: seq<(nat, Bytes)>
    /** The descriptors passed to `close`, in order. */
    var closed: seq<nat>

    constructor ()
      ensures clients == [] && sent == [] && closed == []
    {
      clients, sent, closed := [], [], [];
    }

    /** Without a connection the client that is returned is not connected, and nothing else happens. */
    method AcceptClient(incoming: Incoming) returns (c: Client)
      modifies this`clients
      ensures match incoming
              case Nobody => c == Client(0, "", false) && clients == old(clients)
              case Somebody(fd, ip) => c == Client(fd, ip, true) && clients == old(clients) + [c]
    {
      c := Client(0, "", false);
      if incoming.Nobody? {
        return;
      }
      c := c.(fd := incoming.fd);
      c := c.(connected := true);
      c := c.(ip := incoming.ip);
      clients := clients + [c];
    }

    method DeleteClient(c: Client) returns (found: bool)
      modifies this`clients
      ensures clients == RemoveFirst(old(clients), c)
      ensures found <==> exists d :: d in old(clients) && d.fd == c.fd && d.ip == c.ip
      ensures !found ==> clients == old(clients)
      ensures found ==> exists k ::
                && 0 <= k < |old(clients)| && clients == old(clients[..k] + clients[k + 1..])
                && old(clients)[k].fd == c.fd && old(clients)[k].ip == c.ip
                && forall j :: 0 <= j < k ==> old(clients)[j].fd != c.fd || old(clients)[j].ip != c.ip
    {
      var index := -1;
      var i := 0;
      while i < |clients|
        invariant i <= |clients| && index == -1
        invariant forall j :: 0 <= j < i ==> clients[j].Id() != c.Id()
      {
        if clients[i].Id() == c.Id() {
          index := i;
          break;
        }
        i := i + 1;
      }
      if index > -1 {
        RemoveAt(clients, c, index);
        clients := clients[..index] + clients[index + 1..];
        return true;
      }
      RemoveNone(clients, c);
      return false;
    }

    /** The caller's reference is marked disconnected, its descriptor closed, and it leaves the list. */
    method KillClient(c: Client) returns (killed: Client)
      modifies this`clients, this`closed
      ensures killed == c.(connected := false)
      ensures clients == RemoveFirst(old(clients), killed) && closed == old(closed) + [c.fd]
    {
      killed := c.(connected := false);
      closed := closed + [killed.fd];
      var _ := DeleteClient(killed);
    }

    /** What a receive task does when its connection is gone, whether or not the client is still listed. */
    method EndReceive(c: Client)
      modifies this`clients, this`closed
      ensures clients == RemoveFirst(old(clients), c) && closed == old(closed) + [c.fd]
    {
      var client := c.(connected := false);
      closed := closed + [client.fd];
      var _ := DeleteClient(client);
      RemoveById(old(clients), client, c);
    }

    /** Every listed client gets the message once, in order, up to the first one it cannot be sent to. */
    method SendToAllClients(msg: Bytes, ok: Client -> bool) returns (success: bool)
      modifies this`sent
      ensures success <==> forall c :: c in clients ==> ok(c)
      ensures old(sent) <= sent
      ensures var n := |sent| - |old(sent)|;
              && n <= |clients| && (n < |clients| ==> !ok(clients[n]))
              && forall i :: 0 <= i < n ==> ok(clients[i]) && sent[|old(sent)| + i] == (clients[i].fd, msg)
    {
      for i := 0 to |clients|
        invariant old(sent) <= sent && |sent| == |old(sent)| + i
        invariant forall j :: 0 <= j < i ==> ok(clients[j]) && sent[|old(sent)| + j] == (clients[j].fd, msg)
      {
        if !ok(clients[i]) {
          return false;
        }
        sent := sent + [(clients[i].fd, msg)];
      }
      return true;
    }
  }

  lemma {:induction false} RemoveAt(cs: seq<Client>, c: Client, k: nat)
    requires k < |cs| && cs[k].Id() == c.Id()
    requires forall j :: 0 <= j < k ==> cs[j].Id() != c.Id()
    ensures RemoveFirst(cs, c) == cs[..k] + cs[k + 1..]
  {
    if k > 0 {
      RemoveAt(cs[1..], c, k - 1);
      assert cs[1..][..k - 1] == cs[1..k] && cs[1..][k..] == cs[k + 1..];
    }
  }

  lemma {:induction false} RemoveNone(cs: seq<Client>, c: Client)
    requires forall j :: 0 <= j < |cs| ==> cs[j].Id() != c.Id()
    ensures RemoveFirst(cs, c) == cs
  {
    if cs != [] {
      RemoveNone(cs[1..], c);
    }
  }

  lemma {:induction false} RemoveById(cs: seq<Client>, c: Client, d: Client)
    requires c.Id() == d.Id()
    ensures RemoveFirst(cs, c) == RemoveFirst(cs, d)
  {
    if cs != [] {
      RemoveById(cs[1..], c, d);
    }
  }
}
