/**
 * The edge server's peer route table: `Server.peerConns`, a map from a CIDR text to
 * the UDP connection of the peer that owns that subnet, the operations that change it
 * (adding a peer with an OS route and rollback, deleting a peer, batches of adds) and
 * the destination lookup that reads it.
 *
 * The outside world enters only as answers chosen by the caller: whether resolving
 * and dialling the peer's UDP address succeeded, and whether the `route add` and
 * `route del` commands succeeded. The OS routing table is kept as a ghost set of the
 * CIDRs routed through the tunnel device.
 */
module Cframe {
  import opened Wrappers
  import opened Cidr

  /** A host record from the control plane (`codec.Host`): the two fields the server reads. */
  datatype Host = Host(hostAddr: string, cidr: string)

  /** The answers of the outside world during one add: `route del`, resolve-and-dial, `route add`. */
  datatype Effects = Effects(routeDelOk: bool, dialOk: bool, routeAddOk: bool)

  /**
   * A connected UDP socket (`*net.UDPConn`). The server only dials and closes it;
   * whether it has been closed is kept by the server, in `Server.closed`.
   */
  class UdpConn {
    const remote: string

    /** A successful `net.DialUDP` to `remote`. */
    constructor Dial(remote: string)
      ensures this.remote == remote
    {
      this.remote := remote;
    }
  }

  /** A route-table entry (`peerConn`): the connection and the CIDR it was added under. */
  datatype PeerConn = PeerConn(conn: UdpConn, cidr: string)

  // ---------------------------------------------------------------------------
  // The table seen from outside, and what each operation does to it
  // ---------------------------------------------------------------------------

  /** The peers (CIDR to remote address) and the CIDRs the OS routes into the tunnel device. */
  datatype Snapshot = Snapshot(peers: map<string, string>, routes: set<string>)

  /** `disconnPeer(cidr)` followed by `route del`. */
  function DelStep(s: Snapshot, cidr: string, routeDelOk: bool): (r: Snapshot)
  {
    Snapshot(s.peers - {cidr}, if routeDelOk then s.routes - {cidr} else s.routes)
  }

  /** `connectPeer`: an entry for the host's CIDR when the dial succeeds, nothing otherwise. */
  function ConnectStep(s: Snapshot, h: Host, dialOk: bool): (r: Snapshot)
  {
    if dialOk then s.(peers := s.peers[h.cidr := h.hostAddr]) else s
  }

  /** `route add`: the OS route on success; on failure, the rollback `disconnPeer(cidr)`. */
  function RouteAddStep(s: Snapshot, cidr: string, routeAddOk: bool): (r: Snapshot)
  {
    if routeAddOk then s.(routes := s.routes + {cidr}) else s.(peers := s.peers - {cidr})
  }

  /** `AddPeer`: delete, connect (a failure is only logged), then `route add` with rollback. */
  function AddStep(s: Snapshot, h: Host, fx: Effects): (r: Snapshot)
  {
    RouteAddStep(ConnectStep(DelStep(s, h.cidr, fx.routeDelOk), h, fx.dialOk), h.cidr, fx.routeAddOk)
  }

  /** `AddPeers`: `AddPeer` on each host in list order. */
  function AddAll(s: Snapshot, hosts: seq<Host>, fxs: seq<Effects>): (r: Snapshot)
    requires |fxs| == |hosts|
  {
    if hosts == [] then s
    else AddStep(AddAll(s, hosts[..|hosts| - 1], fxs[..|fxs| - 1]), hosts[|hosts| - 1], fxs[|fxs| - 1])
  }

  /** One more host of a batch is one more `AddStep`. */
  lemma AddAllPrefix(s: Snapshot, hosts: seq<Host>, fxs: seq<Effects>, i: nat)
    requires |fxs| == |hosts| && i < |hosts|
    ensures AddAll(s, hosts[..i + 1], fxs[..i + 1]) == AddStep(AddAll(s, hosts[..i], fxs[..i]), hosts[i], fxs[i])
  {
    assert hosts[..i + 1][..i] == hosts[..i] && fxs[..i + 1][..i] == fxs[..i];
  }

  /**
   * What one add leaves behind. An entry exists afterwards exactly when both the dial
   * and `route add` succeeded, and then it holds the new peer. A dial failure does not
   * stop the add: `route add` still runs, so the OS may route the CIDR into the tunnel
   * device while the table has no peer for it.
   */
  lemma AddStepOutcome(s: Snapshot, h: Host, fx: Effects)
    ensures var r := AddStep(s, h, fx);
      && (h.cidr in r.peers <==> fx.dialOk && fx.routeAddOk)
      && (h.cidr in r.peers ==> r.peers[h.cidr] == h.hostAddr)
      && (forall k :: k != h.cidr ==> (k in r.peers <==> k in s.peers))
      && (forall k :: k != h.cidr && k in s.peers ==> r.peers[k] == s.peers[k])
      && (h.cidr in r.routes <==> fx.routeAddOk || (h.cidr in s.routes && !fx.routeDelOk))
      && (forall k :: k != h.cidr ==> (k in r.routes <==> k in s.routes))
  {
  }

  /** A second add of the same host is decided by the second call alone. */
  lemma AddStepTwice(s: Snapshot, h: Host, fx1: Effects, fx2: Effects)
    ensures AddStep(AddStep(s, h, fx1), h, fx2).peers == AddStep(s, h, fx2).peers
    ensures fx2.routeAddOk ==> AddStep(AddStep(s, h, fx1), h, fx2) == AddStep(s, h, fx2)
  {
    var mid := AddStep(s, h, fx1);
    assert mid.peers - {h.cidr} == s.peers - {h.cidr};
    if fx2.routeAddOk {
      assert AddStep(mid, h, fx2).routes == AddStep(s, h, fx2).routes;
    }
  }

  /** An add followed by a delete of the same host leaves no peer for its CIDR and every other peer as before. */
  lemma DelAfterAdd(s: Snapshot, h: Host, fx: Effects, routeDelOk: bool)
    ensures DelStep(AddStep(s, h, fx), h.cidr, routeDelOk).peers == s.peers - {h.cidr}
  {
  }

  /** A batch leaves the entry of a CIDR none of its hosts names as it was. */
  lemma {:induction false} AddAllUntouched(s: Snapshot, hosts: seq<Host>, fxs: seq<Effects>, k: string)
    requires |fxs| == |hosts|
    requires forall i :: 0 <= i < |hosts| ==> hosts[i].cidr != k
    ensures k in AddAll(s, hosts, fxs).peers <==> k in s.peers
    ensures k in s.peers ==> AddAll(s, hosts, fxs).peers[k] == s.peers[k]
  {
    if hosts != [] {
      var n := |hosts| - 1;
      AddAllUntouched(s, hosts[..n], fxs[..n], k);
      AddStepOutcome(AddAll(s, hosts[..n], fxs[..n]), hosts[n], fxs[n]);
    }
  }

  /**
   * In a batch, the last host naming a CIDR decides its entry: there is one exactly when
   * that host's dial and `route add` both succeeded, and it points at that host.
   */
  lemma {:induction false} AddAllLastWins(s: Snapshot, hosts: seq<Host>, fxs: seq<Effects>, j: nat)
    requires |fxs| == |hosts| && j < |hosts|
    requires forall i :: j < i < |hosts| ==> hosts[i].cidr != hosts[j].cidr
    ensures hosts[j].cidr in AddAll(s, hosts, fxs).peers <==> fxs[j].dialOk && fxs[j].routeAddOk
    ensures hosts[j].cidr in AddAll(s, hosts, fxs).peers ==> AddAll(s, hosts, fxs).peers[hosts[j].cidr] == hosts[j].hostAddr
  {
    var n := |hosts| - 1;
    var before := AddAll(s, hosts[..n], fxs[..n]);
    AddStepOutcome(before, hosts[n], fxs[n]);
    if j < n {
      AddAllLastWins(s, hosts[..n], fxs[..n], j);
    }
  }

  /** The peers of a table: each CIDR with the remote address its connection was dialled to. */
  function Remotes(table: map<string, PeerConn>): (peers: map<string, string>)
  {
    map k | k in table :: table[k].conn.remote
  }

  /** The connections a table holds. */
  ghost function ConnsOf(table: map<string, PeerConn>): (conns: set<UdpConn>)
  {
    set k | k in table :: table[k].conn
  }

  /** The CIDRs a list of hosts names. */
  function CidrsOf(hosts: seq<Host>): (cidrs: set<string>)
  {
    set h | h in hosts :: h.cidr
  }

  lemma CidrsOfPrefix(hosts: seq<Host>, i: nat)
    requires i < |hosts|
    ensures CidrsOf(hosts[..i + 1]) == CidrsOf(hosts[..i]) + {hosts[i].cidr}
  {
    assert hosts[..i + 1] == hosts[..i] + [hosts[i]];
  }

  /**
   * Part way through a batch that started from table `orig` and has so far named the
   * CIDRs `named`: every connection `orig` held under a named CIDR is closed, every
   * entry under a named CIDR holds a connection the batch dialled (`added`), and the
   * entries of the other CIDRs are those of `orig`.
   */
  ghost predicate BatchSoFar(orig: map<string, PeerConn>, table: map<string, PeerConn>, named: set<string>,
                             closed: set<UdpConn>, added: set<UdpConn>)
  {
    && (forall k :: k in orig && k in named ==> orig[k].conn in closed)
    && (forall k :: k in table && k in named ==> table[k].conn in added)
    && (forall k :: k in orig && k !in named ==> k in table && table[k] == orig[k])
  }

  /**
   * One more add keeps `BatchSoFar`, with its CIDR now named: it closes the connection
   * stored under the CIDR and then either leaves the CIDR out or stores a new
   * connection there.
   */
  lemma BatchStep(orig: map<string, PeerConn>, table: map<string, PeerConn>, table': map<string, PeerConn>,
                  named: set<string>, cidr: string,
                  closed: set<UdpConn>, closed': set<UdpConn>, added: set<UdpConn>, added': set<UdpConn>)
    requires BatchSoFar(orig, table, named, closed, added)
    requires closed <= closed' && added <= added'
    requires cidr in table ==> table[cidr].conn in closed'
    requires table' == table - {cidr} || (cidr in table' && table' == table[cidr := table'[cidr]] && table'[cidr].conn in added')
    ensures BatchSoFar(orig, table', named + {cidr}, closed', added')
  {
    forall k | k in orig && k in named + {cidr} ensures orig[k].conn in closed' {
      if k !in named {
        assert k == cidr && table[k] == orig[k];
      }
    }
  }

  /** Taking a key out of a table that gained at most that key gives the table back. */
  lemma RemoveInserted(table: map<string, PeerConn>, key: string, grown: map<string, PeerConn>)
    requires key !in table
    requires grown == table || (key in grown && grown == table[key := grown[key]])
    ensures grown - {key} == table
  {
  }

  /** Replacing an entry is removing it and inserting the new one. */
  lemma InsertAfterRemove(table: map<string, PeerConn>, key: string, p: PeerConn)
    ensures (table - {key})[key := p] == table[key := p]
  {
  }

  lemma RemotesRemove(table: map<string, PeerConn>, key: string)
    ensures Remotes(table - {key}) == Remotes(table) - {key}
  {
  }

  lemma RemotesUpdate(table: map<string, PeerConn>, key: string, p: PeerConn)
    ensures Remotes(table[key := p]) == Remotes(table)[key := p.conn.remote]
  {
  }

  // ---------------------------------------------------------------------------
  // The server
  // ---------------------------------------------------------------------------

  class Server {
    /** The UDP address the server listens on. */
    const laddr: string
    /** The route table: CIDR text to peer connection. */
    var peerConns: map<string, PeerConn>
    /** The CIDRs the OS routes into the tunnel device. */
    ghost var tunRoutes: set<string>
    /** Every connection this server has dialled. */
    ghost var dialled: set<UdpConn>
    /** The connections on which `Close` has been called. */
    ghost var closed: set<UdpConn>

    ghost function Conns(): (conns: set<UdpConn>)
      reads this`peerConns
    {
      ConnsOf(peerConns)
    }

    /**
     * Each entry is keyed by its own CIDR, holds an open connection this server dialled,
     * and no two entries share a connection.
     */
    ghost predicate Consistent()
      reads this`peerConns, this`dialled, this`closed
    {
      && (forall k :: k in peerConns ==> peerConns[k].cidr == k)
      && (forall k :: k in peerConns ==> peerConns[k].conn in dialled && peerConns[k].conn !in closed)
      && (forall k1, k2 :: k1 in peerConns && k2 in peerConns && peerConns[k1].conn == peerConns[k2].conn ==> k1 == k2)
    }

    /** Every dialled connection that is still open is in the table: no socket leaks. */
    ghost predicate NoLeak()
      reads this`peerConns, this`dialled, this`closed
    {
      forall c :: c in dialled && c !in closed ==> c in Conns()
    }

    ghost predicate Valid()
      reads this`peerConns, this`dialled, this`closed
    {
      Consistent() && NoLeak()
    }

    ghost function Abstract(): (snap: Snapshot)
      reads this`peerConns, this`tunRoutes
    {
      Snapshot(Remotes(peerConns), tunRoutes)
    }

    /** `NewServer`: an empty route table; the OS routes are whatever they were. */
    constructor (laddr: string, ghost routes: set<string>)
      ensures Valid()
      ensures this.laddr == laddr && peerConns == map[] && tunRoutes == routes
      ensures dialled == {} && closed == {}
    {
      this.laddr := laddr;
      peerConns := map[];
      tunRoutes := routes;
      dialled := {};
      closed := {};
    }

    /**
     * `route`: visit the entries in an unspecified order and return the connection of
     * the first whose network contains `dst`; "no route" when none does.
     */
    method Route(dst: string) returns (r: Result<UdpConn>)
      ensures r.Ok? ==> exists k :: k in peerConns && peerConns[k].conn == r.value && Claims(peerConns[k].cidr, dst)
      ensures r.Err? ==> r.error == "no route" && forall k :: k in peerConns ==> !Claims(peerConns[k].cidr, dst)
    {
      var unvisited := peerConns.Keys;
      while unvisited != {}
        invariant unvisited <= peerConns.Keys
        invariant forall k :: k in peerConns && k !in unvisited ==> !Claims(peerConns[k].cidr, dst)
        decreases unvisited
      {
        var k :| k in unvisited;
        var p := peerConns[k];
        MatchesIffClaims(p.cidr, dst);
        if Matches(p.cidr, dst) {
          return Ok(p.conn);
        }
        unvisited := unvisited - {k};
      }
      return Err("no route");
    }

    /** `disconnPeer`: close the connection stored under `key`, if any, and remove the entry. */
    method DisconnPeer(key: string)
      requires Consistent()
      modifies this`peerConns, this`closed
      ensures Consistent()
      ensures peerConns == old(peerConns) - {key}
      ensures closed == old(closed) + (if key in old(peerConns) then {old(peerConns)[key].conn} else {})
      ensures old(NoLeak()) ==> NoLeak()
    {
      ghost var before := peerConns;
      if key in peerConns {
        closed := closed + {peerConns[key].conn};
      }
      peerConns := peerConns - {key};
      if old(NoLeak()) {
        forall c | c in dialled && c !in closed ensures c in Conns() {
          var k :| k in before && before[k].conn == c;
          assert k in peerConns;
        }
      }
    }

    /** `connectPeer`: on a successful dial, a new open connection stored under the host's CIDR. */
    method ConnectPeer(node: Host, dialOk: bool) returns (ok: bool)
      requires Consistent()
      modifies this`peerConns, this`dialled
      ensures Consistent()
      ensures ok == dialOk
      ensures !ok ==> peerConns == old(peerConns) && dialled == old(dialled)
      ensures ok ==> node.cidr in peerConns
      ensures ok ==> var c := peerConns[node.cidr].conn;
        && fresh(c) && c.remote == node.hostAddr
        && peerConns == old(peerConns)[node.cidr := PeerConn(c, node.cidr)]
        && dialled == old(dialled) + {c}
      ensures old(NoLeak()) && node.cidr !in old(peerConns) ==> NoLeak()
    {
      if !dialOk {
        return false;
      }
      ghost var before := peerConns;
      var conn := new UdpConn.Dial(node.hostAddr);
      var peer := PeerConn(conn, node.cidr);
      peerConns := peerConns[peer.cidr := peer];
      dialled := dialled + {conn};
      ok := true;
      if old(NoLeak()) && node.cidr !in before {
        forall c | c in dialled && c !in closed ensures c in Conns() {
          if c != conn {
            var k :| k in before && before[k].conn == c;
            assert k in peerConns && peerConns[k].conn == c;
          } else {
            assert peerConns[node.cidr].conn == c;
          }
        }
      }
    }

    /** `DelPeer`: disconnect the CIDR's peer, then `route del` (whose failure is ignored). */
    method DelPeer(peer: Host, routeDelOk: bool)
      requires Valid()
      modifies this`peerConns, this`tunRoutes, this`closed
      ensures Valid()
      ensures Abstract() == DelStep(old(Abstract()), peer.cidr, routeDelOk)
      ensures peerConns == old(peerConns) - {peer.cidr}
      ensures closed == old(closed) + (if peer.cidr in old(peerConns) then {old(peerConns)[peer.cidr].conn} else {})
    {
      DisconnPeer(peer.cidr);
      if routeDelOk {
        tunRoutes := tunRoutes - {peer.cidr};
      }
      RemotesRemove(old(peerConns), peer.cidr);
    }

    /**
     * `AddPeer`: delete any peer for the CIDR, dial the new one (a failure is only
     * logged), then `route add`; if that fails, disconnect the CIDR again. `conn` is the
     * connection dialled, if the dial succeeded.
     */
    method AddPeer(peer: Host, fx: Effects) returns (ghost conn: UdpConn?)
      requires Valid()
      modifies this`peerConns, this`tunRoutes, this`dialled, this`closed
      ensures Valid()
      ensures Abstract() == AddStep(old(Abstract()), peer, fx)
      ensures fx.dialOk <==> conn != null
      ensures conn != null ==> fresh(conn) && conn.remote == peer.hostAddr && (conn in closed <==> !fx.routeAddOk)
      ensures dialled == old(dialled) + (if conn != null then {conn} else {})
      ensures fx.dialOk && fx.routeAddOk ==> conn != null && peerConns == old(peerConns)[peer.cidr := PeerConn(conn, peer.cidr)]
      ensures !(fx.dialOk && fx.routeAddOk) ==> peerConns == old(peerConns) - {peer.cidr}
      ensures peer.cidr in old(peerConns) ==> old(peerConns)[peer.cidr].conn in closed
      ensures old(closed) <= closed && closed - old(closed) <= ConnsOf(old(peerConns)) + (dialled - old(dialled))
    {
      ghost var start := peerConns;
      DelPeer(peer, fx.routeDelOk);
      ghost var deleted, table := Abstract(), peerConns;
      var ok := ConnectPeer(peer, fx.dialOk);
      conn := if ok then peerConns[peer.cidr].conn else null;
      if ok {
        RemotesUpdate(table, peer.cidr, peerConns[peer.cidr]);
      }
      assert Abstract() == ConnectStep(deleted, peer, fx.dialOk);
      if !fx.routeAddOk {
        ghost var connected := peerConns;
        DisconnPeer(peer.cidr);
        RemotesRemove(connected, peer.cidr);
        RemoveInserted(table, peer.cidr, connected);
        return;
      }
      tunRoutes := tunRoutes + {peer.cidr};
      if ok {
        InsertAfterRemove(start, peer.cidr, peerConns[peer.cidr]);
      }
    }

    /**
     * `AddPeers`: `AddPeer` on each host in list order; one host's failure does not stop
     * the rest. Every connection that was stored under a CIDR the batch names is closed,
     * an entry under such a CIDR holds a connection the batch dialled, and the entries
     * of the other CIDRs are kept as they were.
     */
    method AddPeers(peers: seq<Host>, fxs: seq<Effects>)
      requires Valid()
      requires |fxs| == |peers|
      modifies this`peerConns, this`tunRoutes, this`dialled, this`closed
      ensures Valid()
      ensures Abstract() == AddAll(old(Abstract()), peers, fxs)
      ensures old(dialled) <= dialled && fresh(dialled - old(dialled))
      ensures old(closed) <= closed
      ensures forall k :: k in old(peerConns) && k in CidrsOf(peers) ==> old(peerConns)[k].conn in closed
      ensures forall k :: k in peerConns && k in CidrsOf(peers) ==> peerConns[k].conn in dialled - old(dialled)
      ensures forall k :: k in old(peerConns) && k !in CidrsOf(peers) ==> k in peerConns && peerConns[k] == old(peerConns)[k]
    {
      ghost var added: set<UdpConn> := {};
      for i := 0 to |peers|
        invariant Valid()
        invariant Abstract() == AddAll(old(Abstract()), peers[..i], fxs[..i])
        invariant dialled == old(dialled) + added && fresh(added)
        invariant old(closed) <= closed
        invariant BatchSoFar(old(peerConns), peerConns, CidrsOf(peers[..i]), closed, added)
      {
        CidrsOfPrefix(peers, i);
        AddAllPrefix(old(Abstract()), peers, fxs, i);
        ghost var table, closedBefore, dialledBefore, addedBefore := peerConns, closed, dialled, added;
        ghost var conn := AddPeer(peers[i], fxs[i]);
        added := added + (dialled - dialledBefore);
        BatchStep(old(peerConns), table, peerConns, CidrsOf(peers[..i]), peers[i].cidr, closedBefore, closed, addedBefore, added);
      }
      assert peers[..|peers|] == peers && fxs[..|fxs|] == fxs;
    }
  }
}
