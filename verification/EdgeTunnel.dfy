/**
  The identity maps of the tunnel (libp2p/test/udp/tunnel): one node as an object, and a network of
  any number of nodes exchanging discovery messages.
 */
module EdgeTunnel {
  import opened Options

  type PeerID = string
  type Maddr = string

  /**
    The library calls, of which nothing is assumed: the peer ID derived from a node name, which may
    fail, the multiaddress of transport, host and port, which may fail, and the two address filters.
   */
  datatype Env = Env(
    peerID: string -> Option<PeerID>,
    multiaddr: (string, string, int) -> Option<Maddr>,
    isPrivate: Maddr -> bool,
    isCircuit: Maddr -> bool)

  datatype AddrInfo = AddrInfo(id: PeerID, addrs: seq<Maddr>)
  datatype RelayNode = RelayNode(nodeName: string, advertiseAddress: seq<string>)
  type RelayMap = map<string, AddrInfo>

  datatype NodeConfig = NodeConfig(nodeName: string, transport: string, listenPort: int, serverClient: bool)

  datatype Node = Node(
    config: NodeConfig, hostID: PeerID, peers: map<string, PeerID>, relays: RelayMap, isRelay: bool, relayService: bool)

  // --------------------------------------------------------------- relay map

  function Maddrs(env: Env, transport: string, port: int, addrs: seq<string>): Option<seq<Maddr>> {
    if addrs == [] then Some([])
    else
      match (Maddrs(env, transport, port, addrs[..|addrs| - 1]), env.multiaddr(transport, addrs[|addrs| - 1], port))
      case (Some(init), Some(last)) => Some(init + [last])
      case _ => None
  }

  /** The relay map of a configuration: later entries of a node name replace earlier ones. */
  function GeneratedRelays(env: Env, nodes: seq<RelayNode>, transport: string, port: int): RelayMap {
    if nodes == [] then map[]
    else
      var relays := GeneratedRelays(env, nodes[..|nodes| - 1], transport, port);
      var node := nodes[|nodes| - 1];
      match (env.peerID(node.nodeName), Maddrs(env, transport, port, node.advertiseAddress))
      case (Some(id), Some(addrs)) => relays[node.nodeName := AddrInfo(id, addrs)]
      case _ => relays
  }

  method GenerateRelayMap(env: Env, nodes: seq<RelayNode>, transport: string, port: int) returns (relays: RelayMap)
    ensures relays == GeneratedRelays(env, nodes, transport, port)
  {
    relays := map[];
    for k := 0 to |nodes|
      invariant relays == GeneratedRelays(env, nodes[..k], transport, port)
    {
      var node := nodes[k];
      assert nodes[..k + 1][..k] == nodes[..k];
      var id := env.peerID(node.nodeName);
      if id.None? {
        continue;
      }
      var maddrs := [];
      var failed := false;
      for i := 0 to |node.advertiseAddress|
        invariant Maddrs(env, transport, port, node.advertiseAddress[..i]) == if failed then None else Some(maddrs)
      {
        assert node.advertiseAddress[..i + 1][..i] == node.advertiseAddress[..i];
        var maddr := env.multiaddr(transport, node.advertiseAddress[i], port);
        if maddr.Some? {
          maddrs := maddrs + [maddr.value];
        } else {
          failed := true;
        }
      }
      assert node.advertiseAddress[..|node.advertiseAddress|] == node.advertiseAddress;
      if failed {
        continue;
      }
      relays := relays[node.nodeName := AddrInfo(id.value, maddrs)];
    }
    assert nodes[..|nodes|] == nodes;
  }

  // --------------------------------------------------- effects on one node

  function Kept(addrs: seq<Maddr>, drop: Maddr -> bool): seq<Maddr> {
    if addrs == [] then []
    else
      var init := Kept(addrs[..|addrs| - 1], drop);
      if drop(addrs[|addrs| - 1]) then init else init + [addrs[|addrs| - 1]]
  }

  function Merged(addrs: seq<Maddr>, more: seq<Maddr>): seq<Maddr> {
    if more == [] then addrs
    else
      var init := Merged(addrs, more[..|more| - 1]);
      if more[|more| - 1] in init then init else init + [more[|more| - 1]]
  }

  function Public(env: Env, addrs: seq<Maddr>): seq<Maddr> {
    Kept(Kept(addrs, env.isPrivate), env.isCircuit)
  }

  /** refreshRelayMap. */
  function Refreshed(env: Env, n: Node, nodeName: string, peer: AddrInfo): Node {
    var addrs := Public(env, peer.addrs);
    if nodeName !in n.relays then n.(relays := n.relays[nodeName := AddrInfo(peer.id, addrs)])
    else
      var relay := n.relays[nodeName];
      n.(relays := n.relays[nodeName := AddrInfo(relay.id, Merged(relay.addrs, addrs))])
  }

  /** (Re)mapping of a name after a discovery handshake, on either side. */
  function Mapped(n: Node, nodeName: string, id: PeerID): Node {
    n.(peers := n.peers[nodeName := id])
  }

  /** GetProxyStream up to the stream: the peer the stream is opened to, and the new map. */
  function ProxyTarget(env: Env, n: Node, destName: string): Option<PeerID> {
    if destName in n.peers then Some(n.peers[destName]) else env.peerID(destName)
  }

  function Proxied(env: Env, n: Node, destName: string): Node {
    if destName in n.peers || env.peerID(destName).None? then n else Mapped(n, destName, env.peerID(destName).value)
  }

  /** doReload; startOk and closeOk say whether the relay service could be started or closed. */
  function Reloaded(env: Env, n: Node, nodes: seq<RelayNode>, startOk: bool, closeOk: bool): Node {
    var n' := n.(relays := GeneratedRelays(env, nodes, n.config.transport, n.config.listenPort));
    if n.config.nodeName in n'.relays then
      if !n.relayService && n.config.serverClient && startOk then n'.(relayService := true, isRelay := true) else n'
    else
      if n.relayService && n.config.serverClient && closeOk then n'.(relayService := false, isRelay := false) else n'
  }

  /** newEdgeTunnel, once a key pair could be made from the name. */
  function NewNode(env: Env, config: NodeConfig, id: PeerID, nodes: seq<RelayNode>): Node {
    var relays := GeneratedRelays(env, nodes, config.transport, config.listenPort);
    var isRelay := config.nodeName in relays;
    Node(config, id, map[], relays, isRelay, isRelay && config.serverClient)
  }

  class EdgeTunnel {
    const config: NodeConfig
    const hostID: PeerID
    var nodePeerMap: map<string, PeerID>
    var relayMap: RelayMap
    var isRelay: bool
    var relayService: bool

    function View(): Node
      reads this
    {
      Node(config, hostID, nodePeerMap, relayMap, isRelay, relayService)
    }

    constructor (env: Env, config: NodeConfig, id: PeerID, nodes: seq<RelayNode>)
      requires env.peerID(config.nodeName) == Some(id)
      ensures View() == NewNode(env, config, id, nodes) && NodeInv(env, View())
    {
      NewNodeInv(env, config, nodes);
      this.config, hostID, nodePeerMap := config, id, map[];
      relayMap := GeneratedRelays(env, nodes, config.transport, config.listenPort);
      isRelay := config.nodeName in GeneratedRelays(env, nodes, config.transport, config.listenPort);
      relayService :=
        config.serverClient && config.nodeName in GeneratedRelays(env, nodes, config.transport, config.listenPort);
    }

    /** discovery of the peer id, whose reply over the stream names nodeName if it is a success. */
    method DiscoveryReply(nodeName: string, id: PeerID, success: bool)
      modifies this`nodePeerMap
      ensures View() == if id == hostID || !success then old(View()) else Mapped(old(View()), nodeName, id)
    {
      if id == hostID {
        return;
      }
      if !success {
        return;
      }
      nodePeerMap := nodePeerMap[nodeName := id];
    }

    /** remoteID is what the connection authenticated, nodeName what the message says. */
    method DiscoveryStreamHandler(remoteID: PeerID, isConnect: bool, nodeName: string) returns (reply: Option<string>)
      modifies this`nodePeerMap
      ensures reply == if isConnect then Some(config.nodeName) else None
      ensures View() == if isConnect then Mapped(old(View()), nodeName, remoteID) else old(View())
    {
      if !isConnect {
        return None;
      }
      reply := Some(config.nodeName);
      nodePeerMap := nodePeerMap[nodeName := remoteID];
    }

    method GetProxyStream(env: Env, destName: string) returns (destID: Option<PeerID>)
      modifies this`nodePeerMap
      ensures destID == ProxyTarget(env, old(View()), destName) && View() == Proxied(env, old(View()), destName)
    {
      if destName !in nodePeerMap {
        destID := env.peerID(destName);
        if destID.None? {
          return;
        }
        nodePeerMap := nodePeerMap[destName := destID.value];
      } else {
        destID := Some(nodePeerMap[destName]);
      }
    }

    /** Ranges over the map in any order and returns the first name found for the ID. */
    method NodeNameFromPeerID(id: PeerID) returns (nodeName: string, found: bool)
      ensures found ==> nodeName in nodePeerMap && nodePeerMap[nodeName] == id
      ensures !found ==> forall n :: n in nodePeerMap ==> nodePeerMap[n] != id
    {
      var left := nodePeerMap.Keys;
      while left != {}
        invariant left <= nodePeerMap.Keys
        invariant forall n :: n in nodePeerMap && n !in left ==> nodePeerMap[n] != id
        decreases |left|
      {
        var n :| n in left;
        if nodePeerMap[n] == id {
          return n, true;
        }
        left := left - {n};
      }
      return "", false;
    }

    method RefreshRelayMap(env: Env, nodeName: string, dhtPeer: AddrInfo)
      modifies this`relayMap
      ensures View() == Refreshed(env, old(View()), nodeName, dhtPeer)
    {
      var addrs := Filter(dhtPeer.addrs, env.isPrivate);
      addrs := Filter(addrs, env.isCircuit);
      if nodeName !in relayMap {
        relayMap := relayMap[nodeName := AddrInfo(dhtPeer.id, addrs)];
        return;
      }
      var relay := relayMap[nodeName];
      var merged := relay.addrs;
      for i := 0 to |addrs|
        invariant merged == Merged(relay.addrs, addrs[..i]) && relayMap == old(relayMap)
      {
        assert addrs[..i + 1][..i] == addrs[..i];
        if addrs[i] !in merged {
          merged := merged + [addrs[i]];
        }
      }
      assert addrs[..|addrs|] == addrs;
      relayMap := relayMap[nodeName := AddrInfo(relay.id, merged)];
    }

    /** One round of the relay finder over the closest peers and their stored addresses. */
    method FindRelays(env: Env, closestPeers: seq<AddrInfo>)
      requires NodeInv(env, View())
      modifies this`relayMap
      ensures NodeInv(env, View()) && View() == old(View()).(relays := relayMap)
      ensures RelaysGrow(old(relayMap), relayMap)
      ensures forall i :: 0 <= i < |closestPeers| ==> Listed(relayMap, nodePeerMap, closestPeers[i])
      ensures forall name :: name in relayMap && name !in old(relayMap) ==> Named(nodePeerMap, closestPeers, name)
    {
      hide NodeInv, RelaysGrow, Listed, Named;
      FoundNone(relayMap, nodePeerMap, closestPeers);
      for k := 0 to |closestPeers|
        invariant NodeInv(env, View()) && View() == old(View()).(relays := relayMap)
        invariant FoundUpTo(old(relayMap), relayMap, nodePeerMap, closestPeers, k)
      {
        var dhtPeer := closestPeers[k];
        if dhtPeer.addrs == [] {
          FoundNobody(old(relayMap), relayMap, nodePeerMap, closestPeers, k);
          continue;
        }
        var nodeName, found := NodeNameFromPeerID(dhtPeer.id);
        if found {
          RefreshKeeps(env, View(), nodeName, dhtPeer);
          RefreshGrows(env, View(), nodeName, dhtPeer);
          RefreshFrame(env, View(), nodeName, dhtPeer);
          ghost var before := relayMap;
          RefreshRelayMap(env, nodeName, dhtPeer);
          FoundStep(old(relayMap), before, relayMap, nodePeerMap, closestPeers, k, nodeName);
        } else {
          FoundNobody(old(relayMap), relayMap, nodePeerMap, closestPeers, k);
        }
      }
    }

    method DoReload(env: Env, nodes: seq<RelayNode>, startOk: bool, closeOk: bool)
      modifies this`relayMap, this`relayService, this`isRelay
      ensures View() == Reloaded(env, old(View()), nodes, startOk, closeOk)
    {
      relayMap := GenerateRelayMap(env, nodes, config.transport, config.listenPort);
      if config.nodeName in relayMap {
        if !relayService && config.serverClient {
          if startOk {
            relayService := true;
            isRelay := true;
          }
        }
      } else {
        if relayService && config.serverClient {
          if closeOk {
            isRelay := false;
            relayService := false;
          }
        }
      }
    }
  }

  /** newEdgeTunnel up to the failures of its libraries: without a key pair for the name there is no tunnel. */
  method NewEdgeTunnel(env: Env, config: NodeConfig, nodes: seq<RelayNode>) returns (tunnel: EdgeTunnel?)
    ensures tunnel == null <==> env.peerID(config.nodeName).None?
    ensures tunnel != null ==>
              fresh(tunnel) && tunnel.View() == NewNode(env, config, env.peerID(config.nodeName).value, nodes)
              && NodeInv(env, tunnel.View())
  {
    var id := env.peerID(config.nodeName);
    if id.None? {
      return null;
    }
    tunnel := new EdgeTunnel(env, config, id.value, nodes);
  }

  method Filter(maddrs: seq<Maddr>, drop: Maddr -> bool) returns (result: seq<Maddr>)
    ensures result == Kept(maddrs, drop)
  {
    result := [];
    for i := 0 to |maddrs|
      invariant result == Kept(maddrs[..i], drop)
    {
      assert maddrs[..i + 1][..i] == maddrs[..i];
      if !drop(maddrs[i]) {
        result := result + [maddrs[i]];
      }
    }
    assert maddrs[..|maddrs|] == maddrs;
  }

  // ------------------------------------------------------- identity of one node

  ghost predicate PeersHonest(env: Env, n: Node) {
    forall name :: name in n.peers ==> env.peerID(name) == Some(n.peers[name])
  }

  ghost predicate RelaysHonest(env: Env, relays: RelayMap) {
    forall name :: name in relays ==> env.peerID(name) == Some(relays[name].id)
  }

  predicate ServiceConsistent(n: Node) {
    if n.config.serverClient then n.relayService == n.isRelay else !n.relayService
  }

  ghost predicate NodeInv(env: Env, n: Node) {
    && env.peerID(n.config.nodeName) == Some(n.hostID)
    && PeersHonest(env, n) && RelaysHonest(env, n.relays) && ServiceConsistent(n)
  }

  lemma {:induction false} GeneratedHonest(env: Env, nodes: seq<RelayNode>, transport: string, port: int)
    ensures RelaysHonest(env, GeneratedRelays(env, nodes, transport, port))
  {
    if nodes != [] {
      GeneratedHonest(env, nodes[..|nodes| - 1], transport, port);
    }
  }

  /** The entry of a listed node: its ID and all its addresses can be made. */
  predicate Makes(env: Env, node: RelayNode, transport: string, port: int) {
    env.peerID(node.nodeName).Some?
    && forall i :: 0 <= i < |node.advertiseAddress| ==> env.multiaddr(transport, node.advertiseAddress[i], port).Some?
  }

  /** info holds the ID of the node's name and the converted addresses of the node, one by one. */
  predicate EntryOf(env: Env, node: RelayNode, transport: string, port: int, info: AddrInfo) {
    && env.peerID(node.nodeName) == Some(info.id) && |info.addrs| == |node.advertiseAddress|
    && forall i :: 0 <= i < |info.addrs| ==>
         env.multiaddr(transport, node.advertiseAddress[i], port) == Some(info.addrs[i])
  }

  lemma {:induction false} MaddrsExactly(env: Env, transport: string, port: int, addrs: seq<string>)
    ensures Maddrs(env, transport, port, addrs).Some? <==>
            forall i :: 0 <= i < |addrs| ==> env.multiaddr(transport, addrs[i], port).Some?
    ensures Maddrs(env, transport, port, addrs).Some? ==>
              var made := Maddrs(env, transport, port, addrs).value;
              |made| == |addrs|
              && forall i :: 0 <= i < |addrs| ==> env.multiaddr(transport, addrs[i], port) == Some(made[i])
  {
    if addrs != [] {
      var init, last := addrs[..|addrs| - 1], addrs[|addrs| - 1];
      MaddrsExactly(env, transport, port, init);
      assert forall i :: 0 <= i < |init| ==> init[i] == addrs[i];
      assert addrs[|init|] == last;
    }
  }

  /** The last listed node of a name that can be made. */
  ghost predicate LastMade(env: Env, nodes: seq<RelayNode>, transport: string, port: int, name: string, k: nat) {
    && k < |nodes| && nodes[k].nodeName == name && Makes(env, nodes[k], transport, port)
    && forall j :: k < j < |nodes| && nodes[j].nodeName == name ==> !Makes(env, nodes[j], transport, port)
  }

  /**
    The relay map of a configuration: a name is in it exactly when a listed node of that name has an
    ID and only good addresses, and its entry is that of the last such node, with all its addresses.
   */
  lemma {:induction false} RelayEntries(env: Env, nodes: seq<RelayNode>, transport: string, port: int, name: string)
    ensures var relays := GeneratedRelays(env, nodes, transport, port);
            && (name in relays <==> exists k :: 0 <= k < |nodes| && nodes[k].nodeName == name
                                                && Makes(env, nodes[k], transport, port))
            && (name in relays ==> exists k: nat :: LastMade(env, nodes, transport, port, name, k)
                                                    && EntryOf(env, nodes[k], transport, port, relays[name]))
  {
    if nodes != [] {
      var init, node := nodes[..|nodes| - 1], nodes[|nodes| - 1];
      RelayEntries(env, init, transport, port, name);
      RelayOfLast(env, nodes, transport, port, name);
      if !(node.nodeName == name && Makes(env, node, transport, port)) {
        RelayOfEarlier(env, nodes, transport, port, name);
      }
    }
  }

  lemma RelayOfLast(env: Env, nodes: seq<RelayNode>, transport: string, port: int, name: string)
    requires nodes != []
    ensures var node, relays := nodes[|nodes| - 1], GeneratedRelays(env, nodes, transport, port);
            if node.nodeName == name && Makes(env, node, transport, port) then
              name in relays && EntryOf(env, node, transport, port, relays[name])
              && LastMade(env, nodes, transport, port, name, |nodes| - 1)
            else
              var before := GeneratedRelays(env, nodes[..|nodes| - 1], transport, port);
              (name in relays <==> name in before) && (name in relays ==> relays[name] == before[name])
  {
    MaddrsExactly(env, transport, port, nodes[|nodes| - 1].advertiseAddress);
  }

  lemma RelayOfEarlier(env: Env, nodes: seq<RelayNode>, transport: string, port: int, name: string)
    requires nodes != []
    requires !(nodes[|nodes| - 1].nodeName == name && Makes(env, nodes[|nodes| - 1], transport, port))
    ensures forall k: nat :: LastMade(env, nodes[..|nodes| - 1], transport, port, name, k) ==>
              LastMade(env, nodes, transport, port, name, k) && nodes[..|nodes| - 1][k] == nodes[k]
    ensures forall k :: 0 <= k < |nodes| && nodes[k].nodeName == name && Makes(env, nodes[k], transport, port) ==>
              k < |nodes| - 1 && nodes[..|nodes| - 1][k] == nodes[k]
  {
  }

  /**
    Neither side of a handshake compares the name in the message with the authenticated ID. The maps
    stay right exactly when the name is the one the ID was derived from.
   */
  lemma MappedKeepsIff(env: Env, n: Node, nodeName: string, id: PeerID)
    requires NodeInv(env, n)
    ensures NodeInv(env, Mapped(n, nodeName, id)) <==> env.peerID(nodeName) == Some(id)
  {
    assert nodeName in Mapped(n, nodeName, id).peers;
  }

  /** The cache is transparent: the stream goes to the peer derived from the name, or the call fails as without it. */
  lemma ProxyIsTransparent(env: Env, n: Node, destName: string)
    requires NodeInv(env, n)
    ensures ProxyTarget(env, n, destName) == env.peerID(destName)
    ensures NodeInv(env, Proxied(env, n, destName))
    ensures env.peerID(destName).Some? ==> destName in Proxied(env, n, destName).peers
  {
  }

  lemma RefreshKeeps(env: Env, n: Node, nodeName: string, peer: AddrInfo)
    requires NodeInv(env, n) && nodeName in n.peers && n.peers[nodeName] == peer.id
    ensures NodeInv(env, Refreshed(env, n, nodeName, peer))
  {
  }

  lemma ReloadKeeps(env: Env, n: Node, nodes: seq<RelayNode>, startOk: bool, closeOk: bool)
    requires NodeInv(env, n)
    ensures NodeInv(env, Reloaded(env, n, nodes, startOk, closeOk))
  {
    GeneratedHonest(env, nodes, n.config.transport, n.config.listenPort);
  }

  /** The name of the node is listed with an ID and good addresses only. */
  predicate ListsItself(env: Env, config: NodeConfig, nodes: seq<RelayNode>) {
    exists k :: 0 <= k < |nodes| && nodes[k].nodeName == config.nodeName
                && Makes(env, nodes[k], config.transport, config.listenPort)
  }

  /**
    After a reload the relay map is that of the new file alone. A server that is listed runs the relay
    service if it did or could start it, one that is not stops it if it can; isRelay follows the
    service where that changes, and nothing else of the node does.
   */
  lemma ReloadDecidesService(env: Env, n: Node, nodes: seq<RelayNode>, startOk: bool, closeOk: bool)
    ensures var n' := Reloaded(env, n, nodes, startOk, closeOk);
            && n'.relays == GeneratedRelays(env, nodes, n.config.transport, n.config.listenPort)
            && n'.config == n.config && n'.hostID == n.hostID && n'.peers == n.peers
            && (!n.config.serverClient ==> n'.relayService == n.relayService)
            && (n.config.serverClient ==>
                  (n'.relayService <==> if ListsItself(env, n.config, nodes) then n.relayService || startOk
                                        else n.relayService && !closeOk))
            && n'.isRelay == (if n'.relayService == n.relayService then n.isRelay else n'.relayService)
  {
    RelayEntries(env, nodes, n.config.transport, n.config.listenPort, n.config.nodeName);
  }

  /** How a node starts: nobody mapped, the relays of its file, and a relay if it is listed itself. */
  lemma NewNodeStarts(env: Env, config: NodeConfig, id: PeerID, nodes: seq<RelayNode>)
    ensures var n := NewNode(env, config, id, nodes);
            && n.config == config && n.hostID == id && n.peers == map[]
            && n.relays == GeneratedRelays(env, nodes, config.transport, config.listenPort)
            && (n.isRelay <==> ListsItself(env, config, nodes))
            && (n.relayService <==> ListsItself(env, config, nodes) && config.serverClient)
  {
    RelayEntries(env, nodes, config.transport, config.listenPort, config.nodeName);
  }

  lemma {:induction false} KeptAppend(addrs: seq<Maddr>, more: seq<Maddr>, drop: Maddr -> bool)
    ensures Kept(addrs + more, drop) == Kept(addrs, drop) + Kept(more, drop)
    decreases |more|
  {
    if more == [] {
      assert addrs + more == addrs;
    } else {
      var init, last := more[..|more| - 1], more[|more| - 1];
      KeptAppend(addrs, init, drop);
      assert (addrs + more)[..|addrs + more| - 1] == addrs + init;
    }
  }

  lemma {:induction false} KeptCount(addrs: seq<Maddr>, drop: Maddr -> bool, a: Maddr)
    ensures multiset(Kept(addrs, drop))[a] == if drop(a) then 0 else multiset(addrs)[a]
  {
    if addrs != [] {
      KeptCount(addrs[..|addrs| - 1], drop, a);
      assert addrs == addrs[..|addrs| - 1] + [addrs[|addrs| - 1]];
    }
  }

  lemma KeptMember(addrs: seq<Maddr>, drop: Maddr -> bool, a: Maddr)
    ensures a in Kept(addrs, drop) <==> a in addrs && !drop(a)
  {
    hide Kept;
    KeptCount(addrs, drop, a);
    assert a in Kept(addrs, drop) <==> a in multiset(Kept(addrs, drop));
    assert a in addrs <==> a in multiset(addrs);
  }

  /**
    A filter keeps each address that is not dropped as often as it occurs, and nothing else, and in
    the given order: filtering two parts of a list filters the list.
   */
  lemma KeptExactly(addrs: seq<Maddr>, drop: Maddr -> bool)
    ensures forall a :: multiset(Kept(addrs, drop))[a] == if drop(a) then 0 else multiset(addrs)[a]
    ensures forall a :: a in Kept(addrs, drop) <==> a in addrs && !drop(a)
    ensures forall i :: 0 <= i <= |addrs| ==> Kept(addrs, drop) == Kept(addrs[..i], drop) + Kept(addrs[i..], drop)
  {
    hide Kept;
    forall a ensures multiset(Kept(addrs, drop))[a] == if drop(a) then 0 else multiset(addrs)[a] {
      KeptCount(addrs, drop, a);
    }
    forall a ensures a in Kept(addrs, drop) <==> a in addrs && !drop(a) {
      KeptMember(addrs, drop, a);
    }
    forall i | 0 <= i <= |addrs| ensures Kept(addrs, drop) == Kept(addrs[..i], drop) + Kept(addrs[i..], drop) {
      KeptAppend(addrs[..i], addrs[i..], drop);
      assert addrs[..i] + addrs[i..] == addrs;
    }
  }

  lemma {:induction false} MergedExactly(addrs: seq<Maddr>, more: seq<Maddr>)
    ensures addrs <= Merged(addrs, more)
    ensures forall a :: a in Merged(addrs, more) <==> a in addrs || a in more
    ensures forall i, j :: |addrs| <= j < |Merged(addrs, more)| && 0 <= i < j ==>
              Merged(addrs, more)[i] != Merged(addrs, more)[j]
  {
    if more != [] {
      MergedExactly(addrs, more[..|more| - 1]);
      assert more == more[..|more| - 1] + [more[|more| - 1]];
    }
  }

  /**
    Refreshing forgets no address of any relay, adds to the named one exactly the public, direct
    addresses of the peer it lacks, and touches no other entry. A relay that was not there is made with
    the ID of the peer and exactly those addresses; one that was keeps its ID and gets each once.
   */
  lemma RefreshAddsPublic(env: Env, n: Node, nodeName: string, peer: AddrInfo)
    ensures var relays := Refreshed(env, n, nodeName, peer).relays;
            && relays.Keys == n.relays.Keys + {nodeName}
            && (forall other :: other in n.relays && other != nodeName ==> relays[other] == n.relays[other])
            && var before := if nodeName in n.relays then n.relays[nodeName].addrs else [];
               var after := relays[nodeName].addrs;
               && relays[nodeName].id == (if nodeName in n.relays then n.relays[nodeName].id else peer.id)
               && before <= after
               && (forall a :: a in after <==>
                     a in before || (a in peer.addrs && !env.isPrivate(a) && !env.isCircuit(a)))
               && (nodeName in n.relays ==>
                     forall i, j :: |before| <= j < |after| && 0 <= i < j ==> after[i] != after[j])
               && (nodeName !in n.relays ==> after == Public(env, peer.addrs))
    ensures Refreshed(env, n, nodeName, peer) == n.(relays := Refreshed(env, n, nodeName, peer).relays)
  {
    PublicExactly(env, peer.addrs);
    if nodeName in n.relays {
      MergedExactly(n.relays[nodeName].addrs, Public(env, peer.addrs));
    }
  }

  lemma PublicExactly(env: Env, addrs: seq<Maddr>)
    ensures forall a :: a in Public(env, addrs) <==> a in addrs && !env.isPrivate(a) && !env.isCircuit(a)
  {
    KeptExactly(addrs, env.isPrivate);
    KeptExactly(Kept(addrs, env.isPrivate), env.isCircuit);
  }

  /** No relay is dropped or given another ID, and none loses an address. */
  ghost predicate RelaysGrow(relays: RelayMap, relays': RelayMap) {
    forall name :: name in relays ==>
      name in relays' && relays'[name].id == relays[name].id && relays[name].addrs <= relays'[name].addrs
  }

  /** A peer with addresses whose ID some node name is mapped to is in the relay map under such a name. */
  ghost predicate Listed(relays: RelayMap, peers: map<string, PeerID>, peer: AddrInfo) {
    peer.addrs != [] && (exists name :: name in peers && peers[name] == peer.id) ==>
      exists name :: name in relays && name in peers && peers[name] == peer.id && relays[name].id == peer.id
  }

  /** One of the peers has addresses and the ID that the name is mapped to. */
  ghost predicate Named(peers: map<string, PeerID>, closestPeers: seq<AddrInfo>, name: string) {
    exists i :: 0 <= i < |closestPeers| && closestPeers[i].addrs != [] && name in peers
                && peers[name] == closestPeers[i].id
  }

  lemma RefreshGrows(env: Env, n: Node, nodeName: string, peer: AddrInfo)
    requires NodeInv(env, n) && nodeName in n.peers && n.peers[nodeName] == peer.id
    ensures RelaysGrow(n.relays, Refreshed(env, n, nodeName, peer).relays)
    ensures Listed(Refreshed(env, n, nodeName, peer).relays, n.peers, peer)
    ensures Refreshed(env, n, nodeName, peer).relays.Keys == n.relays.Keys + {nodeName}
  {
    if nodeName in n.relays {
      MergedExactly(n.relays[nodeName].addrs, Public(env, peer.addrs));
    }
    assert nodeName in Refreshed(env, n, nodeName, peer).relays;
  }

  /** What the relay finder has made of the relay map after the first k of the closest peers. */
  ghost predicate FoundUpTo(
    before: RelayMap, now: RelayMap, peers: map<string, PeerID>, closestPeers: seq<AddrInfo>, k: nat)
    requires k <= |closestPeers|
  {
    && RelaysGrow(before, now)
    && (forall i :: 0 <= i < k ==> Listed(now, peers, closestPeers[i]))
    && (forall name :: name in now && name !in before ==> Named(peers, closestPeers, name))
  }

  lemma FoundNone(relays: RelayMap, peers: map<string, PeerID>, closestPeers: seq<AddrInfo>)
    ensures FoundUpTo(relays, relays, peers, closestPeers, 0)
  {
  }

  lemma FoundNobody(
    before: RelayMap, now: RelayMap, peers: map<string, PeerID>, closestPeers: seq<AddrInfo>, k: nat)
    requires k < |closestPeers| && FoundUpTo(before, now, peers, closestPeers, k)
    requires closestPeers[k].addrs == [] || forall name :: name in peers ==> peers[name] != closestPeers[k].id
    ensures FoundUpTo(before, now, peers, closestPeers, k + 1)
  {
    hide RelaysGrow, Named;
  }

  lemma FoundStep(
    before: RelayMap, mid: RelayMap, now: RelayMap, peers: map<string, PeerID>, closestPeers: seq<AddrInfo>, k: nat,
    nodeName: string)
    requires k < |closestPeers| && FoundUpTo(before, mid, peers, closestPeers, k)
    requires RelaysGrow(mid, now) && Listed(now, peers, closestPeers[k]) && now.Keys == mid.Keys + {nodeName}
    requires closestPeers[k].addrs != [] && nodeName in peers && peers[nodeName] == closestPeers[k].id
    ensures FoundUpTo(before, now, peers, closestPeers, k + 1)
  {
    RelaysGrowTransitive(before, mid, now);
    assert Named(peers, closestPeers, nodeName);
    forall i | 0 <= i < k ensures Listed(now, peers, closestPeers[i]) {
      ListedGrows(mid, now, peers, closestPeers[i]);
    }
  }

  lemma ListedGrows(relays: RelayMap, relays': RelayMap, peers: map<string, PeerID>, peer: AddrInfo)
    requires RelaysGrow(relays, relays') && Listed(relays, peers, peer)
    ensures Listed(relays', peers, peer)
  {
  }

  lemma RelaysGrowTransitive(a: RelayMap, b: RelayMap, c: RelayMap)
    requires RelaysGrow(a, b) && RelaysGrow(b, c)
    ensures RelaysGrow(a, c)
  {
  }

  /** With injective IDs the name found for a peer ID does not depend on the order of the map. */
  lemma NameIsUnique(env: Env, n: Node, a: string, b: string)
    requires NodeInv(env, n) && a in n.peers && b in n.peers && n.peers[a] == n.peers[b]
    requires forall x, y :: env.peerID(x).Some? && env.peerID(x) == env.peerID(y) ==> x == y
    ensures a == b
  {
  }

  // ------------------------------------------------------------- the network

  datatype DialerPc = Waiting | Completed | GaveUp

  /** Only a server-client node registers the handler, which answers first and maps the dialer's name afterwards. */
  datatype ListenerPc = Asked | Replied | Remembered

  /**
    A discovery stream from one node to another: where both ends stand, and the names the request
    and, once it is written, the reply carry.
   */
  datatype Stream = Stream(
    dialer: nat, listener: nat, dialerPc: DialerPc, listenerPc: ListenerPc, request: string, reply: string)

  datatype Network = Network(nodes: map<nat, Node>, streams: map<nat, Stream>)

  datatype Event =
    | Join(h: nat, config: NodeConfig, relayNodes: seq<RelayNode>)
    | Dial(sid: nat, dialer: nat, listener: nat)
    | Reply(sid: nat)
    | Remember(sid: nat)
    | Complete(sid: nat)
    | GiveUp(sid: nat)
    | Reset(sid: nat)
    | Proxy(h: nat, destName: string)
    | Refresh(h: nat, nodeName: string, peer: AddrInfo)
    | Reload(h: nat, relayNodes: seq<RelayNode>, startOk: bool, closeOk: bool)

  predicate Open(w: Network, sid: nat) {
    sid in w.streams && w.streams[sid].listener in w.nodes && w.streams[sid].dialer in w.nodes
  }

  predicate Enabled(env: Env, w: Network, e: Event) {
    match e
    case Join(h, config, _) => h !in w.nodes && env.peerID(config.nodeName).Some?
    case Dial(sid, d, l) => sid !in w.streams && d in w.nodes && l in w.nodes && w.nodes[d].hostID != w.nodes[l].hostID
    case Reply(sid) =>
      Open(w, sid) && w.streams[sid].listenerPc == Asked && w.nodes[w.streams[sid].listener].config.serverClient
    case Remember(sid) => Open(w, sid) && w.streams[sid].listenerPc == Replied
    case Complete(sid) => Open(w, sid) && w.streams[sid].dialerPc == Waiting && w.streams[sid].listenerPc != Asked
    case GiveUp(sid) => Open(w, sid) && w.streams[sid].dialerPc == Waiting
    case Reset(sid) => sid in w.streams
    case Proxy(h, _) => h in w.nodes
    case Refresh(h, name, peer) =>
      h in w.nodes && name in w.nodes[h].peers && w.nodes[h].peers[name] == peer.id && peer.addrs != []
    case Reload(h, _, _, _) => h in w.nodes
  }

  function WithNode(w: Network, h: nat, n: Node): Network {
    w.(nodes := w.nodes[h := n])
  }

  function Next(env: Env, w: Network, e: Event): Network
    requires Enabled(env, w, e)
  {
    match e
    case Join(h, config, nodes) => WithNode(w, h, NewNode(env, config, env.peerID(config.nodeName).value, nodes))
    case Dial(sid, d, l) =>
      w.(streams := w.streams[sid := Stream(d, l, Waiting, Asked, w.nodes[d].config.nodeName, "")])
    case Reply(sid) =>
      var s := w.streams[sid];
      w.(streams := w.streams[sid := s.(listenerPc := Replied, reply := w.nodes[s.listener].config.nodeName)])
    case Remember(sid) =>
      var s := w.streams[sid];
      WithNode(w, s.listener, Mapped(w.nodes[s.listener], s.request, w.nodes[s.dialer].hostID))
        .(streams := w.streams[sid := s.(listenerPc := Remembered)])
    case Complete(sid) =>
      var s := w.streams[sid];
      WithNode(w, s.dialer, Mapped(w.nodes[s.dialer], s.reply, w.nodes[s.listener].hostID))
        .(streams := w.streams[sid := s.(dialerPc := Completed)])
    case GiveUp(sid) => w.(streams := w.streams[sid := w.streams[sid].(dialerPc := GaveUp)])
    case Reset(sid) => w.(streams := w.streams - {sid})
    case Proxy(h, dest) => WithNode(w, h, Proxied(env, w.nodes[h], dest))
    case Refresh(h, name, peer) => WithNode(w, h, Refreshed(env, w.nodes[h], name, peer))
    case Reload(h, nodes, startOk, closeOk) => WithNode(w, h, Reloaded(env, w.nodes[h], nodes, startOk, closeOk))
  }

  /** The network after a history; an event that is not possible when its turn comes is skipped. */
  function Run(env: Env, events: seq<Event>): Network {
    if events == [] then Network(map[], map[])
    else
      var w := Run(env, events[..|events| - 1]);
      var e := events[|events| - 1];
      if Enabled(env, w, e) then Next(env, w, e) else w
  }

  predicate Knows(n: Node, other: Node) {
    other.config.nodeName in n.peers && n.peers[other.config.nodeName] == other.hostID
  }

  ghost predicate StreamInv(w: Network, s: Stream) {
    && s.dialer in w.nodes && s.listener in w.nodes
    && s.request == w.nodes[s.dialer].config.nodeName
    && (s.listenerPc != Asked ==> s.reply == w.nodes[s.listener].config.nodeName)
    && (s.listenerPc == Remembered ==> Knows(w.nodes[s.listener], w.nodes[s.dialer]))
    && (s.dialerPc == Completed ==> s.listenerPc != Asked && Knows(w.nodes[s.dialer], w.nodes[s.listener]))
  }

  ghost predicate NetworkInv(env: Env, w: Network) {
    && (forall h :: h in w.nodes ==> NodeInv(env, w.nodes[h]))
    && (forall sid :: sid in w.streams ==> StreamInv(w, w.streams[sid]))
  }

  /** Nodes keep their configuration and identity, and no mapping is ever lost or changed. */
  ghost predicate Grows(w: Network, w': Network) {
    forall h :: h in w.nodes ==>
      && h in w'.nodes && w'.nodes[h].config == w.nodes[h].config && w'.nodes[h].hostID == w.nodes[h].hostID
      && forall name :: name in w.nodes[h].peers ==>
           name in w'.nodes[h].peers && w'.nodes[h].peers[name] == w.nodes[h].peers[name]
  }

  lemma StreamsGrow(w: Network, w': Network, s: Stream)
    requires Grows(w, w') && StreamInv(w, s)
    ensures StreamInv(w', s)
  {
  }

  /** What an event makes of the node it concerns. */
  lemma NodeStep(env: Env, w: Network, e: Event, h: nat)
    requires NetworkInv(env, w) && Enabled(env, w, e) && h in Next(env, w, e).nodes
    ensures NodeInv(env, Next(env, w, e).nodes[h])
    ensures h in w.nodes ==>
              var n, n' := w.nodes[h], Next(env, w, e).nodes[h];
              n'.config == n.config && n'.hostID == n.hostID
              && forall name :: name in n.peers ==> name in n'.peers && n'.peers[name] == n.peers[name]
  {
    hide NodeInv, NewNode, Mapped, Proxied, Refreshed, Reloaded, StreamInv;
    match e {
      case Join(g, config, nodes) => NewNodeInv(env, config, nodes);
      case Remember(sid) =>
        var s := w.streams[sid];
        HonestStream(env, w, s);
        HonestMapping(env, w.nodes[s.listener], s.request, w.nodes[s.dialer].hostID);
      case Complete(sid) =>
        var s := w.streams[sid];
        HonestStream(env, w, s);
        HonestMapping(env, w.nodes[s.dialer], s.reply, w.nodes[s.listener].hostID);
      case Proxy(g, dest) => ProxyKeeps(env, w.nodes[g], dest);
      case Refresh(g, name, peer) =>
        RefreshKeeps(env, w.nodes[g], name, peer);
        RefreshFrame(env, w.nodes[g], name, peer);
      case Reload(g, nodes, startOk, closeOk) =>
        ReloadKeeps(env, w.nodes[g], nodes, startOk, closeOk);
        ReloadFrame(env, w.nodes[g], nodes, startOk, closeOk);
      case _ =>
    }
  }

  lemma NewNodeInv(env: Env, config: NodeConfig, nodes: seq<RelayNode>)
    requires env.peerID(config.nodeName).Some?
    ensures NodeInv(env, NewNode(env, config, env.peerID(config.nodeName).value, nodes))
  {
    GeneratedHonest(env, nodes, config.transport, config.listenPort);
  }

  /** The names on a stream belong to the nodes that sent them. */
  lemma HonestStream(env: Env, w: Network, s: Stream)
    requires StreamInv(w, s) && NodeInv(env, w.nodes[s.dialer]) && NodeInv(env, w.nodes[s.listener])
    ensures env.peerID(s.request) == Some(w.nodes[s.dialer].hostID)
    ensures s.listenerPc != Asked ==> env.peerID(s.reply) == Some(w.nodes[s.listener].hostID)
  {
  }

  lemma HonestMapping(env: Env, n: Node, nodeName: string, id: PeerID)
    requires NodeInv(env, n) && env.peerID(nodeName) == Some(id)
    ensures var n' := Mapped(n, nodeName, id);
            && NodeInv(env, n') && n'.config == n.config && n'.hostID == n.hostID
            && forall name :: name in n.peers ==> name in n'.peers && n'.peers[name] == n.peers[name]
  {
    MappedKeepsIff(env, n, nodeName, id);
    MappedPreserves(env, n, nodeName, id);
  }

  lemma ProxyKeeps(env: Env, n: Node, destName: string)
    requires NodeInv(env, n)
    ensures var n' := Proxied(env, n, destName);
            && NodeInv(env, n') && n'.config == n.config && n'.hostID == n.hostID
            && forall name :: name in n.peers ==> name in n'.peers && n'.peers[name] == n.peers[name]
  {
    ProxyIsTransparent(env, n, destName);
  }

  /** An honest mapping never changes one that is there. */
  lemma MappedPreserves(env: Env, n: Node, nodeName: string, id: PeerID)
    requires PeersHonest(env, n) && env.peerID(nodeName) == Some(id)
    ensures forall name :: name in n.peers ==>
              name in Mapped(n, nodeName, id).peers && Mapped(n, nodeName, id).peers[name] == n.peers[name]
  {
  }

  lemma RefreshFrame(env: Env, n: Node, nodeName: string, peer: AddrInfo)
    ensures var n' := Refreshed(env, n, nodeName, peer);
            n'.config == n.config && n'.hostID == n.hostID && n'.peers == n.peers
  {
  }

  lemma ReloadFrame(env: Env, n: Node, nodes: seq<RelayNode>, startOk: bool, closeOk: bool)
    ensures var n' := Reloaded(env, n, nodes, startOk, closeOk);
            n'.config == n.config && n'.hostID == n.hostID && n'.peers == n.peers
  {
  }

  lemma EventKeeps(env: Env, w: Network, e: Event)
    requires NetworkInv(env, w) && Enabled(env, w, e)
    ensures NetworkInv(env, Next(env, w, e)) && Grows(w, Next(env, w, e))
  {
    hide NodeInv, StreamInv, NewNode, Refreshed, Reloaded, Proxied;
    var w' := Next(env, w, e);
    forall h | h in w'.nodes ensures NodeInv(env, w'.nodes[h]) { NodeStep(env, w, e, h); }
    forall h | h in w.nodes
      ensures h in w'.nodes && w'.nodes[h].config == w.nodes[h].config && w'.nodes[h].hostID == w.nodes[h].hostID
      ensures forall name :: name in w.nodes[h].peers ==>
                name in w'.nodes[h].peers && w'.nodes[h].peers[name] == w.nodes[h].peers[name]
    {
      NodeStep(env, w, e, h);
    }
    forall sid | sid in w'.streams ensures StreamInv(w', w'.streams[sid]) {
      StreamStep(env, w, e, sid);
    }
  }

  lemma StreamStep(env: Env, w: Network, e: Event, sid: nat)
    requires NetworkInv(env, w) && Enabled(env, w, e) && Grows(w, Next(env, w, e)) && sid in Next(env, w, e).streams
    ensures StreamInv(Next(env, w, e), Next(env, w, e).streams[sid])
  {
    hide NodeInv, NewNode, Refreshed, Reloaded, Proxied, Grows;
    var w' := Next(env, w, e);
    if sid in w.streams && w'.streams[sid] == w.streams[sid] {
      StreamsGrow(w, w', w.streams[sid]);
    } else if sid in w.streams {
      assert StreamInv(w, w.streams[sid]);
    }
  }

  lemma {:induction false} RunKeeps(env: Env, events: seq<Event>)
    ensures NetworkInv(env, Run(env, events))
  {
    hide Next, Enabled, NodeInv, StreamInv;
    if events != [] {
      RunKeeps(env, events[..|events| - 1]);
      var w := Run(env, events[..|events| - 1]);
      if Enabled(env, w, events[|events| - 1]) {
        EventKeeps(env, w, events[|events| - 1]);
      }
    }
  }

  /**
    Network-wide identity: in every run of any number of nodes, every mapped name and every relay
    entry of every node carries the peer ID derived from the name, a proxy stream to a name goes to
    that peer, and the relay service runs only where isRelay says so.
   */
  lemma NetworkIdentity(env: Env, events: seq<Event>, h: nat, name: string)
    requires h in Run(env, events).nodes
    ensures var n := Run(env, events).nodes[h];
            && (name in n.peers ==> env.peerID(name) == Some(n.peers[name]))
            && (name in n.relays ==> env.peerID(name) == Some(n.relays[name].id))
            && ProxyTarget(env, n, name) == env.peerID(name)
            && (n.config.serverClient ==> (n.relayService <==> n.isRelay))
  {
    hide Run;
    RunKeeps(env, events);
    assert NodeInv(env, Run(env, events).nodes[h]);
  }

  /** A mapping, once made, is in the map of the node with the same value after any further events. */
  lemma {:induction false} MappingsArePermanent(env: Env, events: seq<Event>, later: seq<Event>)
    ensures Grows(Run(env, events), Run(env, events + later))
    decreases |later|
  {
    hide Next, Enabled, NodeInv, StreamInv;
    if later == [] {
      assert events + later == events;
    } else {
      var init := later[..|later| - 1];
      MappingsArePermanent(env, events, init);
      assert (events + later)[..|events + later| - 1] == events + init;
      var w, e := Run(env, events + init), later[|later| - 1];
      RunKeeps(env, events + init);
      if Enabled(env, w, e) {
        EventKeeps(env, w, e);
        GrowsTransitive(Run(env, events), w, Next(env, w, e));
      }
    }
  }

  lemma GrowsTransitive(a: Network, b: Network, c: Network)
    requires Grows(a, b) && Grows(b, c)
    ensures Grows(a, c)
  {
  }

  /**
    A discovery that both of its ends have finished leaves both knowing each other by name, and each
    end that has finished knows the other.
   */
  lemma HandshakeIsMutual(env: Env, events: seq<Event>, sid: nat)
    requires sid in Run(env, events).streams
    ensures var w := Run(env, events);
            var s := w.streams[sid];
            && s.dialer in w.nodes && s.listener in w.nodes
            && (s.dialerPc == Completed ==> Knows(w.nodes[s.dialer], w.nodes[s.listener]))
            && (s.listenerPc == Remembered ==> Knows(w.nodes[s.listener], w.nodes[s.dialer]))
  {
    hide Run, NodeInv;
    RunKeeps(env, events);
    assert StreamInv(Run(env, events), Run(env, events).streams[sid]);
  }

  /**
    A successful discovery alone does not mean that the peer has learned the caller's name: the
    handler answers before it fills its map.
   */
  lemma CompletionMayPrecede(env: Env, a: NodeConfig, b: NodeConfig)
    requires env.peerID(a.nodeName).Some? && env.peerID(b.nodeName).Some?
    requires env.peerID(a.nodeName) != env.peerID(b.nodeName)
    requires b.serverClient
    ensures var w := Run(env, [Join(0, a, []), Join(1, b, []), Dial(0, 0, 1), Reply(0), Complete(0)]);
            0 in w.nodes && 1 in w.nodes && Knows(w.nodes[0], w.nodes[1]) && !Knows(w.nodes[1], w.nodes[0])
  {
    var na, nb := NewNode(env, a, env.peerID(a.nodeName).value, []), NewNode(env, b, env.peerID(b.nodeName).value, []);
    var e1, e2, e3, e4 := [Join(0, a, [])], [Join(0, a, []), Join(1, b, [])],
        [Join(0, a, []), Join(1, b, []), Dial(0, 0, 1)],
      [Join(0, a, []), Join(1, b, []), Dial(0, 0, 1), Reply(0)];
    var e5 := [Join(0, a, []), Join(1, b, []), Dial(0, 0, 1), Reply(0), Complete(0)];
    assert e1[..0] == [] && e2[..1] == e1 && e3[..2] == e2 && e4[..3] == e3 && e5[..4] == e4;
    assert Run(env, e1) == Network(map[0 := na], map[]);
    assert Run(env, e2) == Network(map[0 := na, 1 := nb], map[]);
    assert Run(env, e3) == Network(map[0 := na, 1 := nb], map[0 := Stream(0, 1, Waiting, Asked, a.nodeName, "")]);
    assert Run(env, e4) == Network(map[0 := na, 1 := nb],
        map[0 := Stream(0, 1, Waiting, Replied, a.nodeName, b.nodeName)]);
  }

  lemma RunSnoc(env: Env, events: seq<Event>, e: Event)
    ensures var w := Run(env, events);
            Run(env, events + [e]) == if Enabled(env, w, e) then Next(env, w, e) else w
  {
    assert (events + [e])[..|events|] == events;
  }

  /**
    From any state two nodes can meet: if the listener is a server and the IDs differ, the four steps
    of a discovery on a fresh stream make each know the other.
   */
  lemma HandshakeCompletes(env: Env, events: seq<Event>, d: nat, l: nat, sid: nat)
    requires d in Run(env, events).nodes && l in Run(env, events).nodes && sid !in Run(env, events).streams
    requires Run(env, events).nodes[d].hostID != Run(env, events).nodes[l].hostID
    requires Run(env, events).nodes[l].config.serverClient
    ensures var w := Run(env, events + [Dial(sid, d, l)] + [Reply(sid)] + [Remember(sid)] + [Complete(sid)]);
            d in w.nodes && l in w.nodes && Knows(w.nodes[d], w.nodes[l]) && Knows(w.nodes[l], w.nodes[d])
  {
    hide Run, NodeInv;
    var w := Run(env, events);
    var e1 := events + [Dial(sid, d, l)];
    var e2 := e1 + [Reply(sid)];
    var e3 := e2 + [Remember(sid)];
    RunSnoc(env, events, Dial(sid, d, l));
    RunSnoc(env, e1, Reply(sid));
    RunSnoc(env, e2, Remember(sid));
    RunSnoc(env, e3, Complete(sid));
    var name := w.nodes[d].config.nodeName;
    assert Run(env, e2) == w.(streams := w.streams[sid :=
      Stream(d, l, Waiting, Replied, name, w.nodes[l].config.nodeName)]) by {
      assert Run(env, e1) == w.(streams := w.streams[sid := Stream(d, l, Waiting, Asked, name, "")]);
    }
  }
}
