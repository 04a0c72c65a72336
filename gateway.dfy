/**
 * A gateway node: a vending node that also hands out the addresses of its
 * children, keeps which of them are connected, and routes the queries that
 * come down the tree and the replies that go up.
 *
 * Its two tables map each child address to NODE_CONNECTED (true) or
 * NODE_NOT_CONNECTED (false); the children range is the block [low, upper)
 * of addresses below it, with the width step of each child-gateway block.
 */
module Gateway {
  import opened Tables
  import opened Protocol
  import opened ZigBee
  import opened Vending

  /** The interval getNextTreeInterval gives for s, when s is below the address count. */
  ghost function TreeInterval(p: Params, s: int): (iv: Interval)
    requires p.Valid() && s < AddressCount(p)
    ensures 0 <= iv.depth <= p.depth && 1 <= iv.low
    ensures iv.depth < p.depth ==> iv.step == Size(p, iv.depth + 1) && iv.step >= 1
    ensures iv.depth < p.depth ==> iv.upper == iv.low + p.gateways * iv.step
  {
    if s < 0 then ChildInterval(p, 0, 0) else ChildInterval(p, Owner(p, s).0, Owner(p, s).1)
  }

  /** The device addresses of the node with interval iv: [upper, upper + d). */
  function DeviceRange(iv: Interval, d: int): seq<int> {
    Ring(iv.upper, iv.upper + d, 1)
  }

  /** Seeding a valid table with a ring of positive addresses keeps it valid. */
  lemma SeedKeepsValid(t: seq<Entry<bool>>, low: int, upper: int, step: int)
    requires Sorted(t) && Above(t, 0) && step > 0 && low >= 1
    ensures Sorted(Seed(t, Ring(low, upper, step))) && Above(Seed(t, Ring(low, upper, step)), 0)
  {
    var ks := Ring(low, upper, step);
    RingIncreasing(low, upper, step);
    SeedAbove(t, ks, 0);
    SeedView(t, ks, 0);
  }

  // ---------------------------------------------------------------------------------------------
  // The fan-out of a query (broadcastMessage), as the sends it makes

  /** sendMessageToSocketNodeID: a datagram to 6000 plus the address, for registered children only. */
  function SendTo(clients: map<int, string>, id: int, msg: Message): (acts: seq<Action>)
    ensures |acts| == if id in clients then 1 else 0
  {
    if id in clients then [ToAddress(clients[id], INITIAL_SOCKET_PORT + id, msg)] else []
  }

  /** execReplyNotConnected: a stock reply with status 404 for the address, sent to the parent. */
  function ReplyNotConnected(id: int): (a: Action)
    ensures a.ToParent? && a.msg.NotConnected? && a.msg.nodeId == id
  {
    ToParent(NotConnected(id))
  }

  /** A connected child gets the query; a child that is not gets a not-connected reply instead. */
  function Forward(e: Entry<bool>, clients: map<int, string>, msg: Message): seq<Action> {
    if e.value then SendTo(clients, e.key, msg) else [ReplyNotConnected(e.key)]
  }

  /** The loop over the device table: a device is concerned when it is itself a target. */
  function DeviceSends(devs: seq<Entry<bool>>, targets: seq<int>, clients: map<int, string>, msg: Message): seq<Action> {
    if devs == [] then []
    else
      var e := devs[|devs| - 1];
      DeviceSends(devs[..|devs| - 1], targets, clients, msg) + (if e.key in targets then Forward(e, clients, msg) else [])
  }

  /** The loop over the gateway table: a gateway is concerned when a target lies in its block [gw, gw + step). */
  function GatewaySends(gws: seq<Entry<bool>>, targets: seq<int>, step: int, clients: map<int, string>, msg: Message): seq<Action> {
    if gws == [] then []
    else
      var e := gws[|gws| - 1];
      GatewaySends(gws[..|gws| - 1], targets, step, clients, msg)
        + (if HasTargetIn(targets, e.key, e.key + step) then Forward(e, clients, msg) else [])
  }

  /**
   * broadcastMessage: the local reply when the node is itself a target, then,
   * when some target lies in the children range, the device loop followed by
   * the gateway loop.
   */
  function Broadcast(me: int, local: Message, devs: seq<Entry<bool>>, gws: seq<Entry<bool>>, children: Interval,
                     clients: map<int, string>, targets: seq<int>, msg: Message): (acts: seq<Action>)
    ensures me in targets ==> acts != [] && acts[0] == ToParent(local)
    ensures !HasTargetIn(targets, children.low, children.upper) ==> |acts| <= 1
  {
    (if me in targets then [ToParent(local)] else [])
      + (if HasTargetIn(targets, children.low, children.upper)
         then DeviceSends(devs, targets, clients, msg) + GatewaySends(gws, targets, children.step, clients, msg)
         else [])
  }

  /** What one table entry contributes: a not-connected reply for k, or a datagram on k's port. */
  lemma ForwardCounts(e: Entry<bool>, clients: map<int, string>, msg: Message, k: int, other: Message)
    requires !other.NotConnected?
    ensures Occurrences(Forward(e, clients, msg), ReplyNotConnected(k)) == if e.key == k && !e.value then 1 else 0
    ensures SentToPort(Forward(e, clients, msg), INITIAL_SOCKET_PORT + k)
            == if e.key == k && e.value && k in clients then 1 else 0
    ensures Occurrences(Forward(e, clients, msg), ToParent(other)) == 0
  {
    var f := Forward(e, clients, msg);
    if f != [] {
      assert f[..0] == [];
    }
  }

  /** One more table entry of a loop: its sends, when it is concerned, add to the counts as its own entry says. */
  lemma SendsStep(sends: seq<Action>, e: Entry<bool>, concerned: bool, clients: map<int, string>, msg: Message,
                  k: int, other: Message)
    requires !other.NotConnected?
    ensures var all := sends + (if concerned then Forward(e, clients, msg) else []);
            && Occurrences(all, ReplyNotConnected(k))
               == Occurrences(sends, ReplyNotConnected(k)) + (if concerned && e.key == k && !e.value then 1 else 0)
            && SentToPort(all, INITIAL_SOCKET_PORT + k)
               == SentToPort(sends, INITIAL_SOCKET_PORT + k) + (if concerned && e.key == k && e.value && k in clients then 1 else 0)
            && Occurrences(all, ToParent(other)) == Occurrences(sends, ToParent(other))
  {
    var last := if concerned then Forward(e, clients, msg) else [];
    CountsAppend(sends, last, ReplyNotConnected(k), INITIAL_SOCKET_PORT + k);
    CountsAppend(sends, last, ToParent(other), INITIAL_SOCKET_PORT + k);
    ForwardCounts(e, clients, msg, k, other);
  }

  /**
   * Each device address k gets one not-connected reply when it is a target
   * and not connected, and one datagram on port 6000 + k when it is a target,
   * connected and registered; nothing otherwise. The loop sends nothing else
   * upward.
   */
  lemma {:induction false} DeviceSendsCount(devs: seq<Entry<bool>>, targets: seq<int>, clients: map<int, string>,
                                            msg: Message, k: int, other: Message)
    requires Sorted(devs) && !other.NotConnected?
    ensures Occurrences(DeviceSends(devs, targets, clients, msg), ReplyNotConnected(k))
            == if k in targets && k in View(devs) && !View(devs)[k] then 1 else 0
    ensures SentToPort(DeviceSends(devs, targets, clients, msg), INITIAL_SOCKET_PORT + k)
            == if k in targets && k in View(devs) && View(devs)[k] && k in clients then 1 else 0
    ensures Occurrences(DeviceSends(devs, targets, clients, msg), ToParent(other)) == 0
    decreases |devs|
  {
    if devs != [] {
      var front, e := devs[..|devs| - 1], devs[|devs| - 1];
      var last := if e.key in targets then Forward(e, clients, msg) else [];
      assert DeviceSends(devs, targets, clients, msg) == DeviceSends(front, targets, clients, msg) + last;
      SortedFront(devs);
      DeviceSendsCount(front, targets, clients, msg, k, other);
      SendsStep(DeviceSends(front, targets, clients, msg), e, e.key in targets, clients, msg, k, other);
      FrontLast(devs);
      ViewSnoc(front, e);
      EntryCountStep(View(front), e, k, k in targets, e.key in targets, k in clients,
                     Occurrences(DeviceSends(front, targets, clients, msg), ReplyNotConnected(k)),
                     SentToPort(DeviceSends(front, targets, clients, msg), INITIAL_SOCKET_PORT + k));
    }
  }

  /**
   * Each child gateway k whose block [k, k + step) holds some target gets one
   * not-connected reply carrying its own address when it is not connected,
   * however many targets its block holds, and one datagram on port 6000 + k
   * when it is connected and registered; nothing otherwise.
   */
  lemma {:induction false} GatewaySendsCount(gws: seq<Entry<bool>>, targets: seq<int>, step: int,
                                             clients: map<int, string>, msg: Message, k: int, other: Message)
    requires Sorted(gws) && !other.NotConnected?
    ensures Occurrences(GatewaySends(gws, targets, step, clients, msg), ReplyNotConnected(k))
            == if HasTargetIn(targets, k, k + step) && k in View(gws) && !View(gws)[k] then 1 else 0
    ensures SentToPort(GatewaySends(gws, targets, step, clients, msg), INITIAL_SOCKET_PORT + k)
            == if HasTargetIn(targets, k, k + step) && k in View(gws) && View(gws)[k] && k in clients then 1 else 0
    ensures Occurrences(GatewaySends(gws, targets, step, clients, msg), ToParent(other)) == 0
    decreases |gws|
  {
    if gws != [] {
      var front, e := gws[..|gws| - 1], gws[|gws| - 1];
      var concerned := HasTargetIn(targets, e.key, e.key + step);
      var last := if concerned then Forward(e, clients, msg) else [];
      assert GatewaySends(gws, targets, step, clients, msg) == GatewaySends(front, targets, step, clients, msg) + last;
      SortedFront(gws);
      GatewaySendsCount(front, targets, step, clients, msg, k, other);
      SendsStep(GatewaySends(front, targets, step, clients, msg), e, concerned, clients, msg, k, other);
      FrontLast(gws);
      ViewSnoc(front, e);
      EntryCountStep(View(front), e, k, HasTargetIn(targets, k, k + step), concerned, k in clients,
                       Occurrences(GatewaySends(front, targets, step, clients, msg), ReplyNotConnected(k)),
                       SentToPort(GatewaySends(front, targets, step, clients, msg), INITIAL_SOCKET_PORT + k));
    }
  }

  /**
   * The counts of DeviceSendsCount and GatewaySendsCount one entry further,
   * on the table's map v: the entry e adds its own reply or datagram exactly
   * when it is the child k and concerned.
   */
  lemma EntryCountStep(v: map<int, bool>, e: Entry<bool>, k: int, held: bool, concerned: bool, registered: bool,
                         replies: nat, datagrams: nat)
    requires e.key !in v && (k == e.key ==> held == concerned)
    requires replies == if held && k in v && !v[k] then 1 else 0
    requires datagrams == if held && k in v && v[k] && registered then 1 else 0
    ensures replies + (if concerned && e.key == k && !e.value then 1 else 0)
            == if held && k in v[e.key := e.value] && !v[e.key := e.value][k] then 1 else 0
    ensures datagrams + (if concerned && e.key == k && e.value && registered then 1 else 0)
            == if held && k in v[e.key := e.value] && v[e.key := e.value][k] && registered then 1 else 0
  {
  }

  /**
   * The whole fan-out. The node's own reply goes up exactly once when it is
   * a target and never otherwise; the children are reached only when some
   * target lies in the children range, and then as the two loops say. A
   * not-connected reply is always a reply_get_stock frame with status 404.
   */
  lemma BroadcastCounts(me: int, local: Message, devs: seq<Entry<bool>>, gws: seq<Entry<bool>>, children: Interval,
                        clients: map<int, string>, targets: seq<int>, msg: Message, k: int)
    requires Sorted(devs) && Sorted(gws) && !local.NotConnected?
    ensures Occurrences(Broadcast(me, local, devs, gws, children, clients, targets, msg), ToParent(local))
            == if me in targets then 1 else 0
    ensures !HasTargetIn(targets, children.low, children.upper) ==>
              Broadcast(me, local, devs, gws, children, clients, targets, msg) == if me in targets then [ToParent(local)] else []
    ensures HasTargetIn(targets, children.low, children.upper) ==>
              Occurrences(Broadcast(me, local, devs, gws, children, clients, targets, msg), ReplyNotConnected(k))
              == (if k in targets && k in View(devs) && !View(devs)[k] then 1 else 0)
                 + (if HasTargetIn(targets, k, k + children.step) && k in View(gws) && !View(gws)[k] then 1 else 0)
    ensures HasTargetIn(targets, children.low, children.upper) ==>
              SentToPort(Broadcast(me, local, devs, gws, children, clients, targets, msg), INITIAL_SOCKET_PORT + k)
              == (if k in targets && k in View(devs) && View(devs)[k] && k in clients then 1 else 0)
                 + (if HasTargetIn(targets, k, k + children.step) && k in View(gws) && View(gws)[k] && k in clients then 1 else 0)
  {
    var head := if me in targets then [ToParent(local)] else [];
    var ds := DeviceSends(devs, targets, clients, msg);
    var gs := GatewaySends(gws, targets, children.step, clients, msg);
    var port := INITIAL_SOCKET_PORT + k;
    DeviceSendsCount(devs, targets, clients, msg, k, local);
    GatewaySendsCount(gws, targets, children.step, clients, msg, k, local);
    if head != [] {
      assert head[..0] == [];
    }
    if HasTargetIn(targets, children.low, children.upper) {
      CountsAppend(ds, gs, ToParent(local), port);
      CountsAppend(ds, gs, ReplyNotConnected(k), port);
      CountsAppend(head, ds + gs, ToParent(local), port);
      CountsAppend(head, ds + gs, ReplyNotConnected(k), port);
    } else {
      assert head + [] == head;
    }
  }

  /** A not-connected reply is a reply_get_stock frame with status 404, about the address it names. */
  lemma NotConnectedStatus(k: int)
    ensures ReplyNotConnected(k).msg.Query() == REPLY_GET_STOCK
    ensures ReplyNotConnected(k).msg.Status() == REPLY_STATUS_NOT_CONNECTED
    ensures ReplyNotConnected(k).msg.WellFormed()
  {
  }

  /** A gateway at leaf depth has the empty children range [nodeID, nodeID): it only ever answers for itself. */
  lemma LeafAnswersOnlyForItself(me: int, local: Message, devs: seq<Entry<bool>>, gws: seq<Entry<bool>>,
                                 clients: map<int, string>, targets: seq<int>, msg: Message)
    ensures Broadcast(me, local, devs, gws, Interval(0, me, me, 1), clients, targets, msg)
            == if me in targets then [ToParent(local)] else []
  {
    assert !HasTargetIn(targets, me, me);
    var head := if me in targets then [ToParent(local)] else [];
    assert head + [] == head;
  }

  // ---------------------------------------------------------------------------------------------
  // Allocation on the two tables

  /**
   * getAvailableNodeID(type): the gateway table for TYPE_GATEWAY, the device
   * table for TYPE_DEVICE, the other table untouched; any other type gets no
   * address (NoNodeIDAvailable) and changes nothing.
   */
  ghost predicate Handed(devsBefore: seq<Entry<bool>>, gwsBefore: seq<Entry<bool>>,
                         devs: seq<Entry<bool>>, gws: seq<Entry<bool>>, kind: int, r: Option<int>) {
    if kind == TYPE_GATEWAY then devs == devsBefore && Allocated(gwsBefore, gws, r)
    else if kind == TYPE_DEVICE then gws == gwsBefore && Allocated(devsBefore, devs, r)
    else r.None? && devs == devsBefore && gws == gwsBefore
  }

  /** The reply_get_node_id value for an allocation: -1 when none was given. */
  function GivenId(r: Option<int>): int {
    if r.Some? then r.value else -1
  }

  /** The allocation a reply_get_node_id value stands for. */
  function Offered(id: int): Option<int> {
    if id == -1 then None else Some(id)
  }

  class DistributorGateway {
    const node: Distributor
    var params: Params
    var children: Interval
    var devices: seq<Entry<bool>>
    var gateways: seq<Entry<bool>>
    var clients: map<int, string>

    /** Both tables are sorted, every address in them is at least 1, and the catalogue is in id order. */
    ghost predicate Valid()
      reads this
    {
      Sorted(devices) && Sorted(gateways) && Above(devices, 0) && Above(gateways, 0) && node.Valid()
    }

    /** initializeGateway: empty tables, no client, a zero children range; the parameters come later. */
    constructor (node: Distributor)
      requires node.Valid()
      ensures Valid() && this.node == node
      ensures params == Params(0, 0, 0) && children == Interval(0, 0, 0, 0)
      ensures devices == [] && gateways == [] && clients == map[]
    {
      this.node := node;
      params := Params(0, 0, 0);
      children := Interval(0, 0, 0, 0);
      devices := [];
      gateways := [];
      clients := map[];
    }

    /**
     * setAvailableNodesID. A node address outside the tree ends the process.
     * Otherwise, below leaf depth, the device addresses [upper, upper + d) and
     * the gateway addresses low, low + step, .. < upper of the node's
     * interval are put in the tables as not connected, and the children
     * range becomes [low, upper + d); at leaf depth the tables stay as they
     * are and the range is the empty [nodeID, nodeID) with step 1.
     */
    method SetAvailableNodesID() returns (exits: bool)
      requires Valid() && params.Valid()
      modifies this`devices, this`gateways, this`children
      ensures Valid()
      ensures exits <==> node.nodeID >= AddressCount(params)
      ensures exits ==> devices == old(devices) && gateways == old(gateways) && children == old(children)
      ensures !exits && TreeInterval(params, node.nodeID).depth < params.depth ==>
                var iv := TreeInterval(params, node.nodeID);
                devices == Seed(old(devices), DeviceRange(iv, params.devices)) &&
                gateways == Seed(old(gateways), Ring(iv.low, iv.upper, iv.step)) &&
                children == Interval(iv.depth, iv.low, iv.upper + params.devices, iv.step)
      ensures !exits && TreeInterval(params, node.nodeID).depth >= params.depth ==>
                devices == old(devices) && gateways == old(gateways) &&
                children == Interval(TreeInterval(params, node.nodeID).depth, node.nodeID, node.nodeID, 1)
    {
      var r := GetNextTreeInterval(node.nodeID, params);
      if r.OutOfRange? {
        return true;
      }
      exits := false;
      var iv := r.value;
      assert iv == TreeInterval(params, node.nodeID);
      if iv.depth < params.depth {
        MulSign(params.gateways, iv.step);
        SeedChildren(iv);
      } else {
        children := Interval(iv.depth, node.nodeID, node.nodeID, 1);
      }
    }

    /** The children of a gateway below the last level: every device and child-gateway address seeded as not connected. */
    method SeedChildren(iv: Interval)
      requires Valid() && iv.low >= 1 && iv.upper >= 1 && iv.step >= 1
      modifies this`devices, this`gateways, this`children
      ensures Valid()
      ensures devices == Seed(old(devices), DeviceRange(iv, params.devices))
      ensures gateways == Seed(old(gateways), Ring(iv.low, iv.upper, iv.step))
      ensures children == Interval(iv.depth, iv.low, iv.upper + params.devices, iv.step)
    {
      SeedKeepsValid(devices, iv.upper, iv.upper + params.devices, 1);
      SeedKeepsValid(gateways, iv.low, iv.upper, iv.step);
      devices := SeedRing(devices, iv.upper, iv.upper + params.devices, 1);
      gateways := SeedRing(gateways, iv.low, iv.upper, iv.step);
      children := Interval(iv.depth, iv.low, iv.upper + params.devices, iv.step);
    }

    /**
     * getAvailableNodeID(type): the smallest address of the table of that
     * type that is not connected is handed out and marked connected; none
     * (NoNodeIDAvailable) when the table has no free address or the type is
     * neither gateway nor device.
     */
    method GetAvailableNodeID(kind: int) returns (r: Option<int>)
      requires Valid()
      modifies this`devices, this`gateways
      ensures Valid()
      ensures Handed(old(devices), old(gateways), devices, gateways, kind, r)
      ensures r.Some? ==> r.value >= 1
    {
      if kind == TYPE_GATEWAY {
        var t;
        r, t := Allocate(gateways);
        AllocatedView(gateways, t, r);
        if r.Some? {
          var i :| IsFirstFree(gateways, i) && gateways[i].key == r.value;
          PutAbove(gateways, r.value, true, 0);
        }
        gateways := t;
      } else if kind == TYPE_DEVICE {
        var t;
        r, t := Allocate(devices);
        AllocatedView(devices, t, r);
        if r.Some? {
          var i :| IsFirstFree(devices, i) && devices[i].key == r.value;
          PutAbove(devices, r.value, true, 0);
        }
        devices := t;
      } else {
        r := None;
      }
    }

    /**
     * execQueryNodeID: the newcomer gets a reply_get_node_id frame at the
     * address and port it gave, with the address handed out or -1; its
     * address is recorded only when it got one.
     */
    method ExecQueryNodeID(m: Message) returns (actions: seq<Action>)
      requires Valid() && m.NodeIdQuery?
      modifies this`devices, this`gateways, this`clients
      ensures Valid()
      ensures |actions| == 1 && actions[0].ToAddress? && actions[0].msg.NodeIdReply?
      ensures actions[0].address == m.replyAddress && actions[0].port == m.replyPort
      ensures Handed(old(devices), old(gateways), devices, gateways, m.deviceType, Offered(actions[0].msg.nodeId))
      ensures clients == if actions[0].msg.nodeId == -1 then old(clients)
                         else old(clients)[actions[0].msg.nodeId := m.replyAddress]
    {
      var r := GetAvailableNodeID(m.deviceType);
      var nodeID := GivenId(r);
      actions := [ToAddress(m.replyAddress, m.replyPort, NodeIdReply(nodeID))];
      if nodeID != -1 {
        clients := clients[nodeID := m.replyAddress];
      }
    }

    /**
     * broadcastMessage for a money or stock query: proved to make exactly the
     * sends Broadcast describes, the local reply being the node's own money
     * or stock.
     */
    method BroadcastMessage(m: Message) returns (actions: seq<Action>)
      requires Valid() && m.Request? && (m.query == QUERY_GET_MONEY || m.query == QUERY_GET_STOCK)
      ensures actions == Broadcast(node.nodeID, node.Reply(m.query), devices, gateways, children, clients,
                                   ListedIds(m.targets), m)
    {
      var nodesID := ListNodesId(m.targets);
      actions := [];
      if node.nodeID in nodesID {
        var reply;
        if m.query == QUERY_GET_MONEY {
          reply := MoneyReply(node.nodeID, node.money);
        } else {
          var ids, quantities := node.StockArrays();
          reply := StockReply(node.nodeID, ids, quantities);
        }
        assert reply == node.Reply(m.query);
        actions := [ToParent(reply)];
      }
      var concerned := AnyTargetIn(nodesID, children.low, children.upper);
      if concerned {
        var toDevices := SendToDevices(nodesID, m);
        var toGateways := SendToGateways(nodesID, m);
        actions := actions + (toDevices + toGateways);
      } else {
        assert actions + [] == actions;
      }
    }

    /** The device loop of broadcastMessage: each device that is itself a target. */
    method SendToDevices(nodesID: seq<int>, m: Message) returns (actions: seq<Action>)
      ensures actions == DeviceSends(devices, nodesID, clients, m)
    {
      actions := [];
      var i := 0;
      while i < |devices|
        invariant 0 <= i <= |devices|
        invariant actions == DeviceSends(devices[..i], nodesID, clients, m)
      {
        var e := devices[i];
        if e.key in nodesID {
          if e.value {
            if e.key in clients {
              actions := actions + [ToAddress(clients[e.key], INITIAL_SOCKET_PORT + e.key, m)];
            }
          } else {
            actions := actions + [ReplyNotConnected(e.key)];
          }
        }
        assert devices[..i + 1][..i] == devices[..i];
        i := i + 1;
      }
      assert devices[..i] == devices;
    }

    /** The gateway loop of broadcastMessage: each child gateway whose block holds a target. */
    method SendToGateways(nodesID: seq<int>, m: Message) returns (actions: seq<Action>)
      ensures actions == GatewaySends(gateways, nodesID, children.step, clients, m)
    {
      actions := [];
      var i := 0;
      while i < |gateways|
        invariant 0 <= i <= |gateways|
        invariant actions == GatewaySends(gateways[..i], nodesID, children.step, clients, m)
      {
        var e := gateways[i];
        var below := AnyTargetIn(nodesID, e.key, e.key + children.step);
        if below {
          if e.value {
            if e.key in clients {
              actions := actions + [ToAddress(clients[e.key], INITIAL_SOCKET_PORT + e.key, m)];
            }
          } else {
            actions := actions + [ReplyNotConnected(e.key)];
          }
        }
        assert gateways[..i + 1][..i] == gateways[..i];
        i := i + 1;
      }
      assert gateways[..i] == gateways;
    }

    /**
     * execQueryNetworkParameters: the asking child gets the gateway's
     * parameters, if it is registered.
     */
    function ParamsReplyTo(id: int): (actions: seq<Action>)
      reads this
      ensures |actions| <= 1
      ensures actions != [] <==> id in clients
      ensures id in clients ==> actions[0].ToAddress? && actions[0].port == INITIAL_SOCKET_PORT + id
      ensures id in clients ==> actions[0].address == clients[id]
      ensures id in clients ==> actions[0].msg == ParamsReply(params.devices, params.gateways, params.depth)
    {
      SendTo(clients, id, ParamsReply(params.devices, params.gateways, params.depth))
    }

    /**
     * messageProcessing, the dispatch on the frame's query name: address and
     * parameter queries are served, money and stock queries are broadcast,
     * the parameters a reply brings are kept, replies, announcements and logs
     * go up to the parent unchanged, and anything else is dropped.
     */
    method MessageProcessing(m: Message) returns (actions: seq<Action>)
      requires Valid() && m.WellFormed()
      requires m.ParamsReply? ==> Params(m.devices, m.gateways, m.depth).Valid()
      modifies this`devices, this`gateways, this`clients, this`params
      ensures Valid()
      ensures !m.NodeIdQuery? ==> devices == old(devices) && gateways == old(gateways) && clients == old(clients)
      ensures !m.ParamsReply? ==> params == old(params)
      ensures m.NodeIdQuery? ==> |actions| == 1 && actions[0].ToAddress? && actions[0].msg.NodeIdReply?
      ensures m.NodeIdQuery? ==> actions[0].address == m.replyAddress && actions[0].port == m.replyPort
      ensures m.NodeIdQuery? ==> Handed(old(devices), old(gateways), devices, gateways, m.deviceType, Offered(actions[0].msg.nodeId))
      ensures m.ParamsQuery? ==> actions == ParamsReplyTo(m.nodeId)
      ensures m.Query() == QUERY_GET_MONEY || m.Query() == QUERY_GET_STOCK ==>
                actions == Broadcast(node.nodeID, node.Reply(m.query), devices, gateways, children, clients,
                                     ListedIds(m.targets), m)
      ensures m.ParamsReply? ==> params == Params(m.devices, m.gateways, m.depth) && actions == []
      ensures m.Query() in {REPLY_NEW_NODE_CONNEXION, REPLY_GET_STOCK, REPLY_GET_MONEY, ADD_TO_LOGS_HISTORY} ==>
                actions == [ToParent(m)]
      ensures m.NodeIdReply? || m.Other? || (m.Request? && m.query != QUERY_GET_MONEY && m.query != QUERY_GET_STOCK) ==>
                actions == []
    {
      var query := m.Query();
      if query == QUERY_GET_NODE_ID {
        actions := ExecQueryNodeID(m);
      } else if query == QUERY_NETWORK_PARAMETERS {
        actions := ParamsReplyTo(m.nodeId);
      } else if query == QUERY_GET_MONEY || query == QUERY_GET_STOCK {
        actions := BroadcastMessage(m);
      } else if query == REPLY_NETWORK_PARAMETERS {
        params := Params(m.devices, m.gateways, m.depth);
        actions := [];
      } else if query in {REPLY_NEW_NODE_CONNEXION, REPLY_GET_STOCK, REPLY_GET_MONEY, ADD_TO_LOGS_HISTORY} {
        actions := [ToParent(m)];
      } else {
        actions := [];
      }
    }
  }

  /**
   * After setup, a gateway that started with empty tables holds exactly its
   * g child-gateway addresses low + j·step and its d device addresses
   * upper + j, in increasing order, all not connected.
   */
  lemma SetupTables(p: Params, s: int)
    requires p.Valid() && s < AddressCount(p) && TreeInterval(p, s).depth < p.depth
    ensures var iv := TreeInterval(p, s);
            |Seed([], Ring(iv.low, iv.upper, iv.step))| == p.gateways &&
            forall j :: 0 <= j < p.gateways ==> Seed([], Ring(iv.low, iv.upper, iv.step))[j] == Entry(iv.low + j * iv.step, false)
    ensures var iv := TreeInterval(p, s);
            |Seed([], DeviceRange(iv, p.devices))| == p.devices &&
            forall j :: 0 <= j < p.devices ==> Seed([], DeviceRange(iv, p.devices))[j] == Entry(iv.upper + j, false)
  {
    var iv := TreeInterval(p, s);
    SeededRing(iv.low, iv.upper, iv.step, p.gateways);
    SeededRing(iv.upper, iv.upper + p.devices, 1, p.devices);
  }
}
