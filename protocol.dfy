/**
 * The frames the nodes exchange and the constants they share. A frame is a
 * JSON object whose "query" field names its kind; here each kind is a
 * constructor carrying the fields that kind is built with, and Query()
 * gives back the name the frame travels under.
 */
module Protocol {
  // Alert thresholds. Money is counted in cents, so the limit of 50 currency units is 5000.
  const ALERT_STOCK_MIN := 2
  const ALERT_MONEY_MAX := 5000

  const REPLY_STATUS_CONNECTED := 200
  const REPLY_STATUS_BAD_REQUEST := 400
  const REPLY_STATUS_NOT_CONNECTED := 404

  const ADD_TO_LOGS_HISTORY := "add_to_logs_history"
  const QUERY_GET_NODE_ID := "query_get_node_id"
  const QUERY_NETWORK_PARAMETERS := "query_network_parameters"
  const QUERY_GET_STOCK := "query_get_stock"
  const QUERY_GET_MONEY := "query_get_money"
  const REPLY_GET_NODE_ID := "reply_get_node_id"
  const REPLY_NEW_NODE_CONNEXION := "new_node_connexion"
  const REPLY_NETWORK_PARAMETERS := "reply_network_parameters"
  const REPLY_GET_STOCK := "reply_get_stock"
  const REPLY_GET_MONEY := "reply_get_money"

  /** A node n listens on this port plus n. */
  const INITIAL_SOCKET_PORT := 6000

  /** The manager's polling period and query timeout, in milliseconds. */
  const THREAD_SLEEP_INTERVAL := 250
  const QUERY_TIMEOUT := 15000

  /** The names of the frames that do not carry a list of target nodes. */
  const FIXED_NAMES := {ADD_TO_LOGS_HISTORY, QUERY_GET_NODE_ID, QUERY_NETWORK_PARAMETERS, REPLY_GET_NODE_ID,
                        REPLY_NEW_NODE_CONNEXION, REPLY_NETWORK_PARAMETERS, REPLY_GET_STOCK, REPLY_GET_MONEY}

  datatype Message =
    | NodeIdQuery(replyAddress: string, replyPort: int, deviceType: int)   // a newcomer asks for an address
    | NodeIdReply(nodeId: int)                                              // -1 when none is free
    | NewNode(nodeId: int)                                                  // a node announces itself
    | Log(nodeId: int, log: string)                                         // an alert for the logs history
    | ParamsQuery(nodeId: int)
    | ParamsReply(devices: int, gateways: int, depth: int)
    | Request(query: string, targets: seq<int>)                             // querying_nodes_id
    | MoneyReply(distributorId: int, money: int)                            // status 200
    | StockReply(distributorId: int, ids: seq<int>, quantities: seq<int>)   // status 200
    | BadRequest(distributorId: int)                                        // status 400
    | NotConnected(nodeId: int)                                             // status 404
    | Other(query: string)                                                  // any other query name
  {
    /** The "query" field the frame carries. */
    function Query(): string {
      match this
      case NodeIdQuery(_, _, _) => QUERY_GET_NODE_ID
      case NodeIdReply(_) => REPLY_GET_NODE_ID
      case NewNode(_) => REPLY_NEW_NODE_CONNEXION
      case Log(_, _) => ADD_TO_LOGS_HISTORY
      case ParamsQuery(_) => QUERY_NETWORK_PARAMETERS
      case ParamsReply(_, _, _) => REPLY_NETWORK_PARAMETERS
      case Request(q, _) => q
      case MoneyReply(_, _) => REPLY_GET_MONEY
      case StockReply(_, _, _) => REPLY_GET_STOCK
      case BadRequest(_) => REPLY_GET_STOCK
      case NotConnected(_) => REPLY_GET_STOCK
      case Other(q) => q
    }

    /** The "status" field, 0 for the frames that have none. */
    function Status(): int {
      match this
      case Log(_, _) => REPLY_STATUS_CONNECTED
      case MoneyReply(_, _) => REPLY_STATUS_CONNECTED
      case StockReply(_, _, _) => REPLY_STATUS_CONNECTED
      case BadRequest(_) => REPLY_STATUS_BAD_REQUEST
      case NotConnected(_) => REPLY_STATUS_NOT_CONNECTED
      case _ => 0
    }

    /**
     * A frame whose name is one of the fixed kinds has that kind's fields:
     * a target list travels only under a request name, and Other only
     * under a name no other constructor uses.
     */
    predicate WellFormed() {
      match this
      case Request(q, _) => q !in FIXED_NAMES
      case Other(q) => q !in FIXED_NAMES && q != QUERY_GET_MONEY && q != QUERY_GET_STOCK
      case _ => true
    }
  }

  /** What a node does with a frame: the sends that leave it. */
  datatype Action =
    | ToParent(msg: Message)                             // sendMessageToGateway
    | ToAddress(address: string, port: int, msg: Message) // a datagram to a child's address and port
    | ToGateway(node: int, msg: Message)                 // the manager calls a ring gateway
    | ToAdmin(line: string)                              // the manager prints on the admin console

  /** How many times the action a occurs. */
  function Occurrences(acts: seq<Action>, a: Action): nat {
    if acts == [] then 0
    else Occurrences(acts[..|acts| - 1], a) + (if acts[|acts| - 1] == a then 1 else 0)
  }

  /** How many datagrams go to the port. */
  function SentToPort(acts: seq<Action>, port: int): nat {
    if acts == [] then 0
    else SentToPort(acts[..|acts| - 1], port) + (if acts[|acts| - 1].ToAddress? && acts[|acts| - 1].port == port then 1 else 0)
  }

  lemma {:induction false} CountsAppend(xs: seq<Action>, ys: seq<Action>, a: Action, port: int)
    ensures Occurrences(xs + ys, a) == Occurrences(xs, a) + Occurrences(ys, a)
    ensures SentToPort(xs + ys, port) == SentToPort(xs, port) + SentToPort(ys, port)
    decreases |ys|
  {
    if ys == [] {
      assert xs + ys == xs;
    } else {
      CountsAppend(xs, ys[..|ys| - 1], a, port);
      assert (xs + ys)[..|xs + ys| - 1] == xs + ys[..|ys| - 1];
    }
  }

  /** Some target lies in [lo, hi). */
  predicate HasTargetIn(targets: seq<int>, lo: int, hi: int) {
    exists i :: 0 <= i < |targets| && lo <= targets[i] < hi
  }

  /** hasChildrenQuery: walk the targets until one falls in [lo, hi). */
  method AnyTargetIn(targets: seq<int>, lo: int, hi: int) returns (found: bool)
    ensures found <==> HasTargetIn(targets, lo, hi)
  {
    var i := 0;
    while i < |targets|
      invariant 0 <= i <= |targets|
      invariant !HasTargetIn(targets[..i], lo, hi)
    {
      if lo <= targets[i] < hi {
        assert targets[..i + 1][i] == targets[i];
        return true;
      }
      assert forall j :: 0 <= j < i ==> targets[..i + 1][j] == targets[..i][j];
      i := i + 1;
    }
    assert targets[..i] == targets;
    return false;
  }

  /** The (int) cast of a JSON long: the low 32 bits, read as a signed int. */
  function ToInt32(x: int): (r: int)
    ensures -0x8000_0000 <= r < 0x8000_0000
    ensures -0x8000_0000 <= x < 0x8000_0000 ==> r == x
    ensures (r - x) % 0x1_0000_0000 == 0
  {
    var low := x % 0x1_0000_0000;
    if low < 0x8000_0000 then low else low - 0x1_0000_0000
  }
}
