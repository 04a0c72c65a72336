/**
 * A vending node: its catalogue (products in increasing id order, as the
 * TreeMap holds them), its till, the purchase with its alerts, and its
 * answer to the queries that reach it.
 */
module Vending {
  import opened Tables
  import opened Protocol
  import opened Products

  // ---------------------------------------------------------------------------------------------
  // A purchase on values

  /** The shelf quantity of the chosen product and the money in the till. */
  datatype Till = Till(quantity: int, money: int)

  /** A sale: one item off the shelf and its price into the till; None when the shelf is empty. */
  function Sell(t: Till, price: int): Option<Till> {
    match Retrieve(t.quantity)
    case None => None
    case Some(q) => Some(Till(q, t.money + price))
  }

  /** The alerts a sale can raise; a sale raises at most one. */
  datatype Alert = NoAlert | LowStock | TooMuchMoney

  /** After a sale: a stock below the minimum is reported first, else a till above the maximum. */
  function AlertAfter(t: Till): (a: Alert)
    ensures a == TooMuchMoney ==> t.quantity >= ALERT_STOCK_MIN && t.money > ALERT_MONEY_MAX
    ensures a == NoAlert <==> t.quantity >= ALERT_STOCK_MIN && t.money <= ALERT_MONEY_MAX
  {
    if t.quantity < ALERT_STOCK_MIN then LowStock
    else if t.money > ALERT_MONEY_MAX then TooMuchMoney
    else NoAlert
  }

  /** n sales in a row at one price, None as soon as the shelf is empty. */
  function SellTimes(t: Till, price: int, n: nat): Option<Till>
    decreases n
  {
    if n == 0 then Some(t)
    else match Sell(t, price)
      case None => None
      case Some(t') => SellTimes(t', price, n - 1)
  }

  /** From a shelf of q >= 0 items, exactly q sales go through, each adding the price to the till. */
  lemma {:induction false} SalesUntilEmpty(t: Till, price: int, n: nat)
    requires t.quantity >= 0
    ensures n <= t.quantity ==> SellTimes(t, price, n) == Some(Till(t.quantity - n, t.money + n * price))
    ensures n > t.quantity ==> SellTimes(t, price, n) == None
    decreases n
  {
    if n > 0 && t.quantity > 0 {
      SalesUntilEmpty(Till(t.quantity - 1, t.money + price), price, n - 1);
    }
  }

  /**
   * Two items at 30.00 in an empty till: both sales raise the stock alert
   * (the second one although the till then holds 60.00, above the money
   * limit), and the third purchase finds the shelf empty.
   */
  lemma StockAlertBeforeMoneyAlert()
    ensures Sell(Till(2, 0), 3000) == Some(Till(1, 3000)) && AlertAfter(Till(1, 3000)) == LowStock
    ensures Sell(Till(1, 3000), 3000) == Some(Till(0, 6000)) && AlertAfter(Till(0, 6000)) == LowStock
    ensures 6000 > ALERT_MONEY_MAX
    ensures Sell(Till(0, 6000), 3000) == None
  {
  }

  // ---------------------------------------------------------------------------------------------
  // The node

  /** Where the product with this id sits in the catalogue. */
  function FindId(ps: seq<Product>, productId: int): (r: Option<int>)
    ensures r.Some? ==> 0 <= r.value < |ps| && ps[r.value].id == productId
    ensures r.None? ==> forall i :: 0 <= i < |ps| ==> ps[i].id != productId
  {
    if ps == [] then None
    else if ps[|ps| - 1].id == productId then Some(|ps| - 1)
    else FindId(ps[..|ps| - 1], productId)
  }

  /** What retrieveOneProduct ends with: an error, a sale with the alert it raised, or a plain sale. */
  datatype Outcome = ProductNotFound | ProductNotAvailable | StockAlert(log: Message) | MoneyAlert(log: Message) | Sold

  /** How the node starts once it has asked its gateway for an address. */
  datatype Startup = Exit | Started(nodeId: int, announce: Message, listenPort: int)

  /**
   * The end of the Distributor constructor: the address is the one a
   * reply_get_node_id frame carries, -1 when no such frame came back. A
   * node without an address of at least 1 exits; any other announces
   * itself to its gateway and listens on 6000 plus its address.
   */
  function StartupAfter(reply: Option<Message>): (s: Startup)
    ensures s.Started? <==> reply.Some? && reply.value.NodeIdReply? && reply.value.nodeId >= 1
    ensures s.Started? ==> s.nodeId == reply.value.nodeId && s.announce == NewNode(s.nodeId)
                           && s.listenPort == INITIAL_SOCKET_PORT + s.nodeId && s.listenPort > INITIAL_SOCKET_PORT
  {
    var nodeID := if reply.Some? && reply.value.NodeIdReply? then reply.value.nodeId else -1;
    if nodeID < 1 then Exit else Started(nodeID, NewNode(nodeID), INITIAL_SOCKET_PORT + nodeID)
  }

  /** Targets as int, in order and with their duplicates: JSON longs cast to int. */
  method ListNodesId(targets: seq<int>) returns (ids: seq<int>)
    ensures |ids| == |targets|
    ensures forall i :: 0 <= i < |ids| ==> ids[i] == ToInt32(targets[i])
    ensures (forall i :: 0 <= i < |targets| ==> INT32_MIN <= targets[i] <= INT32_MAX) ==> ids == targets
    ensures ids == ListedIds(targets)
  {
    ids := [];
    var i := 0;
    while i < |targets|
      invariant 0 <= i <= |targets| && |ids| == i
      invariant forall j :: 0 <= j < i ==> ids[j] == ToInt32(targets[j])
    {
      ids := ids + [ToInt32(targets[i])];
      i := i + 1;
    }
  }

  const INT32_MIN := -0x8000_0000
  const INT32_MAX := 0x7fff_ffff

  class Distributor {
    const nodeID: int
    var money: int
    const products: seq<Product>

    /** The catalogue is in strictly increasing id order. */
    ghost predicate Valid() {
      forall i, j :: 0 <= i < j < |products| ==> products[i].id < products[j].id
    }

    /** A node with its address and its loaded catalogue; the till starts empty. */
    constructor (nodeID: int, products: seq<Product>)
      requires forall i, j :: 0 <= i < j < |products| ==> products[i].id < products[j].id
      ensures Valid() && this.nodeID == nodeID && this.products == products && money == 0
    {
      this.nodeID := nodeID;
      this.products := products;
      money := 0;
    }

    /**
     * retrieveOneProduct: an unknown id and an empty shelf change nothing;
     * otherwise the sale is kept (one item fewer, the price in the till) and
     * at most one alert is raised, the stock alert taking precedence.
     */
    method RetrieveOneProduct(productId: int) returns (r: Outcome)
      requires Valid()
      modifies this, products
      ensures forall i :: 0 <= i < |products| && Some(i) != FindId(products, productId) ==>
                products[i].quantity == old(products[i].quantity)
      ensures FindId(products, productId).None? ==> r == ProductNotFound && money == old(money)
      ensures FindId(products, productId).Some? ==>
                var p := products[FindId(products, productId).value];
                match Sell(Till(old(p.quantity), old(money)), p.price)
                case None => r == ProductNotAvailable && money == old(money) && p.quantity == old(p.quantity)
                case Some(t) =>
                  p.quantity == t.quantity && money == t.money &&
                  r == match AlertAfter(t)
                       case LowStock => StockAlert(Log(nodeID, "The stock is low for " + p.name))
                       case TooMuchMoney => MoneyAlert(Log(nodeID, "Too much money in the Distributor"))
                       case NoAlert => Sold
    {
      var found := FindId(products, productId);
      if found.None? {
        return ProductNotFound;
      }
      var product := products[found.value];
      var available := product.RetrieveOne();
      if !available {
        return ProductNotAvailable;
      }
      money := money + product.price;
      if product.quantity < ALERT_STOCK_MIN {
        return StockAlert(Log(nodeID, "The stock is low for " + product.name));
      }
      if money > ALERT_MONEY_MAX {
        return MoneyAlert(Log(nodeID, "Too much money in the Distributor"));
      }
      return Sold;
    }

    /** getStockToJson: the product ids and quantities, in catalogue order (increasing id), as two parallel arrays. */
    method StockArrays() returns (ids: seq<int>, quantities: seq<int>)
      requires Valid()
      ensures |ids| == |quantities| == |products|
      ensures forall i :: 0 <= i < |products| ==> ids[i] == products[i].id && quantities[i] == products[i].quantity
      ensures Increasing(ids)
    {
      ids, quantities := [], [];
      var i := 0;
      while i < |products|
        invariant 0 <= i <= |products| && |ids| == |quantities| == i
        invariant forall j :: 0 <= j < i ==> ids[j] == products[j].id && quantities[j] == products[j].quantity
      {
        ids := ids + [products[i].id];
        quantities := quantities + [products[i].quantity];
        i := i + 1;
      }
    }

    /**
     * execQueryGetMoney and execQueryGetStock: the till, or the ids and
     * quantities of the catalogue in increasing id order, under this node's
     * address and status 200.
     */
    function Reply(query: string): (reply: Message)
      reads this, products
      ensures reply.Status() == REPLY_STATUS_CONNECTED
      ensures query == QUERY_GET_MONEY ==> reply == MoneyReply(nodeID, money)
      ensures query != QUERY_GET_MONEY ==> reply.StockReply? && reply.distributorId == nodeID
      ensures query != QUERY_GET_MONEY ==> |reply.ids| == |reply.quantities| == |products|
      ensures query != QUERY_GET_MONEY ==>
                forall i :: 0 <= i < |products| ==> reply.ids[i] == products[i].id && reply.quantities[i] == products[i].quantity
      ensures query != QUERY_GET_MONEY && Valid() ==> Increasing(reply.ids)
    {
      if query == QUERY_GET_MONEY then MoneyReply(nodeID, money)
      else StockReply(nodeID, seq(|products|, i requires 0 <= i < |products| => products[i].id),
                      seq(|products|, i requires 0 <= i < |products| reads products => products[i].quantity))
    }

    /**
     * messageProcessing for a frame carrying a target list: exactly one
     * reply goes to the parent. The money or the stock when this node is a
     * target of a money or stock query; otherwise a bad request (status 400,
     * under the reply_get_stock name).
     */
    method MessageProcessing(m: Message) returns (reply: Message)
      requires Valid() && m.Request?
      ensures nodeID in ListedIds(m.targets) && (m.query == QUERY_GET_MONEY || m.query == QUERY_GET_STOCK) ==>
                reply == Reply(m.query)
      ensures !(nodeID in ListedIds(m.targets) && (m.query == QUERY_GET_MONEY || m.query == QUERY_GET_STOCK)) ==>
                reply == BadRequest(nodeID)
    {
      var nodesID := ListNodesId(m.targets);
      var answered := false;
      if nodeID in nodesID {
        if m.query == QUERY_GET_MONEY {
          reply := MoneyReply(nodeID, money);
          answered := true;
        } else if m.query == QUERY_GET_STOCK {
          var ids, quantities := StockArrays();
          reply := StockReply(nodeID, ids, quantities);
          assert reply == Reply(m.query);
          answered := true;
        }
      }
      if !answered {
        reply := BadRequest(nodeID);
      }
    }
  }

  /** The targets as the node reads them. */
  function ListedIds(targets: seq<int>): (ids: seq<int>)
    ensures |ids| == |targets|
  {
    seq(|targets|, i requires 0 <= i < |targets| => ToInt32(targets[i]))
  }
}
