/**
 * The distributor manager: the root of the tree. It hands out the addresses
 * of the first ring of gateways, keeps which distributors are connected,
 * keeps the logs history, and runs one money or stock query at a time: it
 * sends the query into the ring, counts the replies that come back, and
 * builds the table the admin console shows.
 */
module Manager {
  import opened Tables
  import opened Protocol
  import opened ZigBee
  import Gateway

  /** The line shown when no log has been received. */
  const NO_LOGS := "No logs history available to display"

  // ---------------------------------------------------------------------------------------------
  // The dispatch into the first ring

  /**
   * The gateway loop of broadcastMessage: a connected ring gateway whose
   * block [gw, gw + step) holds a target gets the query; a disconnected one
   * gets nothing (an error line is printed) and nobody answers for it.
   */
  function RingSends(gws: seq<Entry<bool>>, targets: seq<int>, step: int, msg: Message): (acts: seq<Action>)
    ensures |acts| <= |gws|
  {
    if gws == [] then []
    else
      var e := gws[|gws| - 1];
      RingSends(gws[..|gws| - 1], targets, step, msg)
        + (if HasTargetIn(targets, e.key, e.key + step) && e.value then [ToGateway(e.key, msg)] else [])
  }

  /**
   * Each ring gateway k is called exactly once when it is connected and its
   * block holds a target, and never otherwise; nothing is ever sent upward
   * or answered in the name of a disconnected gateway.
   */
  lemma {:induction false} RingSendsCount(gws: seq<Entry<bool>>, targets: seq<int>, step: int, msg: Message,
                                          k: int, other: Message)
    requires Sorted(gws)
    ensures Occurrences(RingSends(gws, targets, step, msg), ToGateway(k, msg))
            == if k in View(gws) && View(gws)[k] && HasTargetIn(targets, k, k + step) then 1 else 0
    ensures Occurrences(RingSends(gws, targets, step, msg), ToParent(other)) == 0
    decreases |gws|
  {
    if gws != [] {
      var front, e := gws[..|gws| - 1], gws[|gws| - 1];
      var concerned := HasTargetIn(targets, e.key, e.key + step);
      var last := if concerned && e.value then [ToGateway(e.key, msg)] else [];
      assert RingSends(gws, targets, step, msg) == RingSends(front, targets, step, msg) + last;
      SortedFront(gws);
      RingSendsCount(front, targets, step, msg, k, other);
      RingStep(RingSends(front, targets, step, msg), e, targets, step, msg, k, other);
      FrontLast(gws);
      ViewSnoc(front, e);
      if k == e.key {
        assert HasTargetIn(targets, k, k + step) == concerned;
      }
    }
  }

  /** One more ring gateway e: at most one call, to e itself, and nothing upward. */
  lemma RingStep(sends: seq<Action>, e: Entry<bool>, targets: seq<int>, step: int, msg: Message, k: int, other: Message)
    ensures var all := sends + (if HasTargetIn(targets, e.key, e.key + step) && e.value then [ToGateway(e.key, msg)] else []);
            && Occurrences(all, ToGateway(k, msg))
               == Occurrences(sends, ToGateway(k, msg)) + (if e.key == k && e.value && HasTargetIn(targets, k, k + step) then 1 else 0)
            && Occurrences(all, ToParent(other)) == Occurrences(sends, ToParent(other))
  {
    var last := if HasTargetIn(targets, e.key, e.key + step) && e.value then [ToGateway(e.key, msg)] else [];
    CountsAppend(sends, last, ToGateway(k, msg), 0);
    CountsAppend(sends, last, ToParent(other), 0);
    if last != [] {
      assert last[..0] == [];
    }
  }

  // ---------------------------------------------------------------------------------------------
  // The aggregation of the replies

  /** A cell of the stock table: the quantity reported, or "-" when the distributor reported none for the product. */
  datatype Cell = Quantity(n: int) | Missing

  /** What waitForEndQuery shows on the admin console; an empty table is the "Unable to get" line. */
  datatype Report =
    | MoneyTable(money: seq<Entry<int>>)
    | StockTable(products: seq<Entry<string>>, rows: seq<Entry<seq<Cell>>>)
    | Raw(msgs: seq<Message>)

  /** The product ids and quantities of a reply, paired up. */
  function Zip(ids: seq<int>, quantities: seq<int>): (es: seq<Entry<int>>)
    requires |ids| == |quantities|
    ensures |es| == |ids|
  {
    seq(|ids|, i requires 0 <= i < |ids| => Entry(ids[i], quantities[i]))
  }

  /** The stock map of a reply: each (id, quantity) put in turn; empty when the two arrays differ in length. */
  function StockOf(m: Message): seq<Entry<int>>
    requires m.StockReply?
  {
    if |m.ids| == |m.quantities| then Puts([], Zip(m.ids, m.quantities)) else []
  }

  /** The (distributor, stock) pairs of the status-200 stock replies, in arrival order. */
  function StockPairs(buf: seq<Message>): seq<Entry<seq<Entry<int>>>> {
    if buf == [] then []
    else
      var m := buf[|buf| - 1];
      StockPairs(buf[..|buf| - 1]) + (if m.StockReply? then [Entry(m.distributorId, StockOf(m))] else [])
  }

  /** The (distributor, money) pairs of the money replies, in arrival order. */
  function MoneyPairs(buf: seq<Message>): seq<Entry<int>> {
    if buf == [] then []
    else
      var m := buf[|buf| - 1];
      MoneyPairs(buf[..|buf| - 1]) + (if m.MoneyReply? then [Entry(m.distributorId, m.money)] else [])
  }

  /** One row of the stock table: a cell per catalogue product, in product id order. */
  function Cells(catalogue: seq<Entry<string>>, stock: seq<Entry<int>>): (cs: seq<Cell>)
    ensures |cs| == |catalogue|
  {
    seq(|catalogue|, i requires 0 <= i < |catalogue| =>
      if catalogue[i].key in View(stock) then Quantity(View(stock)[catalogue[i].key]) else Missing)
  }

  /** The rows of the stock table, one per distributor of the collected map, in its order. */
  function StockRows(catalogue: seq<Entry<string>>, collected: seq<Entry<seq<Entry<int>>>>): (rows: seq<Entry<seq<Cell>>>)
    ensures |rows| == |collected|
  {
    seq(|collected|, i requires 0 <= i < |collected| => Entry(collected[i].key, Cells(catalogue, collected[i].value)))
  }

  /** The report for the expected reply name and the buffered replies. */
  function ReportFor(expected: string, catalogue: seq<Entry<string>>, buf: seq<Message>): Report {
    if expected == REPLY_GET_MONEY then MoneyTable(Puts([], MoneyPairs(buf)))
    else if expected == REPLY_GET_STOCK then StockTable(catalogue, StockRows(catalogue, Puts([], StockPairs(buf))))
    else Raw(buf)
  }

  /** One more buffered reply: a stock reply is put into the table, any other leaves it as it was. */
  lemma CollectStep(buf: seq<Message>, i: int)
    requires 0 <= i < |buf|
    ensures Puts([], StockPairs(buf[..i + 1])) ==
              if buf[i].StockReply? then Put(Puts([], StockPairs(buf[..i])), buf[i].distributorId, StockOf(buf[i]))
              else Puts([], StockPairs(buf[..i]))
  {
    assert buf[..i + 1][..i] == buf[..i];
    var ps := StockPairs(buf[..i]);
    if buf[i].StockReply? {
      var es := ps + [Entry(buf[i].distributorId, StockOf(buf[i]))];
      assert es[..|es| - 1] == ps;
    } else {
      assert ps + [] == ps;
    }
  }

  lemma {:induction false} StockPairsAppend(xs: seq<Message>, ys: seq<Message>)
    ensures StockPairs(xs + ys) == StockPairs(xs) + StockPairs(ys)
    decreases |ys|
  {
    if ys == [] {
      assert xs + ys == xs;
    } else {
      StockPairsAppend(xs, ys[..|ys| - 1]);
      assert (xs + ys)[..|xs + ys| - 1] == xs + ys[..|ys| - 1];
    }
  }

  lemma {:induction false} MoneyPairsAppend(xs: seq<Message>, ys: seq<Message>)
    ensures MoneyPairs(xs + ys) == MoneyPairs(xs) + MoneyPairs(ys)
    decreases |ys|
  {
    if ys == [] {
      assert xs + ys == xs;
    } else {
      MoneyPairsAppend(xs, ys[..|ys| - 1]);
      assert (xs + ys)[..|xs + ys| - 1] == xs + ys[..|ys| - 1];
    }
  }

  /** Some stock reply of the buffer comes from the distributor d. */
  predicate StockFrom(buf: seq<Message>, d: int) {
    exists j :: 0 <= j < |buf| && buf[j].StockReply? && buf[j].distributorId == d
  }

  /** Some money reply of the buffer comes from the distributor d. */
  predicate MoneyFrom(buf: seq<Message>, d: int) {
    exists j :: 0 <= j < |buf| && buf[j].MoneyReply? && buf[j].distributorId == d
  }

  lemma {:induction false} StockPairsKeys(buf: seq<Message>, d: int)
    ensures HasKey(StockPairs(buf), d) <==> StockFrom(buf, d)
    decreases |buf|
  {
    if buf != [] {
      var front, m := buf[..|buf| - 1], buf[|buf| - 1];
      StockPairsKeys(front, d);
      var last := if m.StockReply? then [Entry(m.distributorId, StockOf(m))] else [];
      var ps := StockPairs(buf);
      assert ps == StockPairs(front) + last;
      if HasKey(ps, d) {
        var i :| 0 <= i < |ps| && ps[i].key == d;
        if i < |StockPairs(front)| {
          assert StockPairs(front)[i].key == d;
          var j :| 0 <= j < |front| && front[j].StockReply? && front[j].distributorId == d;
          assert buf[j] == front[j];
        } else {
          assert buf[|buf| - 1].StockReply? && buf[|buf| - 1].distributorId == d;
        }
      }
      if StockFrom(buf, d) {
        var j :| 0 <= j < |buf| && buf[j].StockReply? && buf[j].distributorId == d;
        if j < |front| {
          assert front[j] == buf[j];
          var i :| 0 <= i < |StockPairs(front)| && StockPairs(front)[i].key == d;
          assert ps[i] == StockPairs(front)[i];
        } else {
          assert ps[|ps| - 1].key == d;
        }
      }
    }
  }

  lemma {:induction false} MoneyPairsKeys(buf: seq<Message>, d: int)
    ensures HasKey(MoneyPairs(buf), d) <==> MoneyFrom(buf, d)
    decreases |buf|
  {
    if buf != [] {
      var front, m := buf[..|buf| - 1], buf[|buf| - 1];
      MoneyPairsKeys(front, d);
      var last := if m.MoneyReply? then [Entry(m.distributorId, m.money)] else [];
      var ps := MoneyPairs(buf);
      assert ps == MoneyPairs(front) + last;
      if HasKey(ps, d) {
        var i :| 0 <= i < |ps| && ps[i].key == d;
        if i < |MoneyPairs(front)| {
          assert MoneyPairs(front)[i].key == d;
          var j :| 0 <= j < |front| && front[j].MoneyReply? && front[j].distributorId == d;
          assert buf[j] == front[j];
        } else {
          assert buf[|buf| - 1].MoneyReply? && buf[|buf| - 1].distributorId == d;
        }
      }
      if MoneyFrom(buf, d) {
        var j :| 0 <= j < |buf| && buf[j].MoneyReply? && buf[j].distributorId == d;
        if j < |front| {
          assert front[j] == buf[j];
          var i :| 0 <= i < |MoneyPairs(front)| && MoneyPairs(front)[i].key == d;
          assert ps[i] == MoneyPairs(front)[i];
        } else {
          assert ps[|ps| - 1].key == d;
        }
      }
    }
  }

  /**
   * The stock table has a row for a distributor exactly when a status-200
   * stock reply of it was buffered; its rows are in increasing distributor
   * id, each with one cell per catalogue product.
   */
  lemma StockRowsFromReplies(catalogue: seq<Entry<string>>, buf: seq<Message>, d: int)
    ensures d in View(Puts([], StockPairs(buf))) <==> StockFrom(buf, d)
    ensures Sorted(StockRows(catalogue, Puts([], StockPairs(buf))))
  {
    PutsKeys([], StockPairs(buf), d);
    StockPairsKeys(buf, d);
  }

  /**
   * A later reply of a distributor replaces an earlier one: the row of d is
   * the stock of the last stock reply d sent.
   */
  lemma StockLastReplyWins(xs: seq<Message>, m: Message, ys: seq<Message>)
    requires m.StockReply? && !StockFrom(ys, m.distributorId)
    ensures m.distributorId in View(Puts([], StockPairs(xs + [m] + ys)))
    ensures View(Puts([], StockPairs(xs + [m] + ys)))[m.distributorId] == StockOf(m)
  {
    StockPairsAppend(xs + [m], ys);
    StockPairsAppend(xs, [m]);
    assert [m][..0] == [];
    StockPairsKeys(ys, m.distributorId);
    PutsLastWins([], StockPairs(xs), Entry(m.distributorId, StockOf(m)), StockPairs(ys));
  }

  /** The same two facts for the money table. */
  lemma MoneyLastReplyWins(xs: seq<Message>, m: Message, ys: seq<Message>, d: int)
    requires m.MoneyReply? && !MoneyFrom(ys, m.distributorId)
    ensures m.distributorId in View(Puts([], MoneyPairs(xs + [m] + ys)))
    ensures View(Puts([], MoneyPairs(xs + [m] + ys)))[m.distributorId] == m.money
    ensures d in View(Puts([], MoneyPairs(xs))) <==> MoneyFrom(xs, d)
  {
    MoneyPairsAppend(xs + [m], ys);
    MoneyPairsAppend(xs, [m]);
    assert [m][..0] == [];
    MoneyPairsKeys(ys, m.distributorId);
    PutsLastWins([], MoneyPairs(xs), Entry(m.distributorId, m.money), MoneyPairs(ys));
    PutsKeys([], MoneyPairs(xs), d);
    MoneyPairsKeys(xs, d);
  }

  /**
   * In one reply, a product id repeated in the array keeps its last
   * quantity; a reply whose arrays differ in length reports nothing.
   */
  lemma StockOfReply(m: Message, i: int)
    requires m.StockReply? && 0 <= i < |m.ids| && |m.ids| == |m.quantities|
    requires forall j :: i < j < |m.ids| ==> m.ids[j] != m.ids[i]
    ensures m.ids[i] in View(StockOf(m)) && View(StockOf(m))[m.ids[i]] == m.quantities[i]
  {
    var es := Zip(m.ids, m.quantities);
    assert es == es[..i] + [es[i]] + es[i + 1..];
    PutsLastWins([], es[..i], es[i], es[i + 1..]);
  }

  // ---------------------------------------------------------------------------------------------
  // The frames read from RMI during a query

  /** The replies a query expecting the reply name e buffers out of msgs, in arrival order. */
  function Matching(msgs: seq<Message>, e: string): (r: seq<Message>)
    ensures |r| <= |msgs|
    ensures forall i :: 0 <= i < |r| ==> r[i].Query() == e
  {
    if msgs == [] then []
    else
      var m := msgs[|msgs| - 1];
      Matching(msgs[..|msgs| - 1], e) + (if m.Query() == e then [m] else [])
  }

  /** The distributor table once every announcement among msgs has marked its node connected. */
  function Announce(ds: seq<Entry<bool>>, msgs: seq<Message>): seq<Entry<bool>> {
    if msgs == [] then ds
    else
      var m := msgs[|msgs| - 1];
      var front := Announce(ds, msgs[..|msgs| - 1]);
      if m.NewNode? then Put(front, m.nodeId, true) else front
  }

  /** The log lines among msgs, in arrival order. */
  function LogLines(msgs: seq<Message>): seq<string> {
    if msgs == [] then []
    else
      var m := msgs[|msgs| - 1];
      LogLines(msgs[..|msgs| - 1]) + (if m.Log? then [m.log] else [])
  }

  /** The frames that come in during the sleep after the n-th check; a sleep past the end of arrivals brings none. */
  function Batch(arrivals: seq<seq<Message>>, n: nat): seq<Message> {
    if n < |arrivals| then arrivals[n] else []
  }

  /** The frames that came in during the first n sleeps, in arrival order. */
  function Polled(arrivals: seq<seq<Message>>, n: nat): seq<Message> {
    if n == 0 then [] else Polled(arrivals, n - 1) + Batch(arrivals, n - 1)
  }

  /** A well-formed frame is an announcement or a log exactly when it carries that name. */
  lemma FixedKinds(m: Message)
    requires m.WellFormed()
    ensures m.Query() == REPLY_NEW_NODE_CONNEXION <==> m.NewNode?
    ensures m.Query() == ADD_TO_LOGS_HISTORY <==> m.Log?
  {
  }

  /** Reading the frames a, then the frames b, buffers what a buffers, then what b buffers. */
  lemma {:induction false} MatchingAppend(a: seq<Message>, b: seq<Message>, e: string)
    ensures Matching(a + b, e) == Matching(a, e) + Matching(b, e)
    decreases |b|
  {
    if b == [] {
      assert a + b == a;
    } else {
      var front, m := b[..|b| - 1], b[|b| - 1];
      AppendFront(a, b);
      MatchingAppend(a, front, e);
      AppendAssoc(Matching(a, e), Matching(front, e), if m.Query() == e then [m] else []);
    }
  }

  /** Announcements are recorded in arrival order, across batches too. */
  lemma {:induction false} AnnounceAppend(ds: seq<Entry<bool>>, a: seq<Message>, b: seq<Message>)
    ensures Announce(ds, a + b) == Announce(Announce(ds, a), b)
    decreases |b|
  {
    if b == [] {
      assert a + b == a;
    } else {
      AppendFront(a, b);
      AnnounceAppend(ds, a, b[..|b| - 1]);
    }
  }

  /** Log lines are appended in arrival order, across batches too. */
  lemma {:induction false} LogLinesAppend(a: seq<Message>, b: seq<Message>)
    ensures LogLines(a + b) == LogLines(a) + LogLines(b)
    decreases |b|
  {
    if b == [] {
      assert a + b == a;
    } else {
      var front, m := b[..|b| - 1], b[|b| - 1];
      AppendFront(a, b);
      LogLinesAppend(a, front);
      AppendAssoc(LogLines(a), LogLines(front), if m.Log? then [m.log] else []);
    }
  }

  /**
   * Reading one more frame m after the frames front: when the state after
   * front is as Deliver says and m is read as readMessageFromRMI says, the
   * state after the whole batch is as Deliver says.
   */
  lemma DeliverStep(batch: seq<Message>, e: string, busy: bool,
                    b0: seq<Message>, bf: seq<Message>, b1: seq<Message>, c0: int, cf: int, c1: int,
                    d0: seq<Entry<bool>>, df: seq<Entry<bool>>, d1: seq<Entry<bool>>,
                    l0: seq<string>, lf: seq<string>, l1: seq<string>)
    requires batch != [] && batch[|batch| - 1].WellFormed()
    requires busy ==> e == REPLY_GET_MONEY || e == REPLY_GET_STOCK
    requires var front := batch[..|batch| - 1];
             && (busy ==> bf == b0 + Matching(front, e) && cf == c0 - |Matching(front, e)|)
             && (!busy ==> bf == b0 && cf == c0)
             && df == Announce(d0, front) && lf == l0 + LogLines(front)
    requires var m := batch[|batch| - 1];
             && (m.Query() == REPLY_NEW_NODE_CONNEXION ==> d1 == Put(df, m.nodeId, true) && l1 == lf && b1 == bf && c1 == cf)
             && (m.Query() == ADD_TO_LOGS_HISTORY ==> l1 == lf + [m.log] && d1 == df && b1 == bf && c1 == cf)
             && (m.Query() != REPLY_NEW_NODE_CONNEXION && m.Query() != ADD_TO_LOGS_HISTORY ==> d1 == df && l1 == lf)
             && (m.Query() != REPLY_NEW_NODE_CONNEXION && m.Query() != ADD_TO_LOGS_HISTORY && busy && m.Query() == e ==>
                   b1 == bf + [m] && c1 == cf - 1)
             && (m.Query() != REPLY_NEW_NODE_CONNEXION && m.Query() != ADD_TO_LOGS_HISTORY && !(busy && m.Query() == e) ==>
                   b1 == bf && c1 == cf)
    ensures busy ==> b1 == b0 + Matching(batch, e) && c1 == c0 - |Matching(batch, e)|
    ensures !busy ==> b1 == b0 && c1 == c0
    ensures d1 == Announce(d0, batch) && l1 == l0 + LogLines(batch)
  {
    var front, m := batch[..|batch| - 1], batch[|batch| - 1];
    FixedKinds(m);
    AppendAssoc(b0, Matching(front, e), [m]);
    AppendAssoc(l0, LogLines(front), if m.Log? then [m.log] else []);
    if !m.Log? {
      assert LogLines(front) + [] == LogLines(front);
    }
    if !(m.Query() == e) {
      assert Matching(front, e) + [] == Matching(front, e);
    }
  }

  /** One more sleep: the replies, announcements and log lines of its batch follow those of the earlier sleeps. */
  lemma PolledStep(arrivals: seq<seq<Message>>, n: nat, e: string,
                   b0: seq<Message>, c0: int, ds: seq<Entry<bool>>, l0: seq<string>)
    ensures Matching(Polled(arrivals, n + 1), e) == Matching(Polled(arrivals, n), e) + Matching(Batch(arrivals, n), e)
    ensures b0 + Matching(Polled(arrivals, n + 1), e)
            == (b0 + Matching(Polled(arrivals, n), e)) + Matching(Batch(arrivals, n), e)
    ensures c0 - |Matching(Polled(arrivals, n + 1), e)|
            == c0 - |Matching(Polled(arrivals, n), e)| - |Matching(Batch(arrivals, n), e)|
    ensures Announce(ds, Polled(arrivals, n + 1)) == Announce(Announce(ds, Polled(arrivals, n)), Batch(arrivals, n))
    ensures LogLines(Polled(arrivals, n + 1)) == LogLines(Polled(arrivals, n)) + LogLines(Batch(arrivals, n))
    ensures l0 + LogLines(Polled(arrivals, n + 1)) == (l0 + LogLines(Polled(arrivals, n))) + LogLines(Batch(arrivals, n))
  {
    MatchingAppend(Polled(arrivals, n), Batch(arrivals, n), e);
    AnnounceAppend(ds, Polled(arrivals, n), Batch(arrivals, n));
    LogLinesAppend(Polled(arrivals, n), Batch(arrivals, n));
    AppendAssoc(b0, Matching(Polled(arrivals, n), e), Matching(Batch(arrivals, n), e));
    AppendAssoc(l0, LogLines(Polled(arrivals, n)), LogLines(Batch(arrivals, n)));
  }

  /** None of the checks after the first n sleeps, k < n, saw the count c0 of expected replies reached. */
  ghost predicate KeptWaiting(c0: int, e: string, arrivals: seq<seq<Message>>, n: nat) {
    forall k :: 0 <= k < n ==> c0 != |Matching(Polled(arrivals, k), e)|
  }

  /** A check that sees the count not reached yet extends the run of such checks by one. */
  lemma KeptWaitingStep(c0: int, e: string, arrivals: seq<seq<Message>>, n: nat)
    requires KeptWaiting(c0, e, arrivals, n) && c0 != |Matching(Polled(arrivals, n), e)|
    ensures KeptWaiting(c0, e, arrivals, n + 1)
  {
  }

  /** A check before the timeout is followed by another one at most at the timeout. */
  lemma NextCheck(polls: nat)
    requires polls * THREAD_SLEEP_INTERVAL < QUERY_TIMEOUT
    ensures (polls + 1) * THREAD_SLEEP_INTERVAL == polls * THREAD_SLEEP_INTERVAL + THREAD_SLEEP_INTERVAL <= QUERY_TIMEOUT
  {
  }

  // ---------------------------------------------------------------------------------------------
  // The manager

  class DistributorManager {
    var isInit: bool
    var params: Params
    var addressCount: int
    var children: Interval
    var gateways: seq<Entry<bool>>
    var distributors: seq<Entry<bool>>
    var expectedReply: string
    var inProgress: bool
    var count: int
    var buffer: seq<Message>
    var catalogue: seq<Entry<string>>
    var logs: seq<string>

    /**
     * The tables are sorted; once initialised the parameters are valid and
     * the address count is theirs. The buffer is empty between queries, and
     * during a query holds only well-formed replies under the expected name,
     * which is the money or the stock reply.
     */
    ghost predicate Valid()
      reads this
    {
      Sorted(gateways) && Sorted(distributors) && Sorted(catalogue)
      && (isInit ==> params.Valid() && addressCount == AddressCount(params))
      && (!inProgress ==> buffer == [])
      && (inProgress ==> expectedReply == REPLY_GET_MONEY || expectedReply == REPLY_GET_STOCK)
      && (forall i :: 0 <= i < |buffer| ==> buffer[i].Query() == expectedReply && buffer[i].WellFormed())
    }

    constructor ()
      ensures Valid() && !isInit && !inProgress && count == 0 && expectedReply == ""
      ensures gateways == [] && distributors == [] && buffer == [] && logs == [] && catalogue == []
    {
      isInit := false;
      params := Params(0, 0, 0);
      addressCount := 0;
      children := Interval(0, 0, 0, 0);
      gateways, distributors := [], [];
      expectedReply := "";
      inProgress := false;
      count := 0;
      buffer := [];
      catalogue := [];
      logs := [];
    }

    /**
     * initDistributorManager: the first call keeps the parameters and their
     * address count, takes the product catalogue, starts with no query, no
     * log and no distributor, and puts the first ring of gateways
     * low, low + step, .. < upper of the root interval in the gateway table,
     * none connected, with the children range [low, upper + d). Later calls
     * change nothing.
     */
    method InitDistributorManager(p: Params, products: seq<Entry<string>>)
      requires Valid() && p.Valid() && Sorted(products)
      modifies this
      ensures Valid() && isInit
      ensures old(isInit) ==> unchanged(this)
      ensures !old(isInit) ==> params == p && addressCount == AddressCount(p) && catalogue == products
      ensures !old(isInit) ==> distributors == [] && logs == [] && buffer == [] && expectedReply == "" && !inProgress && count == 0
      ensures !old(isInit) ==>
                var iv := ChildInterval(p, 0, 0);
                gateways == Seed([], Ring(iv.low, iv.upper, iv.step)) &&
                children == Interval(0, iv.low, iv.upper + p.devices, iv.step)
    {
      if !isInit {
        var iv, ring := FirstRing(p);
        Start(p, AddressCount(p), products, ring, Interval(iv.depth, iv.low, iv.upper + p.devices, iv.step));
      }
    }

    /** The fields the first initDistributorManager sets: given values, no query, no log, no distributor. */
    method Start(p: Params, n: int, products: seq<Entry<string>>, ring: seq<Entry<bool>>, ch: Interval)
      requires p.Valid() && n == AddressCount(p) && Sorted(products) && Sorted(ring)
      modifies this
      ensures Valid() && isInit
      ensures params == p && addressCount == n && catalogue == products && gateways == ring && children == ch
      ensures distributors == [] && logs == [] && buffer == [] && expectedReply == "" && !inProgress && count == 0
    {
      params := p;
      addressCount := n;
      catalogue := products;
      gateways := ring;
      distributors := [];
      logs := [];
      expectedReply := "";
      inProgress := false;
      count := 0;
      buffer := [];
      children := ch;
      isInit := true;
    }

    /** The root interval and the table of its ring of gateways, none connected. */
    static method FirstRing(p: Params) returns (iv: Interval, ring: seq<Entry<bool>>)
      requires p.Valid()
      ensures iv == ChildInterval(p, 0, 0) && iv.step >= 1
      ensures ring == Seed([], Ring(iv.low, iv.upper, iv.step)) && Sorted(ring)
    {
      var r := GetNextTreeInterval(0, p);
      AddressCountIsRootSize(p);
      iv := r.value;
      assert iv == ChildInterval(p, 0, 0);
      ring := SeedRing([], iv.low, iv.upper, iv.step);
      SeedView([], Ring(iv.low, iv.upper, iv.step), 0);
    }

    /**
     * getAvailableNodeID: the smallest ring address not connected is handed
     * out and marked connected in the gateway table and in the distributor
     * table; none (NoNodeIDAvailable) when the whole ring is connected.
     */
    method GetAvailableNodeID() returns (r: Option<int>)
      requires Valid()
      modifies this`gateways, this`distributors
      ensures Valid()
      ensures Allocated(old(gateways), gateways, r)
      ensures distributors == if r.Some? then Put(old(distributors), r.value, true) else old(distributors)
    {
      var t;
      r, t := Allocate(gateways);
      AllocatedView(gateways, t, r);
      gateways := t;
      if r.Some? {
        PutView(distributors, r.value, true);
        distributors := Put(distributors, r.value, true);
      }
    }

    /**
     * freeNodeID: a known distributor is marked not connected, in the ring
     * table too when it is a ring gateway, and the answer is true; an
     * unknown address changes nothing and the answer is false.
     */
    method FreeNodeID(a: int) returns (ok: bool)
      requires Valid()
      modifies this`gateways, this`distributors
      ensures Valid()
      ensures ok <==> a in View(old(distributors))
      ensures ok ==> distributors == Put(old(distributors), a, false)
      ensures ok ==> gateways == if a in View(old(gateways)) then Put(old(gateways), a, false) else old(gateways)
      ensures !ok ==> distributors == old(distributors) && gateways == old(gateways)
    {
      if a in View(distributors) {
        PutView(distributors, a, false);
        distributors := Put(distributors, a, false);
        if a in View(gateways) {
          PutView(gateways, a, false);
          gateways := Put(gateways, a, false);
        }
        return true;
      }
      return false;
    }

    /** getConnectedDistributors: every address ever announced or handed out, freed ones included, in increasing order. */
    function ConnectedDistributors(): (ids: seq<int>)
      reads this
      ensures |ids| == |distributors|
      ensures Sorted(distributors) ==> Increasing(ids)
    {
      Keys(distributors)
    }

    /**
     * readMessageFromRMI: an announcement marks the node connected, a log is
     * appended to the history, and a reply under the expected name during a
     * query is buffered and counted down by one (the count may go below
     * zero); anything else is ignored.
     */
    method ReadMessageFromRMI(m: Message)
      requires Valid() && m.WellFormed()
      modifies this`distributors, this`logs, this`buffer, this`count
      ensures Valid()
      ensures m.Query() == REPLY_NEW_NODE_CONNEXION ==>
                distributors == Put(old(distributors), m.nodeId, true) &&
                logs == old(logs) && buffer == old(buffer) && count == old(count)
      ensures m.Query() == ADD_TO_LOGS_HISTORY ==>
                logs == old(logs) + [m.log] && distributors == old(distributors) && buffer == old(buffer) && count == old(count)
      ensures m.Query() != REPLY_NEW_NODE_CONNEXION && m.Query() != ADD_TO_LOGS_HISTORY ==>
                distributors == old(distributors) && logs == old(logs)
      ensures m.Query() != REPLY_NEW_NODE_CONNEXION && m.Query() != ADD_TO_LOGS_HISTORY && inProgress && m.Query() == expectedReply ==>
                buffer == old(buffer) + [m] && count == old(count) - 1
      ensures m.Query() != REPLY_NEW_NODE_CONNEXION && m.Query() != ADD_TO_LOGS_HISTORY && !(inProgress && m.Query() == expectedReply) ==>
                buffer == old(buffer) && count == old(count)
    {
      var query := m.Query();
      if query == REPLY_NEW_NODE_CONNEXION {
        PutView(distributors, m.nodeId, true);
        distributors := Put(distributors, m.nodeId, true);
      } else if query == ADD_TO_LOGS_HISTORY {
        logs := logs + [m.log];
      } else if inProgress && expectedReply == query {
        buffer := buffer + [m];
        count := count - 1;
      }
    }

    /** setQuery: the expected reply name, the in-progress flag and the count of replies still expected. */
    method SetQuery(query: string, flag: bool, n: int)
      modifies this`expectedReply, this`inProgress, this`count
      ensures expectedReply == query && inProgress == flag && count == n
    {
      expectedReply, inProgress, count := query, flag, n;
    }

    /**
     * sendMessageToRMI, once the previous query is over: a money or stock
     * query expects one reply per target, under the matching reply name,
     * and is dispatched into the ring; anything else does nothing.
     */
    method SendMessageToRMI(query: string, nodesID: seq<int>) returns (actions: seq<Action>)
      requires Valid() && !inProgress
      modifies this`expectedReply, this`inProgress, this`count
      ensures Valid()
      ensures query == QUERY_GET_MONEY ==> expectedReply == REPLY_GET_MONEY && inProgress && count == |nodesID|
      ensures query == QUERY_GET_STOCK ==> expectedReply == REPLY_GET_STOCK && inProgress && count == |nodesID|
      ensures query == QUERY_GET_MONEY || query == QUERY_GET_STOCK ==>
                actions == RingSends(gateways, nodesID, children.step, Request(query, nodesID))
      ensures query != QUERY_GET_MONEY && query != QUERY_GET_STOCK ==>
                actions == [] && expectedReply == old(expectedReply) && !inProgress && count == old(count)
    {
      actions := [];
      if query == QUERY_GET_MONEY {
        SetQuery(REPLY_GET_MONEY, true, |nodesID|);
        actions := BroadcastMessage(query, nodesID);
      } else if query == QUERY_GET_STOCK {
        SetQuery(REPLY_GET_STOCK, true, |nodesID|);
        actions := BroadcastMessage(query, nodesID);
      }
    }

    /** broadcastMessage: the ring loop, run only when there is at least one target. */
    method BroadcastMessage(query: string, nodesID: seq<int>) returns (actions: seq<Action>)
      ensures actions == RingSends(gateways, nodesID, children.step, Request(query, nodesID))
    {
      actions := [];
      var msg := Request(query, nodesID);
      if |nodesID| >= 1 {
        var i := 0;
        while i < |gateways|
          invariant 0 <= i <= |gateways|
          invariant actions == RingSends(gateways[..i], nodesID, children.step, msg)
        {
          var e := gateways[i];
          var below := AnyTargetIn(nodesID, e.key, e.key + children.step);
          if below && e.value {
            actions := actions + [ToGateway(e.key, msg)];
          }
          assert gateways[..i + 1][..i] == gateways[..i];
          i := i + 1;
        }
        assert gateways[..i] == gateways;
      } else {
        NoTargetNoSend(gateways, nodesID, children.step, msg);
      }
    }

    /** execReplyGetMoney: the money of each distributor that answered, the last answer winning. */
    method ExecReplyGetMoney() returns (money: seq<Entry<int>>)
      requires forall i :: 0 <= i < |buffer| ==> buffer[i].Query() == REPLY_GET_MONEY && buffer[i].WellFormed()
      ensures money == Puts([], MoneyPairs(buffer))
    {
      money := [];
      var i := 0;
      while i < |buffer|
        invariant 0 <= i <= |buffer|
        invariant money == Puts([], MoneyPairs(buffer[..i]))
      {
        var m := buffer[i];
        assert buffer[..i + 1][..i] == buffer[..i];
        if m.Status() == REPLY_STATUS_CONNECTED {
          ghost var ps := MoneyPairs(buffer[..i]);
          assert (ps + [Entry(m.distributorId, m.money)])[..|ps|] == ps;
          money := Put(money, m.distributorId, m.money);
        }
        i := i + 1;
      }
      assert buffer[..i] == buffer;
    }

    /** The inner loop of execReplyGetStock: each (id, quantity) of one reply, when both arrays have the same length. */
    static method StockOfMessage(m: Message) returns (stock: seq<Entry<int>>)
      requires m.StockReply?
      ensures stock == StockOf(m)
    {
      stock := [];
      if |m.ids| == |m.quantities| {
        ghost var es := Zip(m.ids, m.quantities);
        var i := 0;
        while i < |m.ids|
          invariant 0 <= i <= |m.ids|
          invariant stock == Puts([], es[..i])
        {
          assert es[..i + 1][..i] == es[..i];
          stock := Put(stock, m.ids[i], m.quantities[i]);
          i := i + 1;
        }
        assert es[..i] == es;
      }
    }

    /** A row of the stock table: for each catalogue product, its quantity or "-". */
    method RowCells(stock: seq<Entry<int>>) returns (cells: seq<Cell>)
      ensures cells == Cells(catalogue, stock)
    {
      cells := [];
      var i := 0;
      while i < |catalogue|
        invariant 0 <= i <= |catalogue| && |cells| == i
        invariant forall j :: 0 <= j < i ==> cells[j] == Cells(catalogue, stock)[j]
      {
        var id := catalogue[i].key;
        if id in View(stock) {
          cells := cells + [Quantity(View(stock)[id])];
        } else {
          cells := cells + [Missing];
        }
        i := i + 1;
      }
    }

    /**
     * execReplyGetStock: the stock of each distributor whose reply has
     * status 200, the last reply winning, then one row per distributor in
     * increasing id order.
     */
    method ExecReplyGetStock() returns (rows: seq<Entry<seq<Cell>>>)
      requires forall i :: 0 <= i < |buffer| ==> buffer[i].Query() == REPLY_GET_STOCK && buffer[i].WellFormed()
      ensures rows == StockRows(catalogue, Puts([], StockPairs(buffer)))
    {
      var collected := CollectStock(buffer);
      rows := [];
      var j := 0;
      while j < |collected|
        invariant 0 <= j <= |collected| && |rows| == j
        invariant forall r :: 0 <= r < j ==> rows[r] == StockRows(catalogue, collected)[r]
      {
        var cells := RowCells(collected[j].value);
        rows := rows + [Entry(collected[j].key, cells)];
        j := j + 1;
      }
    }

    /** The stock table of the buffered replies: each connected reply put in turn under its distributor. */
    static method CollectStock(buf: seq<Message>) returns (collected: seq<Entry<seq<Entry<int>>>>)
      requires forall i :: 0 <= i < |buf| ==> buf[i].Query() == REPLY_GET_STOCK && buf[i].WellFormed()
      ensures collected == Puts([], StockPairs(buf))
    {
      collected := [];
      var i := 0;
      while i < |buf|
        invariant 0 <= i <= |buf|
        invariant collected == Puts([], StockPairs(buf[..i]))
      {
        var m := buf[i];
        CollectStep(buf, i);
        if m.Status() == REPLY_STATUS_CONNECTED {
          var stock := StockOfMessage(m);
          collected := Put(collected, m.distributorId, stock);
        }
        i := i + 1;
      }
      assert buf[..i] == buf;
    }

    /**
     * The frames that come in during one sleep, read one after the other:
     * during a query the replies under the expected name are buffered and
     * counted down one each; announcements mark their node connected and
     * logs are appended, query or not.
     */
    method Deliver(batch: seq<Message>)
      requires Valid() && forall j :: 0 <= j < |batch| ==> batch[j].WellFormed()
      modifies this`distributors, this`logs, this`buffer, this`count
      ensures Valid()
      ensures inProgress ==> buffer == old(buffer) + Matching(batch, expectedReply) &&
                             count == old(count) - |Matching(batch, expectedReply)|
      ensures !inProgress ==> buffer == old(buffer) && count == old(count)
      ensures distributors == Announce(old(distributors), batch) && logs == old(logs) + LogLines(batch)
      decreases |batch|
    {
      if batch == [] {
        assert buffer + [] == buffer && logs + [] == logs;
      } else {
        var front, m := batch[..|batch| - 1], batch[|batch| - 1];
        Deliver(front);
        ghost var bf, cf, df, lf := buffer, count, distributors, logs;
        ReadMessageFromRMI(m);
        DeliverStep(batch, expectedReply, inProgress, old(buffer), bf, buffer, old(count), cf, count,
                    old(distributors), df, distributors, old(logs), lf, logs);
      }
    }

    /**
     * The end of a query: the report of the buffered replies for the
     * expected reply name, then an empty buffer and no query in progress.
     */
    method EndQuery() returns (report: Report)
      requires Valid() && inProgress
      modifies this`buffer, this`expectedReply, this`inProgress, this`count
      ensures Valid() && !inProgress && buffer == [] && expectedReply == "" && count == 0
      ensures report == ReportFor(old(expectedReply), catalogue, old(buffer))
    {
      if expectedReply == REPLY_GET_MONEY {
        var money := ExecReplyGetMoney();
        report := MoneyTable(money);
      } else if expectedReply == REPLY_GET_STOCK {
        var rows := ExecReplyGetStock();
        report := StockTable(catalogue, rows);
      } else {
        report := Raw(buffer);
      }
      buffer := [];
      SetQuery("", false, 0);
    }

    /**
     * The manager after the first n sleeps of a query that expected the
     * reply name e and started from the buffer b0, the count c0, the
     * distributor table d0 and the logs l0: every frame of those sleeps has
     * been read, and while the query is in progress the buffer holds the
     * replies that came and the count is down by as many.
     */
    ghost predicate Waited(b0: seq<Message>, c0: int, d0: seq<Entry<bool>>, l0: seq<string>, e: string,
                           arrivals: seq<seq<Message>>, n: nat)
      reads this
    {
      distributors == Announce(d0, Polled(arrivals, n)) && logs == l0 + LogLines(Polled(arrivals, n))
      && (inProgress ==>
            expectedReply == e && buffer == b0 + Matching(Polled(arrivals, n), e) &&
            count == c0 - |Matching(Polled(arrivals, n), e)|)
    }

    /**
     * The state of waitForEndQuery after n sleeps, elapsed ms, of a query
     * that expected the reply name e: every frame of those sleeps has been
     * read, no earlier check saw the count reached, and once the query is
     * over the report covers the replies buffered before the wait and those
     * that came in, and it ended on a zero count or on the timeout.
     */
    ghost predicate Waiting(b0: seq<Message>, c0: int, d0: seq<Entry<bool>>, l0: seq<string>, e: string,
                            arrivals: seq<seq<Message>>, n: nat, elapsed: int, report: Option<Report>)
      reads this
    {
      Valid() && elapsed == n * THREAD_SLEEP_INTERVAL && elapsed <= QUERY_TIMEOUT
      && Waited(b0, c0, d0, l0, e, arrivals, n) && KeptWaiting(c0, e, arrivals, n)
      && (inProgress ==> report.None?)
      && (!inProgress ==>
            buffer == [] && expectedReply == "" && count == 0 &&
            report == Some(ReportFor(e, catalogue, b0 + Matching(Polled(arrivals, n), e))) &&
            (c0 == |Matching(Polled(arrivals, n), e)| || elapsed == QUERY_TIMEOUT))
    }

    /** A check that finds the count at zero or the time out ends the query with its report. */
    method Finish(arrivals: seq<seq<Message>>, n: nat, elapsed: int, ghost b0: seq<Message>, ghost c0: int,
                  ghost d0: seq<Entry<bool>>, ghost l0: seq<string>, ghost e: string) returns (report: Option<Report>)
      requires inProgress && Waiting(b0, c0, d0, l0, e, arrivals, n, elapsed, None)
      requires count == 0 || elapsed >= QUERY_TIMEOUT
      modifies this`buffer, this`expectedReply, this`inProgress, this`count
      ensures !inProgress && Waiting(b0, c0, d0, l0, e, arrivals, n, elapsed, report)
    {
      var r := EndQuery();
      report := Some(r);
    }

    /** A check that finds the count not reached before the time out sleeps once and reads what came in. */
    method Sleep(arrivals: seq<seq<Message>>, n: nat, elapsed: int, ghost b0: seq<Message>, ghost c0: int,
                 ghost d0: seq<Entry<bool>>, ghost l0: seq<string>, ghost e: string)
      requires inProgress && Waiting(b0, c0, d0, l0, e, arrivals, n, elapsed, None)
      requires count != 0 && elapsed < QUERY_TIMEOUT
      requires forall i, j :: 0 <= i < |arrivals| && 0 <= j < |arrivals[i]| ==> arrivals[i][j].WellFormed()
      modifies this`distributors, this`logs, this`buffer, this`count
      ensures inProgress && Waiting(b0, c0, d0, l0, e, arrivals, n + 1, elapsed + THREAD_SLEEP_INTERVAL, None)
    {
      KeptWaitingStep(c0, e, arrivals, n);
      NextCheck(n);
      ReadBatch(arrivals, n, b0, c0, d0, l0, e);
    }

    /** The frames of the n-th sleep, read on top of those of the earlier sleeps. */
    method ReadBatch(arrivals: seq<seq<Message>>, n: nat, ghost b0: seq<Message>, ghost c0: int,
                     ghost d0: seq<Entry<bool>>, ghost l0: seq<string>, ghost e: string)
      requires Valid() && inProgress && Waited(b0, c0, d0, l0, e, arrivals, n)
      requires forall i, j :: 0 <= i < |arrivals| && 0 <= j < |arrivals[i]| ==> arrivals[i][j].WellFormed()
      modifies this`distributors, this`logs, this`buffer, this`count
      ensures Valid() && inProgress && Waited(b0, c0, d0, l0, e, arrivals, n + 1)
    {
      PolledStep(arrivals, n, e, b0, c0, d0, l0);
      Deliver(Batch(arrivals, n));
    }

    /**
     * waitForEndQuery, polling every 250 ms; the frames that come in while
     * it sleeps after its n-th check are arrivals[n]. Without a query in
     * progress it returns at once with nothing to show. Otherwise it stops
     * at the first check where the count of replies still expected is 0 or
     * 15000 ms have passed (so after at most 60 sleeps), and shows the
     * report on the replies buffered before the wait and those that came in
     * during its sleeps; it leaves no query in progress, an empty buffer, no
     * expected reply and a zero count. Announcements and logs that came in
     * meanwhile are recorded as they arrived.
     */
    method WaitForEndQuery(arrivals: seq<seq<Message>>) returns (report: Option<Report>, polls: nat, elapsed: int)
      requires Valid()
      requires forall i, j :: 0 <= i < |arrivals| && 0 <= j < |arrivals[i]| ==> arrivals[i][j].WellFormed()
      modifies this`distributors, this`logs, this`buffer, this`count, this`expectedReply, this`inProgress
      ensures Valid() && elapsed == polls * THREAD_SLEEP_INTERVAL
      ensures !old(inProgress) ==> report.None? && polls == 0 && unchanged(this)
      ensures old(inProgress) ==> !inProgress && buffer == [] && expectedReply == "" && count == 0
      ensures old(inProgress) ==> elapsed <= QUERY_TIMEOUT
      ensures old(inProgress) ==>
                report == Some(ReportFor(old(expectedReply), catalogue,
                                         old(buffer) + Matching(Polled(arrivals, polls), old(expectedReply))))
      ensures old(inProgress) ==>
                old(count) == |Matching(Polled(arrivals, polls), old(expectedReply))| || elapsed == QUERY_TIMEOUT
      ensures old(inProgress) ==> KeptWaiting(old(count), old(expectedReply), arrivals, polls)
      ensures old(inProgress) ==>
                distributors == Announce(old(distributors), Polled(arrivals, polls)) &&
                logs == old(logs) + LogLines(Polled(arrivals, polls))
    {
      report, polls, elapsed := None, 0, 0;
      if inProgress {
        ghost var e, b0, c0, d0, l0 := expectedReply, buffer, count, distributors, logs;
        assert l0 + [] == l0 && b0 + [] == b0;
        report, polls, elapsed := Poll(arrivals, b0, c0, d0, l0, e);
      }
    }

    /** The polling loop of waitForEndQuery, from the first check to the end of the query. */
    method Poll(arrivals: seq<seq<Message>>, ghost b0: seq<Message>, ghost c0: int, ghost d0: seq<Entry<bool>>,
                ghost l0: seq<string>, ghost e: string) returns (report: Option<Report>, polls: nat, elapsed: int)
      requires inProgress && Waiting(b0, c0, d0, l0, e, arrivals, 0, 0, None)
      requires forall i, j :: 0 <= i < |arrivals| && 0 <= j < |arrivals[i]| ==> arrivals[i][j].WellFormed()
      modifies this`distributors, this`logs, this`buffer, this`count, this`expectedReply, this`inProgress
      ensures !inProgress && Waiting(b0, c0, d0, l0, e, arrivals, polls, elapsed, report)
    {
      report, polls, elapsed := None, 0, 0;
      while inProgress
        invariant Waiting(b0, c0, d0, l0, e, arrivals, polls, elapsed, report)
        decreases QUERY_TIMEOUT - elapsed + (if inProgress then 1 else 0)
      {
        if count == 0 || elapsed >= QUERY_TIMEOUT {
          report := Finish(arrivals, polls, elapsed, b0, c0, d0, l0, e);
        } else {
          Sleep(arrivals, polls, elapsed, b0, c0, d0, l0, e);
          polls, elapsed := polls + 1, elapsed + THREAD_SLEEP_INTERVAL;
        }
      }
    }

    /** displayLogsHistory: the logs in the order they came, or a single line saying there are none. */
    method DisplayLogsHistory() returns (lines: seq<string>)
      ensures |logs| > 0 ==> lines == logs
      ensures |logs| == 0 ==> lines == [NO_LOGS]
    {
      if |logs| > 0 {
        lines := [];
        var i := 0;
        while i < |logs|
          invariant 0 <= i <= |logs| && lines == logs[..i]
        {
          lines := lines + [logs[i]];
          assert logs[..i + 1] == logs[..i] + [logs[i]];
          i := i + 1;
        }
        assert logs[..i] == logs;
      } else {
        lines := [NO_LOGS];
      }
    }
  }

  /**
   * The tree (4, 2, 3): the manager's ring is the gateways 1 and 20, none
   * connected; the first request gets 1, the second 20, the third none.
   */
  lemma FirstRing423(r1: Option<int>, t1: seq<Entry<bool>>, r2: Option<int>, t2: seq<Entry<bool>>,
                     r3: Option<int>, t3: seq<Entry<bool>>)
    requires Allocated(Seed([], Ring(1, 39, 19)), t1, r1) && Allocated(t1, t2, r2) && Allocated(t2, t3, r3)
    ensures ChildInterval(Params(4, 2, 3), 0, 0) == Interval(0, 1, 39, 19)
    ensures Seed([], Ring(1, 39, 19)) == [Entry(1, false), Entry(20, false)]
    ensures r1 == Some(1) && r2 == Some(20) && r3 == None
    ensures t3 == [Entry(1, true), Entry(20, true)]
  {
    Example423();
    assert Ring(1, 39, 19) == [1, 20];
    var t0 := Seed([], Ring(1, 39, 19));
    assert [1, 20][..1] == [1] && [1][..0] == [];
    assert Seed([], [1]) == [Entry(1, false)];
    assert t0 == Put([Entry(1, false)], 20, false);
    assert IsFirstFree(t0, 0);
    assert t1 == [Entry(1, true), Entry(20, false)];
    assert IsFirstFree(t1, 1) && r2 == Some(20);
    assert Put(t1, 20, true) == [Entry(1, true)] + Put([Entry(20, false)], 20, true);
  }

  /** With no target, no block holds one, so the ring loop sends nothing. */
  lemma {:induction false} NoTargetNoSend(gws: seq<Entry<bool>>, targets: seq<int>, step: int, msg: Message)
    requires |targets| == 0
    ensures RingSends(gws, targets, step, msg) == []
    decreases |gws|
  {
    if gws != [] {
      NoTargetNoSend(gws[..|gws| - 1], targets, step, msg);
    }
  }

  /**
   * A freed address stays listed: put on a key already present keeps the
   * keys, so the distributor list does not change and a second free of the
   * same address succeeds again.
   */
  lemma {:induction false} FreeKeepsKeys(t: seq<Entry<bool>>, a: int)
    requires Sorted(t) && a in View(t)
    ensures Keys(Put(t, a, false)) == Keys(t)
    ensures a in View(Put(t, a, false)) && !View(Put(t, a, false))[a]
  {
    PutView(t, a, false);
    PutKeepsKeys(t, a, false);
  }

  lemma {:induction false} PutKeepsKeys(t: seq<Entry<bool>>, a: int, v: bool)
    requires Sorted(t) && a in View(t)
    ensures Keys(Put(t, a, v)) == Keys(t)
  {
    if t[0].key != a {
      var i := ViewIndex(t, a);
      assert t[0].key <= t[i].key;
      PutKeepsKeys(t[1..], a, v);
      assert Keys(Put(t, a, v)) == [t[0].key] + Keys(Put(t[1..], a, v));
      assert Keys(t) == [t[0].key] + Keys(t[1..]);
    }
  }
}
