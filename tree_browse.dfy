/**
 * The self-check of the address layout: starting from the root, every
 * gateway's interval is browsed (its devices first, then its child
 * gateways, descending into each one that has children), and every
 * visited address is checked against the node information of the oracle.
 * The check succeeds when every address 1 .. N-1 has been checked exactly
 * once, with the expected parent, depth and kind.
 */
module TreeBrowse {
  import opened ZigBee

  /** One checkNode call: the address, and the parent, depth and kind expected for it. */
  datatype Check = Check(node: int, parent: int, depth: int, kind: int)
  {
    function Expected(): NodeInfo { NodeInfo(parent, depth, kind) }
  }

  /** How many of the checks are for the address s. */
  function Count(cs: seq<Check>, s: int): (n: nat)
    ensures n <= |cs|
  {
    if cs == [] then 0 else (if cs[0].node == s then 1 else 0) + Count(cs[1..], s)
  }

  lemma {:induction false} CountAppend(xs: seq<Check>, ys: seq<Check>, s: int)
    ensures Count(xs + ys, s) == Count(xs, s) + Count(ys, s)
  {
    if xs == [] {
      assert xs + ys == ys;
    } else {
      CountAppend(xs[1..], ys, s);
      assert (xs + ys)[1..] == xs[1..] + ys;
    }
  }

  // ---------------------------------------------------------------------------------------------
  // The browse

  /** The device loop: addresses i .. end-1 are checked as devices of r at depth k + 1. */
  function DeviceChecks(r: int, k: int, i: int, end: int): (cs: seq<Check>)
    ensures forall c :: c in cs ==>
              i <= c.node < end && c.parent == r && c.depth == k + 1 && c.kind == TYPE_DEVICE
    decreases end - i
  {
    if i >= end then [] else [Check(i, r, k + 1, TYPE_DEVICE)] + DeviceChecks(r, k, i + 1, end)
  }

  /** The device loop checks each address i .. end-1 once and nothing else. */
  lemma {:induction false} DeviceCount(r: int, k: int, i: int, end: int, s: int)
    ensures Count(DeviceChecks(r, k, i, end), s) == if i <= s < end then 1 else 0
    decreases end - i
  {
    if i < end {
      DeviceCount(r, k, i + 1, end, s);
      CountAppend([Check(i, r, k + 1, TYPE_DEVICE)], DeviceChecks(r, k, i + 1, end), s);
    }
  }

  /** browseTheTree for the gateway (or root) r at depth k < D. */
  function Browse(p: Params, r: int, k: int): (cs: seq<Check>)
    requires p.Valid() && 0 <= k < p.depth
    ensures forall c :: c in cs ==> k < c.depth <= p.depth
    decreases p.depth - k, 1, 0
  {
    var iv := ChildInterval(p, r, k);
    DeviceChecks(r, iv.depth, iv.upper, iv.upper + p.devices) + GatewayChecks(p, r, k, iv.low)
  }

  /** The gateway loop of browseTheTree, from the child gateway node on. */
  function GatewayChecks(p: Params, r: int, k: int, node: int): (cs: seq<Check>)
    requires p.Valid() && 0 <= k < p.depth
    ensures forall c :: c in cs ==> k < c.depth <= p.depth
    decreases p.depth - k, 0, r + Size(p, k) - p.devices - node
  {
    var iv := ChildInterval(p, r, k);
    if node >= iv.upper then []
    else [Check(node, r, k + 1, TYPE_GATEWAY)] + Subtree(p, node, k) + GatewayChecks(p, r, k, node + iv.step)
  }

  /** The recursive call for the child gateway node of a gateway at depth k, made only when node has children. */
  function Subtree(p: Params, node: int, k: int): (cs: seq<Check>)
    requires p.Valid() && 0 <= k < p.depth
    ensures forall c :: c in cs ==> k + 1 < c.depth <= p.depth
    decreases p.depth - k - 1, 2, 0
  {
    if k < p.depth - 1 then Browse(p, node, k + 1) else []
  }

  // ---------------------------------------------------------------------------------------------
  // Every check passes

  /** Every check of the browse below r is for an address of r's subtree and expects what the reference layout says. */
  lemma {:induction false} BrowseSound(p: Params, r: int, k: int, c: Check)
    requires p.Valid() && 0 <= k < p.depth && c in Browse(p, r, k)
    ensures r < c.node < r + Size(p, k) && Locate(p, c.node, r, k) == c.Expected()
    decreases p.depth - k, 1, 0
  {
    var iv := ChildInterval(p, r, k);
    if c in DeviceChecks(r, iv.depth, iv.upper, iv.upper + p.devices) {
      LocateDevice(p, c.node, r, k);
    } else {
      GatewaySound(p, r, k, iv.low, 0, c);
    }
  }

  lemma {:induction false} SubtreeSound(p: Params, node: int, k: int, c: Check)
    requires p.Valid() && 0 <= k < p.depth && c in Subtree(p, node, k)
    ensures k + 1 < p.depth
    ensures node < c.node < node + Size(p, k + 1) && Locate(p, c.node, node, k + 1) == c.Expected()
    decreases p.depth - k - 1, 2, 0
  {
    BrowseSound(p, node, k + 1, c);
  }

  lemma {:induction false} GatewaySound(p: Params, r: int, k: int, node: int, i: int, c: Check)
    requires p.Valid() && 0 <= k < p.depth
    requires 0 <= i && node == r + 1 + i * Size(p, k + 1) && c in GatewayChecks(p, r, k, node)
    ensures node <= c.node < ChildInterval(p, r, k).upper && Locate(p, c.node, r, k) == c.Expected()
    decreases p.depth - k, 0, r + Size(p, k) - p.devices - node
  {
    var iv := ChildInterval(p, r, k);
    GatewayChecksUnfold(p, r, k, node);
    StepInside(p, r, k, node, i);
    if c == Check(node, r, k + 1, TYPE_GATEWAY) {
      LocateDescend(p, node, r, k, i, node);
    } else if c in Subtree(p, node, k) {
      SubtreeSound(p, node, k, c);
      LocateDescend(p, c.node, r, k, i, node);
    } else {
      NextChild(r + 1, i, iv.step);
      GatewaySound(p, r, k, node + iv.step, i + 1, c);
    }
  }

  /** One turn of the gateway loop: nothing past the upper limit, otherwise the child, its subtree, then the next child. */
  lemma GatewayChecksUnfold(p: Params, r: int, k: int, node: int)
    requires p.Valid() && 0 <= k < p.depth
    ensures node >= ChildInterval(p, r, k).upper ==> GatewayChecks(p, r, k, node) == []
    ensures node < ChildInterval(p, r, k).upper ==>
              GatewayChecks(p, r, k, node)
              == [Check(node, r, k + 1, TYPE_GATEWAY)] + Subtree(p, node, k)
                 + GatewayChecks(p, r, k, node + ChildInterval(p, r, k).step)
  {
  }

  /** A child gateway below the upper limit has its whole block below the upper limit. */
  lemma StepInside(p: Params, r: int, k: int, node: int, i: int)
    requires p.Valid() && 0 <= k < p.depth
    requires 0 <= i && node == r + 1 + i * Size(p, k + 1) && node < r + Size(p, k) - p.devices
    ensures r < node && node + Size(p, k + 1) <= r + Size(p, k) - p.devices
  {
    var step, g := Size(p, k + 1), p.gateways;
    assert r + Size(p, k) - p.devices - node == (g - i) * step;
    MulSign(g - i, step);
    MulSign(i, step);
  }

  // ---------------------------------------------------------------------------------------------
  // Every address is checked exactly once

  /** The browse below r checks every address of r's subtree other than r once, and nothing else. */
  lemma {:induction false} BrowseCount(p: Params, r: int, k: int, s: int)
    requires p.Valid() && 0 <= k < p.depth
    ensures Count(Browse(p, r, k), s) == if r < s < r + Size(p, k) then 1 else 0
    decreases p.depth - k, 1, 0
  {
    var iv := ChildInterval(p, r, k);
    CountAppend(DeviceChecks(r, iv.depth, iv.upper, iv.upper + p.devices), GatewayChecks(p, r, k, iv.low), s);
    DeviceCount(r, iv.depth, iv.upper, iv.upper + p.devices, s);
    GatewayCount(p, r, k, iv.low, 0, s);
  }

  lemma {:induction false} SubtreeCount(p: Params, node: int, k: int, step: int, s: int)
    requires p.Valid() && 0 <= k < p.depth && step == Size(p, k + 1)
    ensures Count(Subtree(p, node, k), s) == if node < s < node + step then 1 else 0
    decreases p.depth - k - 1, 2, 0
  {
    if k < p.depth - 1 {
      BrowseCount(p, node, k + 1, s);
    } else {
      assert Size(p, k + 1) == 1;
    }
  }

  /** The gateway loop from node on checks every address of [node, upper) once, and nothing else. */
  lemma {:induction false} GatewayCount(p: Params, r: int, k: int, node: int, i: int, s: int)
    requires p.Valid() && 0 <= k < p.depth
    requires 0 <= i && node == r + 1 + i * Size(p, k + 1) && node <= ChildInterval(p, r, k).upper
    ensures Count(GatewayChecks(p, r, k, node), s) == if node <= s < ChildInterval(p, r, k).upper then 1 else 0
    decreases p.depth - k, 0, r + Size(p, k) - p.devices - node
  {
    var iv := ChildInterval(p, r, k);
    GatewayChecksUnfold(p, r, k, node);
    if node < iv.upper {
      var head := [Check(node, r, k + 1, TYPE_GATEWAY)];
      StepInside(p, r, k, node, i);
      SubtreeCount(p, node, k, iv.step, s);
      NextChild(r + 1, i, iv.step);
      GatewayCount(p, r, k, node + iv.step, i + 1, s);
      CountAppend(head + Subtree(p, node, k), GatewayChecks(p, r, k, node + iv.step), s);
      CountAppend(head, Subtree(p, node, k), s);
    }
  }

  /**
   * The self-check for the whole tree: the checks visit the addresses
   * 1 .. N-1 each exactly once, and each check finds the parent, depth and
   * kind that the oracle reports, so the set of unchecked addresses ends empty.
   */
  lemma TreeCheckSucceeds(p: Params)
    requires p.Valid()
    ensures forall s :: Count(Browse(p, 0, 0), s) == if 0 < s < AddressCount(p) then 1 else 0
    ensures forall c :: c in Browse(p, 0, 0) ==>
              0 < c.node < AddressCount(p) && Info(p, c.node) == c.Expected()
  {
    AddressCountIsRootSize(p);
    forall s
      ensures Count(Browse(p, 0, 0), s) == if 0 < s < AddressCount(p) then 1 else 0
    {
      BrowseCount(p, 0, 0, s);
    }
    forall c | c in Browse(p, 0, 0)
      ensures 0 < c.node < AddressCount(p) && Info(p, c.node) == c.Expected()
    {
      BrowseSound(p, 0, 0, c);
    }
  }
}
