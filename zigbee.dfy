/**
 * The cluster-tree address layout used by the whole network.
 *
 * Addresses 0 .. N-1 are laid out depth first: address 0 is the root
 * (the manager); every gateway r at depth k < D owns the block
 * [r, r + Size(k)), in which r + 1 .. are its g child-gateway blocks
 * of Size(k + 1) addresses each, followed by its d child devices.
 * A gateway at depth D has no children.
 */
module ZigBee {

  // Node kinds
  const TYPE_ROOT: int := 1
  const TYPE_GATEWAY: int := 2
  const TYPE_DEVICE: int := 3

  /** Devices under each gateway, gateways under each gateway, and the tree depth. */
  datatype Params = Params(devices: int, gateways: int, depth: int)
  {
    predicate Valid() { devices >= 0 && gateways >= 1 && depth >= 1 }
  }

  /** The children of a node: gateways at low, low + step, .. < upper, devices at upper .. upper + d - 1. */
  datatype Interval = Interval(depth: int, low: int, upper: int, step: int)

  datatype NodeInfo = NodeInfo(parent: int, depth: int, kind: int)

  /** The oracle's only failure: the sought address is not below the address count. */
  datatype Result<T> = Ok(value: T) | OutOfRange

  // ---------------------------------------------------------------------------------------------
  // Arithmetic

  function Pow(b: int, e: nat): int
  {
    if e == 0 then 1 else b * Pow(b, e - 1)
  }

  /** 1 + g + g^2 + .. + g^(n-1), in Horner form. */
  function GeomSum(g: int, n: nat): int
  {
    if n == 0 then 0 else 1 + g * GeomSum(g, n - 1)
  }

  /** Java's int division, which truncates toward zero. */
  function JavaDiv(a: int, b: int): int
    requires b > 0
  {
    if a >= 0 then a / b else -((-a) / b)
  }

  predicate IsBetween(value: int, min: int, max: int)
    ensures IsBetween(value, min, max) ==> min < max
    ensures value == max ==> !IsBetween(value, min, max)
    ensures value == min ==> (IsBetween(value, min, max) <==> min < max)
  {
    min <= value < max
  }

  lemma MulSign(x: int, b: int)
    requires b > 0
    ensures x >= 1 ==> x * b >= b
    ensures x <= -1 ==> x * b <= -b
  {
    if x >= 1 {
      assert x * b == b + (x - 1) * b;
    } else if x <= -1 {
      assert x * b == -b - (-x - 1) * b;
    }
  }

  lemma DivUnique(a: int, b: int, q: int)
    requires b > 0 && q * b <= a < q * b + b
    ensures a / b == q
  {
    var q' := a / b;
    assert q' * b <= a < q' * b + b;
    assert (q' - q) * b == q' * b - q * b;
    MulSign(q' - q, b);
  }

  lemma MulDivCancel(a: int, b: int)
    requires b > 0
    ensures (a * b) / b == a
  {
    DivUnique(a * b, b, a);
  }

  /** One Horner step of the geometric sum, on plain integers. */
  lemma GeomStep(g: int, s: int, q: int)
    requires (g - 1) * s == q - 1
    ensures (g - 1) * (1 + g * s) == g * q - 1
  {
    assert (g - 1) * (1 + g * s) == (g - 1) + g * ((g - 1) * s);
  }

  lemma {:induction false} GeomSumTimes(g: int, n: nat)
    ensures (g - 1) * GeomSum(g, n) == Pow(g, n) - 1
  {
    if n > 0 {
      GeomSumTimes(g, n - 1);
      assert GeomSum(g, n) == 1 + g * GeomSum(g, n - 1);
      assert Pow(g, n) == g * Pow(g, n - 1);
      GeomStep(g, GeomSum(g, n - 1), Pow(g, n - 1));
    }
  }

  lemma {:induction false} GeomSumOfOne(n: nat)
    ensures GeomSum(1, n) == n
  {
    if n > 0 {
      GeomSumOfOne(n - 1);
    }
  }

  // ---------------------------------------------------------------------------------------------
  // Address count

  /**
   * The number of addresses of the tree, root included: the closed form
   * 1 + (g + d) * (1 + g + .. + g^(D-1)) of ZigBee.getAddressCount.
   */
  function AddressCount(p: Params): (n: int)
    requires p.Valid()
    ensures n == 1 + (p.gateways + p.devices) * GeomSum(p.gateways, p.depth)
  {
    var d, g, D := p.devices, p.gateways, p.depth;
    CountBranches(g, d, D);
    if g == 1 then D * (g + d) + 1
    else ((Pow(g, D) - 1) * (g + d)) / (g - 1) + 1
  }

  /** (a * b) * c == (c * b) * a, on plain integers. */
  lemma Rearrange(a: int, b: int, c: int)
    ensures (a * b) * c == (c * b) * a
  {
  }

  /** Both branches of getAddressCount agree with the closed form, and the division of the second is exact. */
  lemma CountBranches(g: int, d: int, D: nat)
    requires g >= 1
    ensures g == 1 ==> D * (g + d) + 1 == 1 + (g + d) * GeomSum(g, D)
    ensures g >= 2 ==> (Pow(g, D) - 1) * (g + d) == ((g + d) * GeomSum(g, D)) * (g - 1)
    ensures g >= 2 ==> ((Pow(g, D) - 1) * (g + d)) / (g - 1) == (g + d) * GeomSum(g, D)
  {
    var s := GeomSum(g, D);
    if g == 1 {
      GeomSumOfOne(D);
      assert s == D;
    } else {
      GeomSumTimes(g, D);
      assert Pow(g, D) - 1 == (g - 1) * s;
      Rearrange(g - 1, s, g + d);
      MulDivCancel((g + d) * s, g - 1);
    }
  }

  /** For g >= 2 the division in the address count is exact. */
  lemma AddressCountExactDivision(p: Params)
    requires p.Valid() && p.gateways >= 2
    ensures ((Pow(p.gateways, p.depth) - 1) * (p.gateways + p.devices)) % (p.gateways - 1) == 0
  {
    var d, g, D := p.devices, p.gateways, p.depth;
    CountBranches(g, d, D);
    var x := (g + d) * GeomSum(g, D);
    MulDivCancel(x, g - 1);
  }

  // ---------------------------------------------------------------------------------------------
  // The reference layout

  /** The number of addresses in the subtree of a gateway at depth k (itself included). */
  function Size(p: Params, k: int): (t: int)
    requires p.Valid() && 0 <= k
    ensures t >= 1
    ensures t == 1 <==> k >= p.depth
    decreases p.depth - k
  {
    if k >= p.depth then 1 else 1 + p.devices + p.gateways * Size(p, k + 1)
  }

  lemma Distrib(g: int, d: int, S: int)
    ensures 1 + d + g * (1 + (g + d) * S) == 1 + (g + d) * (1 + g * S)
  {
    assert g * (1 + (g + d) * S) == g + g * ((g + d) * S);
    assert (g + d) * (1 + g * S) == (g + d) + (g + d) * (g * S);
    assert g * ((g + d) * S) == (g + d) * (g * S);
  }

  lemma {:induction false} SizeClosedForm(p: Params, k: int)
    requires p.Valid() && 0 <= k <= p.depth
    ensures Size(p, k) == 1 + (p.gateways + p.devices) * GeomSum(p.gateways, p.depth - k)
    decreases p.depth - k
  {
    if k < p.depth {
      SizeClosedForm(p, k + 1);
      Distrib(p.gateways, p.devices, GeomSum(p.gateways, p.depth - k - 1));
    }
  }

  /** The whole address space is the subtree of the root. */
  lemma AddressCountIsRootSize(p: Params)
    requires p.Valid()
    ensures AddressCount(p) == Size(p, 0)
    ensures AddressCount(p) == 1 + p.devices + p.gateways * Size(p, 1)
  {
    SizeClosedForm(p, 0);
  }

  /**
   * The step stored in the interval of a gateway at depth k: the size of its
   * child-gateway blocks, or, at leaf depth, what Java's truncating division
   * makes of (1 - 1 - d) / g.
   */
  function StepBelow(p: Params, k: int): int
    requires p.Valid() && 0 <= k
  {
    if k < p.depth then Size(p, k + 1) else -(p.devices / p.gateways)
  }

  /** The interval of the gateway (or root) r at depth k. */
  function ChildInterval(p: Params, r: int, k: int): (iv: Interval)
    requires p.Valid() && 0 <= k
    ensures iv.depth == k && iv.low == r + 1 && iv.upper + p.devices == r + Size(p, k)
    ensures k < p.depth ==> iv.upper - iv.low == p.gateways * iv.step && iv.step == Size(p, k + 1)
    ensures k < p.depth ==> iv.low + p.gateways <= iv.upper
  {
    MulSign(Size(p, k + 1), p.gateways);
    Interval(k, r + 1, r + Size(p, k) - p.devices, StepBelow(p, k))
  }

  /** The start of the block of width step, counted from low, that holds s. */
  function BlockStart(low: int, s: int, step: int): (c: int)
    requires step > 0 && low <= s
    ensures low <= c <= s < c + step
  {
    var q := (s - low) / step;
    MulSign(q, step);
    low + q * step
  }

  /**
   * Reference definition of node information inside the subtree of the
   * gateway r at depth k: the child block holding s is found by division.
   */
  ghost function Locate(p: Params, s: int, r: int, k: int): (info: NodeInfo)
    requires p.Valid() && 0 <= k < p.depth && r < s < r + Size(p, k)
    ensures r <= info.parent < s
    ensures k + 1 <= info.depth <= p.depth
    ensures info.kind == TYPE_GATEWAY || info.kind == TYPE_DEVICE
    decreases p.depth - k
  {
    if s >= r + Size(p, k) - p.devices then NodeInfo(r, k + 1, TYPE_DEVICE)
    else
      var c := BlockStart(r + 1, s, Size(p, k + 1));
      if s == c then NodeInfo(r, k + 1, TYPE_GATEWAY)
      else Locate(p, s, c, k + 1)
  }

  /** Reference node information for every address of the tree. */
  ghost function Info(p: Params, s: int): (info: NodeInfo)
    requires p.Valid() && 0 <= s < AddressCount(p)
    ensures s == 0 ==> info == NodeInfo(0, 0, TYPE_ROOT)
    ensures s > 0 ==> 0 <= info.parent < s && 1 <= info.depth <= p.depth
    ensures s > 0 ==> info.kind == TYPE_GATEWAY || info.kind == TYPE_DEVICE
  {
    AddressCountIsRootSize(p);
    if s == 0 then NodeInfo(0, 0, TYPE_ROOT) else Locate(p, s, 0, 0)
  }

  /** The node whose interval getNextTreeInterval returns for s: s itself unless s is a device. */
  ghost function Owner(p: Params, s: int): (o: (int, int))
    requires p.Valid() && 0 <= s < AddressCount(p)
    ensures 0 <= o.0 <= s && 0 <= o.1 <= p.depth
  {
    if s == 0 then (0, 0)
    else
      var info := Info(p, s);
      if info.kind == TYPE_GATEWAY then (s, info.depth) else (info.parent, info.depth - 1)
  }

  // ---------------------------------------------------------------------------------------------
  // One step of the walk down the tree

  /** In the gateway r at depth k, addresses from the first device slot on are its devices. */
  lemma LocateDevice(p: Params, s: int, r: int, k: int)
    requires p.Valid() && 0 <= k < p.depth && r < s < r + Size(p, k)
    requires s >= r + Size(p, k) - p.devices
    ensures Locate(p, s, r, k) == NodeInfo(r, k + 1, TYPE_DEVICE)
  {
  }

  /**
   * Scanning the children of the gateway r at depth k: once the child gateway
   * node = r + 1 + i * Size(k + 1) has s in its block, s is either that child
   * or lies strictly inside the child's own subtree.
   */
  lemma LocateDescend(p: Params, s: int, r: int, k: int, i: int, node: int)
    requires p.Valid() && 0 <= k < p.depth && r < s < r + Size(p, k) - p.devices
    requires 0 <= i && node == r + 1 + i * Size(p, k + 1)
    requires node <= s < node + Size(p, k + 1)
    ensures s == node ==> Locate(p, s, r, k) == NodeInfo(r, k + 1, TYPE_GATEWAY)
    ensures s != node ==> k + 1 < p.depth && Locate(p, s, r, k) == Locate(p, s, node, k + 1)
  {
    DivUnique(s - r - 1, Size(p, k + 1), i);
  }

  /** The gateways of the last level are single addresses. */
  lemma LocateLastLevel(p: Params, s: int, r: int)
    requires p.Valid() && r < s < r + Size(p, p.depth - 1) - p.devices
    ensures Locate(p, s, r, p.depth - 1) == NodeInfo(r, p.depth, TYPE_GATEWAY)
  {
    assert Size(p, p.depth) == 1;
  }

  /** The step the Java code computes by truncating division is the next level's step. */
  lemma NextStep(p: Params, k: int)
    requires p.Valid() && 0 <= k < p.depth
    ensures JavaDiv(StepBelow(p, k) - 1 - p.devices, p.gateways) == StepBelow(p, k + 1)
  {
    if k + 1 < p.depth {
      MulDivCancel(Size(p, k + 2), p.gateways);
    }
  }

  /** The first step, computed from the size of the whole tree. */
  lemma FirstStep(p: Params)
    requires p.Valid()
    ensures JavaDiv(Size(p, 0) - 1 - p.devices, p.gateways) == StepBelow(p, 0)
    ensures Size(p, 0) - p.devices > 1
  {
    MulSign(Size(p, 1), p.gateways);
    MulDivCancel(Size(p, 1), p.gateways);
  }

  /** The next child block starts one step further. */
  lemma NextChild(low: int, i: int, step: int)
    ensures low + i * step + step == low + (i + 1) * step
  {
  }

  /** A device reports the interval of its parent gateway. */
  lemma OwnerOfDevice(p: Params, s: int, r: int, k: int)
    requires p.Valid() && 0 < s < AddressCount(p) && 0 <= k < p.depth && r < s < r + Size(p, k)
    requires Info(p, s) == Locate(p, s, r, k) == NodeInfo(r, k + 1, TYPE_DEVICE)
    ensures Owner(p, s) == (r, k)
  {
  }

  /** A gateway reports its own interval. */
  lemma OwnerOfGateway(p: Params, s: int, k: int)
    requires p.Valid() && 0 < s < AddressCount(p)
    requires Info(p, s).kind == TYPE_GATEWAY && Info(p, s).depth == k
    ensures Owner(p, s) == (s, k)
  {
  }

  /** The interval of the root, as getNextTreeInterval(0) computes it from the address count. */
  lemma RootInterval(p: Params)
    requires p.Valid()
    ensures ChildInterval(p, 0, 0) ==
              Interval(0, 1, AddressCount(p) - p.devices, JavaDiv(AddressCount(p) - 1 - p.devices, p.gateways))
  {
    AddressCountIsRootSize(p);
    FirstStep(p);
  }

  /** The sizes of the subtrees of the tree (d, g, D) = (4, 2, 3). */
  lemma Sizes423()
    ensures Size(Params(4, 2, 3), 2) == 7 && Size(Params(4, 2, 3), 1) == 19 && Size(Params(4, 2, 3), 0) == 43
  {
    var p := Params(4, 2, 3);
    assert Size(p, 3) == 1;
    assert Size(p, 2) == 7;
    assert Size(p, 1) == 19;
  }

  /** The address count and the intervals of the tree (4, 2, 3): root gateways 1 and 20, root devices 39 .. 42. */
  lemma Example423()
    ensures AddressCount(Params(4, 2, 3)) == 43
    ensures ChildInterval(Params(4, 2, 3), 0, 0) == Interval(0, 1, 39, 19)
    ensures ChildInterval(Params(4, 2, 3), 1, 1) == Interval(1, 2, 16, 7)
    ensures ChildInterval(Params(4, 2, 3), 20, 1) == Interval(1, 21, 35, 7)
  {
    Sizes423();
    AddressCountIsRootSize(Params(4, 2, 3));
  }

  /** Node 9 of the tree (4, 2, 3) is the second child gateway of gateway 1. */
  lemma ExampleInfo423Gateway9()
    ensures Info(Params(4, 2, 3), 9) == NodeInfo(1, 2, TYPE_GATEWAY)
  {
    var p := Params(4, 2, 3);
    Example423();
    Sizes423();
    LocateDescend(p, 9, 0, 0, 0, 1);
    LocateDescend(p, 9, 1, 1, 1, 9);
  }

  /** Node 20 of the tree (4, 2, 3) is the second gateway of the root. */
  lemma ExampleInfo423Gateway20()
    ensures Info(Params(4, 2, 3), 20) == NodeInfo(0, 1, TYPE_GATEWAY)
  {
    var p := Params(4, 2, 3);
    Example423();
    Sizes423();
    assert BlockStart(1, 20, 19) == 20;
    assert Locate(p, 20, 0, 0) == NodeInfo(0, 1, TYPE_GATEWAY);
  }

  /** Node 39 of the tree (4, 2, 3) is the first device of the root. */
  lemma ExampleInfo423Device39()
    ensures Info(Params(4, 2, 3), 39) == NodeInfo(0, 1, TYPE_DEVICE)
  {
    var p := Params(4, 2, 3);
    Example423();
    Sizes423();
    assert Locate(p, 39, 0, 0) == NodeInfo(0, 1, TYPE_DEVICE);
  }

  // ---------------------------------------------------------------------------------------------
  // The oracle

  /** The walk of getNextTreeInterval is still looking for s below the gateway cur at depth k. */
  ghost predicate Seeking(p: Params, s: int, cur: int, k: int)
    requires p.Valid() && 0 < s < AddressCount(p) && 0 <= k
  {
    k < p.depth && cur < s < cur + Size(p, k) && Info(p, s) == Locate(p, s, cur, k)
  }

  /**
   * One descent of the walk: the block of the child gateway node holds s, so
   * s is that gateway, or the walk goes on below it one level down with the
   * step the Java division computes.
   */
  lemma DescendKeeps(p: Params, s: int, cur: int, k: int, i: int, node: int)
    requires p.Valid() && 0 < s < AddressCount(p) && 0 <= cur < s && 0 <= k
    requires Seeking(p, s, cur, k) && s < cur + Size(p, k) - p.devices
    requires 0 <= i && node == cur + 1 + i * StepBelow(p, k) && node <= s < node + StepBelow(p, k)
    ensures k < p.depth && StepBelow(p, k) == Size(p, k + 1)
    ensures JavaDiv(StepBelow(p, k) - 1 - p.devices, p.gateways) == StepBelow(p, k + 1)
    ensures s == node ==> Info(p, s).kind == TYPE_GATEWAY && Info(p, s).depth == k + 1
    ensures s != node ==> Seeking(p, s, node, k + 1)
  {
    LocateDescend(p, s, cur, k, i, node);
    NextStep(p, k);
  }

  /** Where the walk stops: at the gateway sought, or at the parent of the device sought. */
  lemma WalkEnds(p: Params, s: int, cur: int, k: int, node: int)
    requires p.Valid() && 0 < s < AddressCount(p) && 0 <= cur <= s && 0 <= k <= p.depth
    requires cur < s ==> node <= s && Seeking(p, s, cur, k)
    requires cur == s ==> Info(p, s).kind == TYPE_GATEWAY && Info(p, s).depth == k
    requires !(node <= s && k != p.depth && s < cur + Size(p, k) - p.devices)
    ensures Owner(p, s) == (cur, k)
  {
    if cur < s {
      LocateDevice(p, s, cur, k);
      OwnerOfDevice(p, s, cur, k);
    } else {
      OwnerOfGateway(p, s, k);
    }
  }

  /**
   * ZigBee.getNextTreeInterval: the interval of the sought node, or of its parent
   * when it is a device; OutOfRange exactly when search >= N.
   */
  method GetNextTreeInterval(search: int, p: Params) returns (r: Result<Interval>)
    requires p.Valid()
    ensures r.OutOfRange? <==> search >= AddressCount(p)
    ensures 0 <= search < AddressCount(p) ==>
              r == Ok(ChildInterval(p, Owner(p, search).0, Owner(p, search).1))
    ensures 0 < search < AddressCount(p) && Info(p, search).kind == TYPE_GATEWAY ==>
              r.value.depth == Info(p, search).depth
    ensures search < 0 ==> r == Ok(ChildInterval(p, 0, 0))
  {
    var d, g := p.devices, p.gateways;
    var addressCount := AddressCount(p);
    AddressCountIsRootSize(p);
    if search >= addressCount {
      return OutOfRange;
    }
    FirstStep(p);

    var depth := 0;
    var lowLimit := 1;
    var uppLimit := addressCount - d;
    var step := JavaDiv(addressCount - 1 - d, g);

    if search != 0 {
      depth, lowLimit, uppLimit, step := Descend(search, p, depth, lowLimit, uppLimit, step);
    }
    r := Ok(Interval(depth, lowLimit, uppLimit, step));
  }

  /**
   * The search loop of getNextTreeInterval, from the root interval: it moves
   * from block to block along a level and goes down into the block holding
   * the sought address, until it reaches that address, the last level, or
   * the device slots.
   */
  method Descend(search: int, p: Params, depth0: int, lowLimit0: int, uppLimit0: int, step0: int)
    returns (depth: int, lowLimit: int, uppLimit: int, step: int)
    requires p.Valid() && search != 0 && search < AddressCount(p)
    requires Interval(depth0, lowLimit0, uppLimit0, step0) == ChildInterval(p, 0, 0)
    ensures search > 0 ==> Interval(depth, lowLimit, uppLimit, step) == ChildInterval(p, Owner(p, search).0, Owner(p, search).1)
    ensures search < 0 ==> Interval(depth, lowLimit, uppLimit, step) == ChildInterval(p, 0, 0)
  {
    var d, D := p.devices, p.depth;
    depth, lowLimit, uppLimit, step := depth0, lowLimit0, uppLimit0, step0;
    ghost var cur := 0;
    var node := 1;
    ghost var i := 0;
    AddressCountIsRootSize(p);
    while node <= search && depth != D && search < uppLimit
      invariant Walking(p, search, cur, depth, lowLimit, uppLimit, step, i, node)
      decreases search - node
    {
      if search < node + step {
        WalkDown(p, search, cur, depth, lowLimit, uppLimit, step, i, node);
        depth := depth + 1;
        lowLimit := node + 1;
        uppLimit := node + step - d;
        step := JavaDiv(step - 1 - d, p.gateways);
        cur, i := node, 0;
        node := node + 1;
      } else {
        WalkAcross(p, search, cur, depth, lowLimit, uppLimit, step, i, node);
        node := node + step;
        i := i + 1;
      }
    }
    if search > 0 {
      WalkEnds(p, search, cur, depth, node);
    }
  }

  /**
   * The state of getNextTreeInterval's loop: the interval of the node cur
   * at depth k, the candidate gateway node i blocks into it, and what is
   * known of the sought address.
   */
  ghost predicate Walking(p: Params, search: int, cur: int, k: int, lowLimit: int, uppLimit: int, step: int,
                          i: int, node: int)
  {
    p.Valid() && search != 0 && search < AddressCount(p) && 0 <= k <= p.depth
    && 0 <= cur && lowLimit == cur + 1 && uppLimit == cur + Size(p, k) - p.devices
    && step == StepBelow(p, k) && 0 <= i && node == lowLimit + i * step
    && (0 <= cur < search ==> node <= search && Seeking(p, search, cur, k))
    && (cur == search ==> node > search && Info(p, search).kind == TYPE_GATEWAY && Info(p, search).depth == k)
    && (search < 0 ==> cur == 0 && k == 0 && node == 1)
    && (search > 0 ==> cur <= search)
  }

  /** The sought address lies in the block of node: the loop goes down into it. */
  lemma WalkDown(p: Params, search: int, cur: int, k: int, lowLimit: int, uppLimit: int, step: int, i: int, node: int)
    requires Walking(p, search, cur, k, lowLimit, uppLimit, step, i, node)
    requires node <= search && k != p.depth && search < uppLimit && search < node + step
    ensures Walking(p, search, node, k + 1, node + 1, node + step - p.devices, JavaDiv(step - 1 - p.devices, p.gateways),
                    0, node + 1)
  {
    DescendKeeps(p, search, cur, k, i, node);
  }

  /** The sought address lies past the block of node: the loop moves on to the next gateway. */
  lemma WalkAcross(p: Params, search: int, cur: int, k: int, lowLimit: int, uppLimit: int, step: int, i: int, node: int)
    requires Walking(p, search, cur, k, lowLimit, uppLimit, step, i, node)
    requires node <= search && k != p.depth && search < uppLimit && search >= node + step
    ensures step >= 1 && Walking(p, search, cur, k, lowLimit, uppLimit, step, i + 1, node + step)
  {
    NextChild(lowLimit, i, step);
  }

  /**
   * ZigBee.getNodeInformation: parent, depth and kind of the sought node;
   * OutOfRange exactly when search >= N.
   */
  method GetNodeInformation(search: int, p: Params) returns (r: Result<NodeInfo>)
    requires p.Valid()
    ensures r.OutOfRange? <==> search >= AddressCount(p)
    ensures 0 <= search < AddressCount(p) ==> r == Ok(Info(p, search))
    ensures search < 0 ==> r == Ok(NodeInfo(0, 1, 0))
  {
    var d := p.devices;
    var addressCount := AddressCount(p);
    AddressCountIsRootSize(p);
    if search >= addressCount {
      return OutOfRange;
    }

    var parentNodeID := 0;
    var depth := 0;
    var kind := 0;

    if search == 0 {
      kind := TYPE_ROOT;
    } else {
      var lowLimit, uppLimit;
      parentNodeID, depth, lowLimit, uppLimit := Search(search, p, addressCount);

      // This is a gateway
      if IsBetween(search, lowLimit, uppLimit) {
        kind := TYPE_GATEWAY;
      }
      // This is a device
      if IsBetween(search, uppLimit, uppLimit + d) {
        kind := TYPE_DEVICE;
      }
    }
    r := Ok(NodeInfo(parentNodeID, depth, kind));
  }

  /**
   * The search loop of getNodeInformation: it stops with the parent and the
   * depth of the sought address, inside the parent's interval, whose gateway
   * part holds exactly the gateways and whose device part the devices.
   */
  method Search(search: int, p: Params, addressCount: int) returns (parentNodeID: int, depth: int, lowLimit: int, uppLimit: int)
    requires p.Valid() && search != 0 && search < addressCount && addressCount == AddressCount(p)
    ensures search > 0 ==> Info(p, search).parent == parentNodeID && Info(p, search).depth == depth
    ensures search > 0 ==> (Info(p, search).kind == TYPE_GATEWAY <==> lowLimit <= search < uppLimit)
    ensures search > 0 ==> (Info(p, search).kind == TYPE_DEVICE <==> uppLimit <= search < uppLimit + p.devices)
    ensures search < 0 ==> parentNodeID == 0 && depth == 1 && lowLimit == 1 && uppLimit >= 1
  {
    var d, g, D := p.devices, p.gateways, p.depth;
    parentNodeID := 0;
    lowLimit := 1;
    uppLimit := addressCount - d;
    var step := JavaDiv(addressCount - 1 - d, g);
    depth := 1;
    var node := 1;
    ghost var i := 0;
    SearchStarts(p, search);
    while node < search && depth != D && search < uppLimit
      invariant SearchState(p, search, parentNodeID, depth, lowLimit, uppLimit, step, i, node)
      decreases search - node
    {
      if search < node + step {
        SearchDescends(p, search, parentNodeID, depth, lowLimit, uppLimit, step, i, node);
        parentNodeID := node;
        depth := depth + 1;
        lowLimit := node + 1;
        uppLimit := node + step - d;
        step := JavaDiv(step - 1 - d, g);
        node := node + 1;
        i := 0;
      } else {
        SearchNext(p, search, parentNodeID, depth, lowLimit, uppLimit, step, i, node);
        node := node + step;
        i := i + 1;
      }
    }
    SearchEnds(p, search, parentNodeID, depth, lowLimit, uppLimit, step, i, node);
  }

  /**
   * The state of the search loop: the interval of the current parent at the
   * current depth, the child gateway block reached, and (for a positive
   * address) the address still lying below the current parent.
   */
  ghost predicate SearchState(p: Params, s: int, parent: int, depth: int, low: int, upp: int, step: int, i: int, node: int)
    requires p.Valid() && s < AddressCount(p)
  {
    && 1 <= depth <= p.depth
    && 0 <= parent && low == parent + 1 && upp == parent + Size(p, depth - 1) - p.devices
    && step == Size(p, depth)
    && 0 <= i && node == low + i * step
    && (s > 0 ==> node <= s && Seeking(p, s, parent, depth - 1))
    && (s < 0 ==> parent == 0 && depth == 1 && node == 1)
  }

  /** The search starts at the root interval, one level down. */
  lemma SearchStarts(p: Params, s: int)
    requires p.Valid() && s != 0 && s < AddressCount(p)
    ensures SearchState(p, s, 0, 1, 1, AddressCount(p) - p.devices,
                        JavaDiv(AddressCount(p) - 1 - p.devices, p.gateways), 0, 1)
  {
    AddressCountIsRootSize(p);
    FirstStep(p);
  }

  /** One descent of the search loop into the child gateway block holding s. */
  lemma SearchDescends(p: Params, s: int, parent: int, depth: int, low: int, upp: int, step: int, i: int, node: int)
    requires p.Valid() && s < AddressCount(p)
    requires SearchState(p, s, parent, depth, low, upp, step, i, node)
    requires node < s && depth != p.depth && s < upp && s < node + step
    ensures SearchState(p, s, node, depth + 1, node + 1, node + step - p.devices,
                        JavaDiv(step - 1 - p.devices, p.gateways), 0, node + 1)
  {
    MulSign(i, step);
    DescendKeeps(p, s, parent, depth - 1, i, node);
  }

  /** One step of the search loop to the next child gateway block. */
  lemma SearchNext(p: Params, s: int, parent: int, depth: int, low: int, upp: int, step: int, i: int, node: int)
    requires p.Valid() && s < AddressCount(p)
    requires SearchState(p, s, parent, depth, low, upp, step, i, node)
    requires node < s && depth != p.depth && s < upp && node + step <= s
    ensures step >= 1 && SearchState(p, s, parent, depth, low, upp, step, i + 1, node + step)
  {
    NextChild(low, i, step);
  }

  /** Where the search stops: the parent and depth of the address, and which part of the parent's interval holds it. */
  lemma SearchEnds(p: Params, s: int, parent: int, depth: int, low: int, upp: int, step: int, i: int, node: int)
    requires p.Valid() && s != 0 && s < AddressCount(p)
    requires SearchState(p, s, parent, depth, low, upp, step, i, node)
    requires !(node < s && depth != p.depth && s < upp)
    ensures s > 0 ==> Info(p, s).parent == parent && Info(p, s).depth == depth
    ensures s > 0 ==> (Info(p, s).kind == TYPE_GATEWAY <==> low <= s < upp)
    ensures s > 0 ==> (Info(p, s).kind == TYPE_DEVICE <==> upp <= s < upp + p.devices)
    ensures s < 0 ==> parent == 0 && depth == 1 && low == 1 && upp >= 1
  {
    if s < 0 {
      MulSign(p.gateways, Size(p, 1));
    } else if s < upp {
      if depth == p.depth {
        LocateLastLevel(p, s, parent);
      } else {
        LocateDescend(p, s, parent, depth - 1, i, node);
      }
    } else {
      LocateDevice(p, s, parent, depth - 1);
    }
  }
}
