/**
 * The ordered maps of the network code (java.util.TreeMap keyed by address
 * or product id). A table is the sequence of its entries in increasing key
 * order, which is the order entrySet() and keySet() walk; View gives the
 * map the table stands for.
 */
module Tables {
  datatype Option<T> = None | Some(value: T)

  datatype Entry<V> = Entry(key: int, value: V)

  /** Keys strictly increase along the table. */
  predicate Sorted<V>(t: seq<Entry<V>>) {
    forall i, j :: 0 <= i < j < |t| ==> t[i].key < t[j].key
  }

  /** Every key of the table is above b. */
  predicate Above<V>(t: seq<Entry<V>>, b: int) {
    forall i :: 0 <= i < |t| ==> b < t[i].key
  }

  /** Every key of the table is below b. */
  predicate Below<V>(t: seq<Entry<V>>, b: int) {
    forall i :: 0 <= i < |t| ==> t[i].key < b
  }

  /** The map a table stands for (containsKey is `in`, get is indexing). */
  function View<V>(t: seq<Entry<V>>): map<int, V> {
    if t == [] then map[] else View(t[1..])[t[0].key := t[0].value]
  }

  /** keySet() as a list, in iteration order. */
  function Keys<V>(t: seq<Entry<V>>): (ks: seq<int>)
    ensures |ks| == |t|
  {
    seq(|t|, i requires 0 <= i < |t| => t[i].key)
  }

  /** TreeMap.put: insert at the key's place, or replace the value of an existing key. */
  function Put<V>(t: seq<Entry<V>>, k: int, v: V): seq<Entry<V>> {
    if t == [] then [Entry(k, v)]
    else if k < t[0].key then [Entry(k, v)] + t
    else if k == t[0].key then [Entry(k, v)] + t[1..]
    else [t[0]] + Put(t[1..], k, v)
  }

  // ---------------------------------------------------------------------------------------------
  // The view of a table

  /** Each entry of a sorted table is what the view holds for its key. */
  lemma {:induction false} ViewAt<V>(t: seq<Entry<V>>, i: int)
    requires Sorted(t) && 0 <= i < |t|
    ensures t[i].key in View(t) && View(t)[t[i].key] == t[i].value
  {
    if i > 0 {
      ViewAt(t[1..], i - 1);
    }
  }

  /** Each key of the view is the key of some entry. */
  lemma {:induction false} ViewIndex<V>(t: seq<Entry<V>>, k: int) returns (i: int)
    requires k in View(t)
    ensures 0 <= i < |t| && t[i].key == k && View(t)[k] == t[i].value
  {
    if t[0].key == k {
      i := 0;
    } else {
      var j := ViewIndex(t[1..], k);
      i := j + 1;
    }
  }

  /** containsKey holds exactly of the keys the table lists. */
  lemma KeysOfView<V>(t: seq<Entry<V>>, k: int)
    requires Sorted(t)
    ensures k in View(t) <==> k in Keys(t)
  {
    if k in View(t) {
      var i := ViewIndex(t, k);
      assert Keys(t)[i] == k;
    }
    if k in Keys(t) {
      var i :| 0 <= i < |t| && Keys(t)[i] == k;
      ViewAt(t, i);
    }
  }

  /** Appending an entry above every key updates the view at that key, which was not in it. */
  lemma {:induction false} ViewSnoc<V>(t: seq<Entry<V>>, e: Entry<V>)
    requires Below(t, e.key)
    ensures e.key !in View(t)
    ensures View(t + [e]) == View(t)[e.key := e.value]
  {
    if t != [] {
      ViewSnoc(t[1..], e);
      assert (t + [e])[1..] == t[1..] + [e];
    }
  }

  /** A non-empty sequence is its front followed by its last element. */
  lemma FrontLast<T>(s: seq<T>)
    requires s != []
    ensures s[..|s| - 1] + [s[|s| - 1]] == s
  {
  }

  /** Concatenation is associative. */
  lemma AppendAssoc<T>(a: seq<T>, b: seq<T>, c: seq<T>)
    ensures (a + b) + c == a + (b + c)
  {
  }

  /** The front and the last element of a + b, when b is not empty. */
  lemma AppendFront<T>(a: seq<T>, b: seq<T>)
    requires b != []
    ensures (a + b)[..|a + b| - 1] == a + b[..|b| - 1] && (a + b)[|a + b| - 1] == b[|b| - 1]
  {
  }

  /** x is in a non-empty sequence when it is in its front or is its last element. */
  lemma InSnoc<T>(s: seq<T>, x: T)
    requires s != []
    ensures x in s <==> x in s[..|s| - 1] || x == s[|s| - 1]
  {
    FrontLast(s);
  }

  /** The head and tail of a sequence with one element put in front. */
  lemma ConsParts<T>(x: T, s: seq<T>)
    ensures ([x] + s)[0] == x && ([x] + s)[1..] == s
  {
  }

  /** The front of a sorted table is sorted and lies below its last key. */
  lemma SortedFront<V>(t: seq<Entry<V>>)
    requires Sorted(t) && t != []
    ensures Sorted(t[..|t| - 1]) && Below(t[..|t| - 1], t[|t| - 1].key)
  {
  }

  // ---------------------------------------------------------------------------------------------
  // put

  lemma {:induction false} PutAbove<V>(t: seq<Entry<V>>, k: int, v: V, b: int)
    requires Above(t, b) && b < k
    ensures Above(Put(t, k, v), b)
  {
    if t != [] && k > t[0].key {
      PutAbove(t[1..], k, v, b);
    }
  }

  /** An entry below every key of a sorted table can go in front of it. */
  lemma ConsSorted<V>(e: Entry<V>, r: seq<Entry<V>>)
    requires Sorted(r) && Above(r, e.key)
    ensures Sorted([e] + r)
  {
    var t := [e] + r;
    forall i, j | 0 <= i < j < |t|
      ensures t[i].key < t[j].key
    {
      assert t[j] == r[j - 1];
      if i > 0 {
        assert t[i] == r[i - 1];
      }
    }
  }

  /** put keeps the table sorted. */
  lemma {:induction false} PutSorted<V>(t: seq<Entry<V>>, k: int, v: V)
    requires Sorted(t)
    ensures Sorted(Put(t, k, v))
  {
    if t != [] && k > t[0].key {
      PutSorted(t[1..], k, v);
      PutAbove(t[1..], k, v, t[0].key);
      ConsSorted(t[0], Put(t[1..], k, v));
    } else if t != [] && k == t[0].key {
      ConsSorted(Entry(k, v), t[1..]);
    } else if t != [] {
      ConsSorted(Entry(k, v), t);
    }
  }

  /** put keeps the table sorted and updates its view at k only. */
  lemma {:induction false} PutView<V>(t: seq<Entry<V>>, k: int, v: V)
    requires Sorted(t)
    ensures Sorted(Put(t, k, v))
    ensures View(Put(t, k, v)) == View(t)[k := v]
  {
    PutSorted(t, k, v);
    if t != [] && k > t[0].key {
      var rest := Put(t[1..], k, v);
      PutView(t[1..], k, v);
      assert Put(t, k, v)[1..] == rest && Put(t, k, v)[0] == t[0];
    } else if t != [] && k == t[0].key {
      assert Put(t, k, v)[1..] == t[1..];
    } else if t != [] {
      assert Put(t, k, v)[1..] == t;
    }
  }

  /** Putting a key above every key appends it. */
  lemma {:induction false} PutAppends<V>(t: seq<Entry<V>>, k: int, v: V)
    requires Below(t, k)
    ensures Put(t, k, v) == t + [Entry(k, v)]
  {
    if t != [] {
      PutAppends(t[1..], k, v);
      assert t == [t[0]] + t[1..];
    }
  }

  // ---------------------------------------------------------------------------------------------
  // A run of puts

  /** put for each entry of es, in order. */
  function Puts<V>(t: seq<Entry<V>>, es: seq<Entry<V>>): seq<Entry<V>> {
    if es == [] then t else Put(Puts(t, es[..|es| - 1]), es[|es| - 1].key, es[|es| - 1].value)
  }

  /** Some entry of es has the key k. */
  predicate HasKey<V>(es: seq<Entry<V>>, k: int) {
    exists i :: 0 <= i < |es| && es[i].key == k
  }

  /** A run of puts keeps the table sorted, and its keys are the old ones and the ones put. */
  lemma {:induction false} PutsKeys<V>(t: seq<Entry<V>>, es: seq<Entry<V>>, k: int)
    requires Sorted(t)
    ensures Sorted(Puts(t, es))
    ensures k in View(Puts(t, es)) <==> k in View(t) || HasKey(es, k)
    ensures !HasKey(es, k) && k in View(t) ==> View(Puts(t, es))[k] == View(t)[k]
    decreases |es|
  {
    if es != [] {
      var front, e := es[..|es| - 1], es[|es| - 1];
      PutsKeys(t, front, k);
      PutView(Puts(t, front), e.key, e.value);
      HasKeySnoc(es, k);
    }
  }

  /** A list has the key k when its front has it or its last entry does. */
  lemma HasKeySnoc<V>(es: seq<Entry<V>>, k: int)
    requires es != []
    ensures HasKey(es, k) <==> HasKey(es[..|es| - 1], k) || es[|es| - 1].key == k
  {
    var front := es[..|es| - 1];
    if HasKey(front, k) {
      var i :| 0 <= i < |front| && front[i].key == k;
      assert es[i].key == k;
    }
    if HasKey(es, k) && es[|es| - 1].key != k {
      var i :| 0 <= i < |es| && es[i].key == k;
      assert front[i].key == k;
    }
  }

  /** The last put of a key wins: nothing after it with the same key, and the view holds its value. */
  lemma {:induction false} PutsLastWins<V>(t: seq<Entry<V>>, xs: seq<Entry<V>>, e: Entry<V>, ys: seq<Entry<V>>)
    requires Sorted(t) && !HasKey(ys, e.key)
    ensures e.key in View(Puts(t, xs + [e] + ys)) && View(Puts(t, xs + [e] + ys))[e.key] == e.value
    decreases |ys|
  {
    if ys == [] {
      assert xs + [e] + ys == xs + [e];
      PutsKeys(t, xs, e.key);
      PutView(Puts(t, xs), e.key, e.value);
    } else {
      var front, y := ys[..|ys| - 1], ys[|ys| - 1];
      assert forall i :: 0 <= i < |front| ==> front[i] == ys[i];
      PutsLastWins(t, xs, e, front);
      var es := xs + [e] + ys;
      assert es[..|es| - 1] == xs + [e] + front && es[|es| - 1] == y;
      PutsKeys(t, xs + [e] + front, e.key);
      PutView(Puts(t, xs + [e] + front), y.key, y.value);
    }
  }

  // ---------------------------------------------------------------------------------------------
  // Seeding a table: the `for (i = low; i < upper; i += step) map.put(i, NODE_NOT_CONNECTED)` loops

  /** low, low + step, low + 2·step, ... below upper. */
  function Ring(low: int, upper: int, step: int): (ks: seq<int>)
    requires step > 0
    decreases upper - low
  {
    if low >= upper then [] else [low] + Ring(low + step, upper, step)
  }

  /** The ring grows at its end as the loop counter moves up by one step. */
  lemma {:induction false} RingSnoc(low: int, i: int, step: int, j: nat)
    requires step > 0 && i == low + j * step
    ensures Ring(low, i + step, step) == Ring(low, i, step) + [i]
    decreases j
  {
    if j > 0 {
      RingSnoc(low + step, i, step, j - 1);
    }
  }

  /** The j-th ring element is low + j·step, and there are exactly n of them below low + n·step. */
  lemma {:induction false} RingAt(low: int, step: int, n: nat, j: int)
    requires step > 0 && 0 <= j < n
    ensures |Ring(low, low + n * step, step)| == n
    ensures Ring(low, low + n * step, step)[j] == low + j * step
    decreases n
  {
    ShiftStep(low, step, n);
    if j > 0 {
      ShiftStep(low, step, j);
      RingAt(low + step, step, n - 1, j - 1);
    } else if n > 1 {
      RingAt(low + step, step, n - 1, 0);
    }
  }

  /** n steps from low are one step and then n - 1 more. */
  lemma ShiftStep(low: int, step: int, n: int)
    ensures (low + step) + (n - 1) * step == low + n * step
  {
    assert (n - 1) * step == n * step - step;
  }

  /** A ring splits at any of its points: one more point moves from the back part to the front part. */
  lemma RingSplit(low: int, i: int, upper: int, step: int)
    requires step > 0 && i < upper
    requires Ring(low, i + step, step) == Ring(low, i, step) + [i]
    requires Ring(low, upper, step) == Ring(low, i, step) + Ring(i, upper, step)
    ensures Ring(low, upper, step) == Ring(low, i + step, step) + Ring(i + step, upper, step)
  {
    var front, back := Ring(low, i, step), Ring(i + step, upper, step);
    assert Ring(i, upper, step) == [i] + back;
    AppendAssoc(front, [i], back);
  }

  /** Put each key, in order, with the value false (NODE_NOT_CONNECTED). */
  function Seed(t: seq<Entry<bool>>, ks: seq<int>): seq<Entry<bool>> {
    if ks == [] then t else Put(Seed(t, ks[..|ks| - 1]), ks[|ks| - 1], false)
  }

  /** Seeding keeps the table sorted and sets every seeded key to false, leaving the others alone. */
  lemma {:induction false} SeedView(t: seq<Entry<bool>>, ks: seq<int>, k: int)
    requires Sorted(t)
    ensures Sorted(Seed(t, ks))
    ensures k in ks ==> k in View(Seed(t, ks)) && !View(Seed(t, ks))[k]
    ensures k !in ks ==> (k in View(Seed(t, ks)) <==> k in View(t))
    ensures k !in ks && k in View(t) ==> View(Seed(t, ks))[k] == View(t)[k]
    decreases |ks|
  {
    if ks != [] {
      var front, last := ks[..|ks| - 1], ks[|ks| - 1];
      SeedView(t, front, k);
      PutView(Seed(t, front), last, false);
      InSnoc(ks, k);
    }
  }

  /** Seeding with keys above b keeps every key above b. */
  lemma {:induction false} SeedAbove(t: seq<Entry<bool>>, ks: seq<int>, b: int)
    requires Above(t, b) && forall i :: 0 <= i < |ks| ==> b < ks[i]
    ensures Above(Seed(t, ks), b)
    decreases |ks|
  {
    if ks != [] {
      SeedAbove(t, ks[..|ks| - 1], b);
      PutAbove(Seed(t, ks[..|ks| - 1]), ks[|ks| - 1], false, b);
    }
  }

  /**
   * The loop `for (i = low; i < upper; i += step) map.put(i, NODE_NOT_CONNECTED)`
   * on the table t.
   */
  method SeedRing(t: seq<Entry<bool>>, low: int, upper: int, step: int) returns (r: seq<Entry<bool>>)
    requires step > 0
    ensures r == Seed(t, Ring(low, upper, step))
  {
    r := t;
    var i := low;
    ghost var j: nat := 0;
    while i < upper
      invariant i == low + j * step
      invariant r == Seed(t, Ring(low, i, step))
      invariant Ring(low, upper, step) == Ring(low, i, step) + Ring(i, upper, step)
      decreases upper - i
    {
      SeedRingTurn(t, r, low, i, upper, step, j);
      r := Put(r, i, false);
      i, j := i + step, j + 1;
    }
    assert Ring(i, upper, step) == [];
    assert Ring(low, i, step) + [] == Ring(low, i, step);
  }

  /** One more step along a ring. */
  lemma StepOn(low: int, j: int, step: int)
    ensures low + j * step + step == low + (j + 1) * step
  {
  }

  /** One turn of the seeding loop: the invariants of SeedRing hold again one step further. */
  lemma SeedRingTurn(t: seq<Entry<bool>>, r: seq<Entry<bool>>, low: int, i: int, upper: int, step: int, j: nat)
    requires step > 0 && i == low + j * step && i < upper
    requires r == Seed(t, Ring(low, i, step))
    requires Ring(low, upper, step) == Ring(low, i, step) + Ring(i, upper, step)
    ensures i + step == low + (j + 1) * step
    ensures Put(r, i, false) == Seed(t, Ring(low, i + step, step))
    ensures Ring(low, upper, step) == Ring(low, i + step, step) + Ring(i + step, upper, step)
  {
    RingSnoc(low, i, step, j);
    RingSplit(low, i, upper, step);
    SeedRingStep(t, low, i, step);
    StepOn(low, j, step);
  }

  /** Seeding one more ring key puts it into the table seeded so far. */
  lemma SeedRingStep(t: seq<Entry<bool>>, low: int, i: int, step: int)
    requires step > 0 && Ring(low, i + step, step) == Ring(low, i, step) + [i]
    ensures Seed(t, Ring(low, i + step, step)) == Put(Seed(t, Ring(low, i, step)), i, false)
  {
    var ks := Ring(low, i + step, step);
    assert ks[..|ks| - 1] == Ring(low, i, step);
  }

  /** A table of its own: every key of an increasing list, in order, all false. */
  function Fresh(ks: seq<int>): (t: seq<Entry<bool>>)
    ensures |t| == |ks|
  {
    seq(|ks|, i requires 0 <= i < |ks| => Entry(ks[i], false))
  }

  predicate Increasing(ks: seq<int>) {
    forall i, j :: 0 <= i < j < |ks| ==> ks[i] < ks[j]
  }

  /** Seeding an empty table with increasing keys appends them one by one. */
  lemma {:induction false} SeedEmpty(ks: seq<int>)
    requires Increasing(ks)
    ensures Seed([], ks) == Fresh(ks)
    decreases |ks|
  {
    if ks != [] {
      var front, last := ks[..|ks| - 1], ks[|ks| - 1];
      SeedEmpty(front);
      PutAppends(Fresh(front), last, false);
    }
  }

  /** Seeding an empty table with n ring keys gives the n keys low + j·step in order, all not connected. */
  lemma SeededRing(low: int, upper: int, step: int, n: nat)
    requires step > 0 && upper == low + n * step
    ensures |Seed([], Ring(low, upper, step))| == n
    ensures forall j :: 0 <= j < n ==> Seed([], Ring(low, upper, step))[j] == Entry(low + j * step, false)
  {
    var ks := Ring(low, upper, step);
    RingIncreasing(low, upper, step);
    SeedEmpty(ks);
    if n > 0 {
      RingAt(low, step, n, 0);
    }
    forall j | 0 <= j < n
      ensures ks[j] == low + j * step
    {
      RingAt(low, step, n, j);
    }
  }

  /** A ring is increasing. */
  lemma {:induction false} RingIncreasing(low: int, upper: int, step: int)
    requires step > 0
    ensures Increasing(Ring(low, upper, step))
    ensures forall i :: 0 <= i < |Ring(low, upper, step)| ==> low <= Ring(low, upper, step)[i] < upper
    decreases upper - low
  {
    if low < upper {
      RingIncreasing(low + step, upper, step);
    }
  }

  // ---------------------------------------------------------------------------------------------
  // The first entry that is not connected

  /** i is the first entry whose value is false (NODE_NOT_CONNECTED). */
  predicate IsFirstFree(t: seq<Entry<bool>>, i: int) {
    0 <= i < |t| && !t[i].value && forall j :: 0 <= j < i ==> t[j].value
  }

  /** Every entry is true (NODE_CONNECTED). */
  predicate NoneFree(t: seq<Entry<bool>>) {
    forall j :: 0 <= j < |t| ==> t[j].value
  }

  /**
   * The walk over entrySet() that stops at the first NODE_NOT_CONNECTED
   * entry: its index, or None when every entry is connected.
   */
  method FindFirstFree(t: seq<Entry<bool>>) returns (r: Option<int>)
    ensures r.Some? ==> IsFirstFree(t, r.value)
    ensures r.None? ==> NoneFree(t)
  {
    var i := 0;
    while i < |t|
      invariant 0 <= i <= |t|
      invariant forall j :: 0 <= j < i ==> t[j].value
    {
      if !t[i].value {
        return Some(i);
      }
      i := i + 1;
    }
    return None;
  }

  /** The first free entry of a sorted table holds the smallest free key of its view. */
  lemma FirstFreeIsSmallest(t: seq<Entry<bool>>, i: int)
    requires Sorted(t) && IsFirstFree(t, i)
    ensures t[i].key in View(t) && !View(t)[t[i].key]
    ensures forall k :: k in View(t) && !View(t)[k] ==> t[i].key <= k
  {
    ViewAt(t, i);
    forall k | k in View(t) && !View(t)[k]
      ensures t[i].key <= k
    {
      var j := ViewIndex(t, k);
      ViewAt(t, j);
    }
  }

  /**
   * getAvailableNodeID on one table: the key of the first free entry is
   * handed out and put back as NODE_CONNECTED; when none is free, the
   * table is left alone.
   */
  ghost predicate Allocated(before: seq<Entry<bool>>, after: seq<Entry<bool>>, r: Option<int>) {
    match r
    case None => NoneFree(before) && after == before
    case Some(k) => (exists i :: IsFirstFree(before, i) && before[i].key == k) && after == Put(before, k, true)
  }

  /** The walk of getAvailableNodeID followed by its put, on one table. */
  method Allocate(t: seq<Entry<bool>>) returns (r: Option<int>, after: seq<Entry<bool>>)
    ensures Allocated(t, after, r)
  {
    var i := FindFirstFree(t);
    if i.Some? {
      r := Some(t[i.value].key);
      after := Put(t, r.value, true);
    } else {
      r, after := None, t;
    }
  }

  /**
   * An allocation hands out the smallest free address of the table and
   * marks exactly that one connected; it fails only when every address is
   * connected.
   */
  lemma AllocatedView(before: seq<Entry<bool>>, after: seq<Entry<bool>>, r: Option<int>)
    requires Sorted(before) && Allocated(before, after, r)
    ensures Sorted(after)
    ensures r.None? ==> View(after) == View(before) && forall k :: k in View(before) ==> View(before)[k]
    ensures r.Some? ==> r.value in View(before) && !View(before)[r.value]
    ensures r.Some? ==> forall k :: k in View(before) && !View(before)[k] ==> r.value <= k
    ensures r.Some? ==> View(after) == View(before)[r.value := true]
  {
    if r.Some? {
      var i :| IsFirstFree(before, i) && before[i].key == r.value;
      FirstFreeIsSmallest(before, i);
      PutView(before, r.value, true);
    } else {
      NoneFreeView(before);
    }
  }

  /** When no entry is free, no key of the view is free. */
  lemma NoneFreeView(t: seq<Entry<bool>>)
    requires NoneFree(t)
    ensures forall k :: k in View(t) ==> View(t)[k]
  {
    forall k | k in View(t)
      ensures View(t)[k]
    {
      var j := ViewIndex(t, k);
    }
  }
}
