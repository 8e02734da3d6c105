/**
 * Connected-component labelling of the binary tumour mask (watershed.c).
 * A row-major scan finds each foreground pixel not yet labelled, gives it
 * the next label and flood-fills its 4-connected foreground component
 * with a breadth-first search over a statically allocated ring queue,
 * accumulating area, bounding box and coordinate sums; at most
 * MAX_REGIONS components are labelled.
 */
module Watershed {
  import opened Platform
  import opened Histogram
  import opened Morphology
  import opened IntSqrt

  const MaxRegions: nat := 16
  const QueueCap: nat := 65536   // QUEUE_CAP == IMG_SIZE

  /**
   * The static BFS queue: queue_buf with the free-running q_head and
   * q_tail, both used modulo QUEUE_CAP. `items` are the entries pushed
   * and not yet popped, oldest first.
   */
  class RingQueue {
    const buf: array<nat>
    var head: nat
    var tail: nat
    ghost var items: seq<nat>

    ghost predicate Valid()
      reads this, buf
    {
      && buf.Length == QueueCap
      && head <= tail
      && |items| == tail - head
      && forall i :: 0 <= i < |items| ==> buf[(head + i) % QueueCap] == items[i]
    }

    constructor ()
      ensures Valid() && items == [] && fresh(buf)
    {
      buf := new nat[QueueCap];
      head, tail := 0, 0;
      items := [];
    }

    /** q_reset: both indices back to 0; the queue is empty. */
    method Reset()
      requires buf.Length == QueueCap
      modifies this
      ensures Valid() && items == [] && head == 0 && tail == 0
    {
      head, tail := 0, 0;
      items := [];
    }

    /** q_empty. */
    predicate IsEmpty(): (r: bool)
      requires Valid()
      reads this, buf
      ensures r <==> items == []
    {
      head == tail
    }

    /**
     * q_push: stores at q_tail % QUEUE_CAP. With fewer than QUEUE_CAP
     * entries pending, that slot holds none of them, so nothing pending is
     * overwritten.
     */
    method Push(v: nat)
      requires Valid() && |items| < QueueCap
      modifies this, buf
      ensures Valid() && items == old(items) + [v]
      ensures head == old(head) && tail == old(tail) + 1
    {
      buf[tail % QueueCap] := v;
      forall i | 0 <= i < |items|
        ensures buf[(head + i) % QueueCap] == items[i]
      {
        DistinctSlots(head + i, tail);
      }
      tail := tail + 1;
      items := items + [v];
    }

    /** q_pop: returns the oldest pending entry. */
    method Pop() returns (v: nat)
      requires Valid() && items != []
      modifies this
      ensures Valid() && v == old(items)[0] && items == old(items)[1..]
      ensures head == old(head) + 1 && tail == old(tail)
    {
      v := buf[head % QueueCap];
      head := head + 1;
      items := items[1..];
    }
  }

  /** Two positions less than QUEUE_CAP apart use different slots. */
  lemma DistinctSlots(a: nat, b: nat)
    requires a < b < a + QueueCap
    ensures a % QueueCap != b % QueueCap
  {
    assert a == (a / QueueCap) * QueueCap + a % QueueCap;
    assert b == (b / QueueCap) * QueueCap + b % QueueCap;
  }

  // ---------------------------------------------------------------- geometry

  function Col(p: int): int { p % ImgWidth }
  function Row(p: int): int { p / ImgWidth }

  /** The dx[] and dy[] tables of the neighbour loop. */
  function Dx(d: int): int { if d == 0 then -1 else if d == 1 then 1 else 0 }
  function Dy(d: int): int { if d == 2 then -1 else if d == 3 then 1 else 0 }

  /** Neighbour d of pixel p lies inside the frame. */
  predicate StepOk(p: int, d: int) {
    InFrame(Row(p) + Dy(d), Col(p) + Dx(d))
  }

  /** ni = ny * IMG_WIDTH + nx for neighbour d of pixel p. */
  function Step(p: int, d: int): int {
    Idx(Row(p) + Dy(d), Col(p) + Dx(d))
  }

  /** q is one of the in-frame 4-connected neighbours of p. */
  predicate Adjacent(p: int, q: int) {
    && 0 <= p < ImgSize
    && ((StepOk(p, 0) && Step(p, 0) == q) || (StepOk(p, 1) && Step(p, 1) == q)
        || (StepOk(p, 2) && Step(p, 2) == q) || (StepOk(p, 3) && Step(p, 3) == q))
  }

  lemma StepInRange(p: int, d: int)
    requires 0 <= p < ImgSize && StepOk(p, d)
    ensures 0 <= Step(p, d) < ImgSize
  {
    IdxInRange(Row(p) + Dy(d), Col(p) + Dx(d));
  }

  /** 4-adjacency is symmetric: the opposite step leads back. */
  lemma {:induction false} AdjacentSymmetric(p: int, q: int)
    requires Adjacent(p, q)
    ensures Adjacent(q, p) && 0 <= q < ImgSize
  {
    IdxOfPixel(p);
    var d :| 0 <= d < 4 && StepOk(p, d) && Step(p, d) == q;
    var r := Row(p) + Dy(d);
    var c := Col(p) + Dx(d);
    assert InFrame(r, c) by { assert StepOk(p, d); }
    RowCol(r, c);
    IdxInRange(r, c);
    assert Step(p, d) == q;
    assert q == Idx(r, c);
    assert Row(q) == r && Col(q) == c;
    var back := if d == 0 then 1 else if d == 1 then 0 else if d == 2 then 3 else 2;
    assert Dy(back) == -Dy(d) && Dx(back) == -Dx(d);
    assert Row(q) + Dy(back) == Row(p) && Col(q) + Dx(back) == Col(p);
    assert StepOk(q, back) && Step(q, back) == p;
  }

  // ---------------------------------------------------------- reachability

  /** A chain of foreground pixels, each 4-adjacent to the next. */
  ghost predicate IsPath(mask: seq<Byte>, path: seq<int>)
    requires |mask| == ImgSize
  {
    && |path| >= 1
    && (forall k :: 0 <= k < |path| ==> 0 <= path[k] < ImgSize && mask[path[k]] != 0)
    && (forall k :: 0 <= k < |path| - 1 ==> Adjacent(path[k], path[k + 1]))
  }

  /** p is 4-connected to s through foreground pixels. */
  ghost predicate Connected(mask: seq<Byte>, s: int, p: int)
    requires |mask| == ImgSize
  {
    exists path :: IsPath(mask, path) && path[0] == s && path[|path| - 1] == p
  }

  lemma ConnectedSelf(mask: seq<Byte>, s: int)
    requires |mask| == ImgSize && 0 <= s < ImgSize && mask[s] != 0
    ensures Connected(mask, s, s)
  {
    assert IsPath(mask, [s]);
  }

  lemma ConnectedStep(mask: seq<Byte>, s: int, p: int, q: int)
    requires |mask| == ImgSize && Connected(mask, s, p)
    requires Adjacent(p, q) && mask[q] != 0
    ensures Connected(mask, s, q)
  {
    var path :| IsPath(mask, path) && path[0] == s && path[|path| - 1] == p;
    AdjacentSymmetric(p, q);
    var path' := path + [q];
    assert IsPath(mask, path');
  }

  /** Nonzero labels mark foreground pixels only. */
  ghost predicate OnForeground(mask: seq<Byte>, labels: seq<Byte>)
    requires |mask| == ImgSize && |labels| == ImgSize
  {
    forall i :: 0 <= i < ImgSize && labels[i] != 0 ==> mask[i] != 0
  }

  /** Every foreground neighbour of a labelled pixel carries the same label. */
  ghost predicate Closed(mask: seq<Byte>, labels: seq<Byte>)
    requires |mask| == ImgSize && |labels| == ImgSize
  {
    forall i, j :: 0 <= i < ImgSize && labels[i] != 0 && Adjacent(i, j) && mask[j] != 0 ==>
      labels[j] == labels[i]
  }

  /** Along a path in a closed labelling, a label at either end covers both. */
  lemma {:induction false} ClosedAlongPath(mask: seq<Byte>, labels: seq<Byte>, path: seq<int>)
    requires |mask| == ImgSize && |labels| == ImgSize && Closed(mask, labels)
    requires IsPath(mask, path)
    ensures labels[path[0]] != 0 ==> labels[path[|path| - 1]] == labels[path[0]]
    ensures labels[path[|path| - 1]] != 0 ==> labels[path[0]] == labels[path[|path| - 1]]
  {
    if |path| > 1 {
      var front := path[..|path| - 1];
      assert IsPath(mask, front);
      ClosedAlongPath(mask, labels, front);
      var a, b := path[|path| - 2], path[|path| - 1];
      assert Adjacent(a, b);
      AdjacentSymmetric(a, b);
    }
  }

  /** In a closed labelling a component lies inside one label, or none. */
  lemma ClosedComponent(mask: seq<Byte>, labels: seq<Byte>, s: int, p: int)
    requires |mask| == ImgSize && |labels| == ImgSize && Closed(mask, labels)
    requires Connected(mask, s, p)
    ensures labels[s] != 0 ==> labels[p] == labels[s]
    ensures labels[p] != 0 ==> labels[s] == labels[p]
  {
    var path :| IsPath(mask, path) && path[0] == s && path[|path| - 1] == p;
    ClosedAlongPath(mask, labels, path);
  }

  lemma StepAdjacent(p: int, d: int)
    requires 0 <= p < ImgSize && 0 <= d < 4 && StepOk(p, d)
    ensures Adjacent(p, Step(p, d)) && 0 <= Step(p, d) < ImgSize
  {
    StepInRange(p, d);
  }

  // ------------------------------------------------------- label counting

  lemma {:induction false} CountOfSet(s: seq<Byte>, i: int, v: Byte)
    requires 0 <= i < |s| && s[i] != v
    ensures CountOf(s[i := v], v) == CountOf(s, v) + 1
    ensures forall w :: w != v && w != s[i] ==> CountOf(s[i := v], w) == CountOf(s, w)
  {
    var n := |s| - 1;
    if i < n {
      CountOfSet(s[..n], i, v);
      assert s[i := v][..n] == s[..n][i := v];
    } else {
      assert s[i := v][..n] == s[..n];
    }
  }

  lemma {:induction false} CountOfMissing(s: seq<Byte>, v: int, i: int)
    requires 0 <= i < |s| && s[i] != v
    ensures CountOf(s, v) < |s|
  {
    var n := |s| - 1;
    if i < n {
      CountOfMissing(s[..n], v, i);
    }
  }

  lemma {:induction false} CountOfAbsent(s: seq<Byte>, v: int)
    requires forall i :: 0 <= i < |s| ==> s[i] != v
    ensures CountOf(s, v) == 0
  {
    if s != [] {
      CountOfAbsent(s[..|s| - 1], v);
    }
  }

  /** Two labellings that mark the same pixels with v count v alike. */
  lemma {:induction false} CountOfSame(s: seq<Byte>, t: seq<Byte>, v: int)
    requires |s| == |t| && forall i :: 0 <= i < |s| ==> (s[i] == v <==> t[i] == v)
    ensures CountOf(s, v) == CountOf(t, v)
  {
    if s != [] {
      CountOfSame(s[..|s| - 1], t[..|t| - 1], v);
    }
  }

  // --------------------------------------------------- region accumulators

  datatype Axis = X | Y

  /** px = p % IMG_WIDTH or py = p / IMG_WIDTH. */
  function Coord(p: int, a: Axis): int {
    if a == X then Col(p) else Row(p)
  }

  /** bbox_x0 / bbox_y0 after visiting s: starts at IMG_WIDTH / IMG_HEIGHT. */
  function LowCoord(s: seq<int>, a: Axis): int {
    if s == [] then (if a == X then ImgWidth else ImgHeight)
    else Min(LowCoord(s[..|s| - 1], a), Coord(s[|s| - 1], a))
  }

  /** bbox_x1 / bbox_y1 after visiting s: starts at 0. */
  function HighCoord(s: seq<int>, a: Axis): int {
    if s == [] then 0 else Max(HighCoord(s[..|s| - 1], a), Coord(s[|s| - 1], a))
  }

  /** sum_x / sum_y after visiting s. */
  function SumCoord(s: seq<int>, a: Axis): int {
    if s == [] then 0 else SumCoord(s[..|s| - 1], a) + Coord(s[|s| - 1], a)
  }

  lemma CoordRange(p: int, a: Axis)
    requires 0 <= p < ImgSize
    ensures 0 <= Coord(p, a) < 256
  {
    IdxOfPixel(p);
  }

  /** Every visited pixel lies in [LowCoord, HighCoord], and both bounds are pixel coordinates. */
  lemma {:induction false} CoordBounds(s: seq<int>, a: Axis)
    requires s != [] && forall k :: 0 <= k < |s| ==> 0 <= s[k] < ImgSize
    ensures forall k :: 0 <= k < |s| ==> LowCoord(s, a) <= Coord(s[k], a) <= HighCoord(s, a)
    ensures 0 <= LowCoord(s, a) <= HighCoord(s, a) < 256
  {
    var n := |s| - 1;
    CoordRange(s[n], a);
    if n > 0 {
      CoordBounds(s[..n], a);
      assert forall k :: 0 <= k < n ==> s[..n][k] == s[k];
    }
  }

  /** Both bounds of the box are attained by a visited pixel. */
  lemma {:induction false} CoordAttained(s: seq<int>, a: Axis)
    requires s != [] && forall k :: 0 <= k < |s| ==> 0 <= s[k] < ImgSize
    ensures exists k :: 0 <= k < |s| && Coord(s[k], a) == LowCoord(s, a)
    ensures exists k :: 0 <= k < |s| && Coord(s[k], a) == HighCoord(s, a)
  {
    var n := |s| - 1;
    CoordRange(s[n], a);
    if n == 0 {
      assert s[..n] == [];
      assert Coord(s[0], a) == LowCoord(s, a);
      assert Coord(s[0], a) == HighCoord(s, a);
    } else {
      assert forall k :: 0 <= k < n ==> s[..n][k] == s[k];
      CoordAttained(s[..n], a);
      var lo := LowCoord(s[..n], a);
      var hi := HighCoord(s[..n], a);
      var i :| 0 <= i < n && Coord(s[..n][i], a) == lo;
      var j :| 0 <= j < n && Coord(s[..n][j], a) == hi;
      var kl := if Coord(s[n], a) < lo then n else i;
      var kh := if Coord(s[n], a) > hi then n else j;
      assert Coord(s[kl], a) == LowCoord(s, a);
      assert Coord(s[kh], a) == HighCoord(s, a);
    }
  }

  /** The coordinate sum lies between |s| times each bound. */
  lemma {:induction false} CoordSum(s: seq<int>, a: Axis)
    requires s != [] && forall k :: 0 <= k < |s| ==> 0 <= s[k] < ImgSize
    ensures |s| * LowCoord(s, a) <= SumCoord(s, a) <= |s| * HighCoord(s, a)
  {
    var n := |s| - 1;
    CoordRange(s[n], a);
    if n == 0 {
      assert s[..n] == [];
    } else {
      assert forall k :: 0 <= k < n ==> s[..n][k] == s[k];
      CoordSum(s[..n], a);
      CoordBounds(s[..n], a);
      SumStep(n, LowCoord(s[..n], a), HighCoord(s[..n], a), SumCoord(s[..n], a), Coord(s[n], a));
    }
  }

  /** One more value c keeps the running sum between the running bounds. */
  lemma SumStep(n: nat, lo: int, hi: int, sum: int, c: int)
    requires 0 <= lo && 0 <= c && n * lo <= sum <= n * hi
    ensures (n + 1) * Min(lo, c) <= sum + c <= (n + 1) * Max(hi, c)
  {
    MulLe(Min(lo, c), lo, n);
    assert hi <= Max(hi, c);
    assert n * hi <= n * Max(hi, c);
  }

  /** A mean of values in [lo, hi] truncates into [lo, hi]. */
  lemma MeanInRange(sum: nat, n: nat, lo: nat, hi: nat)
    requires n >= 1 && n * lo <= sum <= n * hi
    ensures lo <= sum / n <= hi
  {
    DivBounds(sum, n);
    LessFromProducts(lo, sum / n + 1, n);
    DivBound(sum, n, hi);
  }

  /** The truncated mean coordinate lies inside the bounding box. */
  lemma CentroidInBox(s: seq<int>, a: Axis)
    requires s != [] && forall k :: 0 <= k < |s| ==> 0 <= s[k] < ImgSize
    ensures LowCoord(s, a) <= SumCoord(s, a) / |s| <= HighCoord(s, a)
  {
    CoordBounds(s, a);
    CoordSum(s, a);
    MeanInRange(SumCoord(s, a), |s|, LowCoord(s, a), HighCoord(s, a));
  }

  // ------------------------------------------------------------ flood fill

  /**
   * The BFS of one region after `head` pops: `pushed` are the pixels
   * labelled `label`, in push order, each once; every one was unlabelled
   * in `before` and is connected to the seed; the foreground neighbours
   * of the popped ones are all labelled; nothing else changed.
   */
  ghost predicate BfsState(mask: seq<Byte>, labels: seq<Byte>, before: seq<Byte>, seed: int,
                           lbl: Byte, pushed: seq<int>, head: nat)
    requires |mask| == ImgSize && |labels| == ImgSize && |before| == ImgSize
  {
    && head <= |pushed| && |pushed| >= 1 && pushed[0] == seed
    && Reached(mask, before, seed, pushed)
    && Tracks(labels, before, lbl, pushed)
    && Distinct(pushed)
    && |pushed| == CountOf(labels, lbl)
    && Processed(mask, labels, pushed, head)
  }

  /** Each pushed pixel is foreground, was unlabelled, and is connected to the seed. */
  ghost predicate Reached(mask: seq<Byte>, before: seq<Byte>, seed: int, pushed: seq<int>)
    requires |mask| == ImgSize && |before| == ImgSize
  {
    forall k :: 0 <= k < |pushed| ==>
      0 <= pushed[k] < ImgSize && mask[pushed[k]] != 0 && before[pushed[k]] == 0
      && Connected(mask, seed, pushed[k])
  }

  /** The pixels labelled lbl are exactly the pushed ones; all others are as before. */
  ghost predicate Tracks(labels: seq<Byte>, before: seq<Byte>, lbl: Byte, pushed: seq<int>)
    requires |labels| == ImgSize && |before| == ImgSize
  {
    && (forall i :: 0 <= i < ImgSize ==> (labels[i] == lbl <==> i in pushed))
    && (forall i :: 0 <= i < ImgSize && labels[i] != lbl ==> labels[i] == before[i])
  }

  ghost predicate Distinct(s: seq<int>) {
    forall a, b :: 0 <= a < b < |s| ==> s[a] != s[b]
  }

  /** The foreground neighbours of the first `head` pushed pixels are labelled. */
  ghost predicate Processed(mask: seq<Byte>, labels: seq<Byte>, pushed: seq<int>, head: nat)
    requires |mask| == ImgSize && |labels| == ImgSize && head <= |pushed|
  {
    forall k, j :: 0 <= k < head && Adjacent(pushed[k], j) && mask[j] != 0 ==> labels[j] != 0
  }

  /** The BFS after q_push(idx) and label_map[idx] = current_label. */
  lemma BfsStart(mask: seq<Byte>, before: seq<Byte>, seed: int, lbl: Byte)
    requires |mask| == ImgSize && |before| == ImgSize && lbl != 0
    requires 0 <= seed < ImgSize && mask[seed] != 0 && before[seed] == 0
    requires forall i :: 0 <= i < ImgSize ==> before[i] != lbl
    ensures BfsState(mask, before[seed := lbl], before, seed, lbl, [seed], 0)
  {
    ConnectedSelf(mask, seed);
    CountOfAbsent(before, lbl);
    CountOfSet(before, seed, lbl);
  }

  /** Labelling an unlabelled foreground neighbour of a popped pixel and pushing it. */
  lemma BfsPush(mask: seq<Byte>, labels: seq<Byte>, before: seq<Byte>, seed: int, lbl: Byte,
                pushed: seq<int>, head: nat, p: int, ni: int)
    requires |mask| == ImgSize && |labels| == ImgSize && |before| == ImgSize && lbl != 0
    requires BfsState(mask, labels, before, seed, lbl, pushed, head)
    requires head < |pushed| && pushed[head] == p
    requires Adjacent(p, ni) && 0 <= ni < ImgSize && mask[ni] != 0 && labels[ni] == 0
    ensures BfsState(mask, labels[ni := lbl], before, seed, lbl, pushed + [ni], head)
    ensures |pushed| < ImgSize
  {
    ConnectedStep(mask, seed, p, ni);
    assert ni !in pushed;
    ReachedPush(mask, before, seed, pushed, ni);
    TracksPush(labels, before, lbl, pushed, ni);
    ProcessedPush(mask, labels, pushed, head, ni, lbl);
    CountOfSet(labels, ni, lbl);
    CountOfMissing(labels, lbl, ni);
    assert (pushed + [ni])[0] == seed;
  }

  lemma ReachedPush(mask: seq<Byte>, before: seq<Byte>, seed: int, pushed: seq<int>, ni: int)
    requires |mask| == ImgSize && |before| == ImgSize && Reached(mask, before, seed, pushed)
    requires 0 <= ni < ImgSize && mask[ni] != 0 && before[ni] == 0 && Connected(mask, seed, ni)
    ensures Reached(mask, before, seed, pushed + [ni])
  {
  }

  lemma TracksPush(labels: seq<Byte>, before: seq<Byte>, lbl: Byte, pushed: seq<int>, ni: int)
    requires |labels| == ImgSize && |before| == ImgSize && Tracks(labels, before, lbl, pushed)
    requires 0 <= ni < ImgSize && labels[ni] != lbl && Distinct(pushed)
    ensures Tracks(labels[ni := lbl], before, lbl, pushed + [ni])
    ensures Distinct(pushed + [ni])
  {
    assert ni !in pushed;
    var pushed' := pushed + [ni];
    forall i | 0 <= i < ImgSize
      ensures (labels[ni := lbl][i] == lbl <==> i in pushed')
    {
      assert (i in pushed') <==> (i in pushed || i == ni);
    }
  }

  lemma ProcessedPush(mask: seq<Byte>, labels: seq<Byte>, pushed: seq<int>, head: nat, ni: int, lbl: Byte)
    requires |mask| == ImgSize && |labels| == ImgSize && head <= |pushed|
    requires Processed(mask, labels, pushed, head) && 0 <= ni < ImgSize && lbl != 0
    ensures Processed(mask, labels[ni := lbl], pushed + [ni], head)
  {
    forall k, j | 0 <= k < head && Adjacent((pushed + [ni])[k], j) && mask[j] != 0
      ensures labels[ni := lbl][j] != 0
    {
      assert (pushed + [ni])[k] == pushed[k];
    }
  }

  /**
   * The neighbour loop for popped pixel p = pushed[head]: every in-frame
   * 4-neighbour that is foreground and unlabelled gets the label and is
   * pushed, after which p counts as processed.
   */
  method VisitNeighbours(mask: seq<Byte>, labelMap: array<Byte>, q: RingQueue, p: int, lbl: Byte,
                         ghost seed: int, ghost before: seq<Byte>, ghost pushed: seq<int>, ghost head: nat)
    returns (ghost pushed': seq<int>)
    requires |mask| == ImgSize && labelMap.Length == ImgSize && |before| == ImgSize && lbl != 0
    requires q.Valid() && BfsState(mask, labelMap[..], before, seed, lbl, pushed, head)
    requires head < |pushed| && pushed[head] == p && q.items == pushed[head + 1..]
    modifies labelMap, q, q.buf
    ensures q.Valid() && q.head == old(q.head)
    ensures BfsState(mask, labelMap[..], before, seed, lbl, pushed', head + 1)
    ensures q.items == pushed'[head + 1..]
    ensures |pushed| <= |pushed'| && pushed'[..|pushed|] == pushed
    ensures pushed'[..head + 1] == pushed[..head + 1]
  {
    pushed' := pushed;
    var px := p % ImgWidth;
    var py := p / ImgWidth;
    var d := 0;
    while d < 4
      invariant 0 <= d <= 4
      invariant q.Valid() && q.head == old(q.head)
      invariant BfsState(mask, labelMap[..], before, seed, lbl, pushed', head)
      invariant |pushed| <= |pushed'| && pushed'[..|pushed|] == pushed
      invariant q.items == pushed'[head + 1..]
      invariant NeighboursDone(mask, labelMap[..], p, d)
    {
      ghost var prev := pushed';
      ghost var labels := labelMap[..];
      pushed' := VisitNeighbour(mask, labelMap, q, p, px, py, d, lbl, seed, before, pushed', head);
      assert pushed'[..|pushed|] == prev[..|pushed|];
      NeighboursDoneStep(mask, labels, labelMap[..], p, d);
      d := d + 1;
    }
    ProcessedNext(mask, labelMap[..], pushed', head);
    assert pushed'[..head + 1] == pushed'[..|pushed|][..head + 1];
  }

  /** The foreground neighbours of p in directions 0..d-1 are labelled. */
  ghost predicate NeighboursDone(mask: seq<Byte>, labels: seq<Byte>, p: int, d: int)
    requires |mask| == ImgSize && |labels| == ImgSize
  {
    forall e :: 0 <= e < d && StepOk(p, e) && 0 <= Step(p, e) < ImgSize && mask[Step(p, e)] != 0 ==>
      labels[Step(p, e)] != 0
  }

  /** Labels only being added keeps the earlier directions done. */
  lemma NeighboursDoneStep(mask: seq<Byte>, labels: seq<Byte>, labels': seq<Byte>, p: int, d: int)
    requires |mask| == ImgSize && |labels| == ImgSize && |labels'| == ImgSize && 0 <= d
    requires NeighboursDone(mask, labels, p, d)
    requires forall i :: 0 <= i < ImgSize && labels[i] != 0 ==> labels'[i] == labels[i]
    requires StepOk(p, d) && mask[Step(p, d)] != 0 ==> labels'[Step(p, d)] != 0
    ensures NeighboursDone(mask, labels', p, d + 1)
  {
  }

  /** Once all four neighbours of pushed[head] are labelled, it counts as processed. */
  lemma ProcessedNext(mask: seq<Byte>, labels: seq<Byte>, pushed: seq<int>, head: nat)
    requires |mask| == ImgSize && |labels| == ImgSize && head < |pushed|
    requires Processed(mask, labels, pushed, head)
    requires NeighboursDone(mask, labels, pushed[head], 4)
    ensures Processed(mask, labels, pushed, head + 1)
  {
  }

  /** One pass of the neighbour loop: direction d of pixel p = (px, py). */
  method VisitNeighbour(mask: seq<Byte>, labelMap: array<Byte>, q: RingQueue, p: int, px: int, py: int,
                        d: int, lbl: Byte, ghost seed: int, ghost before: seq<Byte>,
                        ghost pushed: seq<int>, ghost head: nat)
    returns (ghost pushed': seq<int>)
    requires |mask| == ImgSize && labelMap.Length == ImgSize && |before| == ImgSize && lbl != 0
    requires 0 <= d < 4 && px == p % ImgWidth && py == p / ImgWidth
    requires q.Valid() && BfsState(mask, labelMap[..], before, seed, lbl, pushed, head)
    requires head < |pushed| && pushed[head] == p && q.items == pushed[head + 1..]
    modifies labelMap, q, q.buf
    ensures q.Valid() && q.head == old(q.head)
    ensures BfsState(mask, labelMap[..], before, seed, lbl, pushed', head)
    ensures |pushed| <= |pushed'| && pushed'[..|pushed|] == pushed
    ensures q.items == pushed'[head + 1..]
    ensures forall i :: 0 <= i < ImgSize && old(labelMap[i]) != 0 ==> labelMap[i] == old(labelMap[i])
    ensures StepOk(p, d) && mask[Step(p, d)] != 0 ==> labelMap[Step(p, d)] != 0
  {
    pushed' := pushed;
    var nx := px + Dx(d);
    var ny := py + Dy(d);
    if nx < 0 || nx >= ImgWidth || ny < 0 || ny >= ImgHeight {
      return;
    }
    var ni := ny * ImgWidth + nx;
    assert StepOk(p, d) && ni == Step(p, d);
    StepAdjacent(p, d);
    if mask[ni] != 0 && labelMap[ni] == 0 {
      BfsPush(mask, labelMap[..], before, seed, lbl, pushed, head, p, ni);
      AppendSlices(pushed, ni, head + 1);
      LabelAndPush(labelMap, q, ni, lbl);
      pushed' := pushed + [ni];
    }
  }

  /** label_map[ni] = current_label; q_push(ni). */
  method LabelAndPush(labelMap: array<Byte>, q: RingQueue, ni: int, lbl: Byte)
    requires q.Valid() && |q.items| < QueueCap && 0 <= ni < labelMap.Length
    modifies labelMap, q, q.buf
    ensures labelMap[..] == old(labelMap[..])[ni := lbl]
    ensures q.Valid() && q.items == old(q.items) + [ni] && q.head == old(q.head)
  {
    labelMap[ni] := lbl;
    q.Push(ni);
  }

  lemma AppendSlices(s: seq<int>, x: int, a: nat)
    requires a <= |s|
    ensures (s + [x])[a..] == s[a..] + [x] && (s + [x])[..|s|] == s
  {
  }

  /** One connected component's descriptor (RegionInfo). */
  datatype RegionInfo = RegionInfo(area: nat, centroidX: int, centroidY: int,
                                   bboxX0: int, bboxY0: int, bboxX1: int, bboxY1: int,
                                   regionLabel: nat)

  /** The descriptor fields the BFS accumulates over the pixels visited so far. */
  function Tally(visited: seq<int>, lbl: nat): RegionInfo {
    RegionInfo(|visited|, 0, 0, LowCoord(visited, X), LowCoord(visited, Y),
               HighCoord(visited, X), HighCoord(visited, Y), lbl)
  }

  /** Visiting pixel (px, py): one more pixel, the box widened to cover it. */
  function Visit(r: RegionInfo, px: int, py: int): RegionInfo {
    r.(area := r.area + 1,
       bboxX0 := Min(r.bboxX0, px), bboxY0 := Min(r.bboxY0, py),
       bboxX1 := Max(r.bboxX1, px), bboxY1 := Max(r.bboxY1, py))
  }

  lemma TallyNext(s: seq<int>, k: nat, lbl: nat)
    requires k < |s|
    ensures Tally(s[..k + 1], lbl) == Visit(Tally(s[..k], lbl), Col(s[k]), Row(s[k]))
    ensures SumCoord(s[..k + 1], X) == SumCoord(s[..k], X) + Col(s[k])
    ensures SumCoord(s[..k + 1], Y) == SumCoord(s[..k], Y) + Row(s[k])
  {
    assert s[..k + 1][..k] == s[..k] && s[..k + 1][k] == s[k];
  }

  /** Lines 56-67: area, coordinate sums and bounding box take in popped pixel p. */
  method Accumulate(region: RegionInfo, sumX: nat, sumY: nat, p: nat)
    returns (region': RegionInfo, sumX': nat, sumY': nat)
    ensures region' == Visit(region, Col(p), Row(p))
    ensures sumX' == sumX + Col(p) && sumY' == sumY + Row(p)
  {
    var px := p % ImgWidth;
    var py := p / ImgWidth;
    region' := region.(area := region.area + 1);
    sumX' := sumX + px;
    sumY' := sumY + py;
    if px < region'.bboxX0 { region' := region'.(bboxX0 := px); }
    if py < region'.bboxY0 { region' := region'.(bboxY0 := py); }
    if px > region'.bboxX1 { region' := region'.(bboxX1 := px); }
    if py > region'.bboxY1 { region' := region'.(bboxY1 := py); }
  }

  /**
   * The labelling after region lbl's flood fill from seed: exactly the
   * pixels connected to the seed took the label, they were all unlabelled
   * before, everything else kept its label, and the labelling is still
   * closed and on the foreground.
   */
  ghost predicate FloodResult(mask: seq<Byte>, before: seq<Byte>, labels: seq<Byte>, seed: int, lbl: Byte)
    requires |mask| == ImgSize && |before| == ImgSize && |labels| == ImgSize
  {
    && (forall i :: 0 <= i < ImgSize ==> labels[i] == if Connected(mask, seed, i) then lbl else before[i])
    && (forall i :: 0 <= i < ImgSize && Connected(mask, seed, i) ==> before[i] == 0)
    && OnForeground(mask, labels) && Closed(mask, labels)
  }

  /** members lists each pixel labelled lbl exactly once. */
  ghost predicate Spans(labels: seq<Byte>, lbl: Byte, members: seq<int>)
    requires |labels| == ImgSize
  {
    && members != []
    && (forall k :: 0 <= k < |members| ==> 0 <= members[k] < ImgSize)
    && (forall i :: 0 <= i < ImgSize ==> (labels[i] == lbl <==> i in members))
    && Distinct(members)
    && |members| == CountOf(labels, lbl)
  }

  lemma FloodClosed(mask: seq<Byte>, labels: seq<Byte>, before: seq<Byte>, seed: int, lbl: Byte, pushed: seq<int>)
    requires |mask| == ImgSize && |labels| == ImgSize && |before| == ImgSize && lbl != 0
    requires BfsState(mask, labels, before, seed, lbl, pushed, |pushed|)
    requires OnForeground(mask, before) && Closed(mask, before)
    ensures OnForeground(mask, labels) && Closed(mask, labels)
  {
    forall i, j | 0 <= i < ImgSize && labels[i] != 0 && Adjacent(i, j) && mask[j] != 0
      ensures labels[j] == labels[i]
    {
      AdjacentSymmetric(i, j);
      if labels[i] == lbl {
        var k :| 0 <= k < |pushed| && pushed[k] == i;
        assert labels[j] != 0;
      }
    }
  }

  /** With every pushed pixel processed, the flood fill has labelled exactly the component. */
  lemma FloodFinish(mask: seq<Byte>, labels: seq<Byte>, before: seq<Byte>, seed: int, lbl: Byte, pushed: seq<int>)
    requires |mask| == ImgSize && |labels| == ImgSize && |before| == ImgSize && lbl != 0
    requires BfsState(mask, labels, before, seed, lbl, pushed, |pushed|)
    requires OnForeground(mask, before) && Closed(mask, before)
    ensures FloodResult(mask, before, labels, seed, lbl)
    ensures Spans(labels, lbl, pushed)
  {
    FloodClosed(mask, labels, before, seed, lbl, pushed);
    FloodExact(mask, labels, before, seed, lbl, pushed);
  }

  lemma FloodExact(mask: seq<Byte>, labels: seq<Byte>, before: seq<Byte>, seed: int, lbl: Byte, pushed: seq<int>)
    requires |mask| == ImgSize && |labels| == ImgSize && |before| == ImgSize && lbl != 0
    requires BfsState(mask, labels, before, seed, lbl, pushed, |pushed|)
    requires Closed(mask, before) && Closed(mask, labels)
    ensures forall i :: 0 <= i < ImgSize ==> labels[i] == if Connected(mask, seed, i) then lbl else before[i]
    ensures forall i :: 0 <= i < ImgSize && Connected(mask, seed, i) ==> before[i] == 0
  {
    assert labels[seed] == lbl by { assert pushed[0] == seed; }
    forall i | 0 <= i < ImgSize && Connected(mask, seed, i)
      ensures labels[i] == lbl && before[i] == 0
    {
      ClosedComponent(mask, labels, seed, i);
      ClosedComponent(mask, before, seed, i);
    }
  }

  /**
   * Lines 41-83 of watershed_segment for one seed: start the descriptor,
   * reset the queue, push and label the seed, then pop until the queue is
   * empty, accumulating area, coordinate sums and bounding box and
   * labelling and pushing unlabelled foreground neighbours.
   */
  method FloodFill(mask: seq<Byte>, labelMap: array<Byte>, q: RingQueue, seed: int, lbl: Byte)
    returns (region: RegionInfo, sumX: nat, sumY: nat, ghost members: seq<int>)
    requires |mask| == ImgSize && labelMap.Length == ImgSize && q.buf.Length == QueueCap
    requires 0 <= seed < ImgSize && mask[seed] != 0 && labelMap[seed] == 0 && lbl != 0
    requires forall i :: 0 <= i < ImgSize ==> labelMap[i] != lbl
    requires OnForeground(mask, labelMap[..]) && Closed(mask, labelMap[..])
    modifies labelMap, q, q.buf
    ensures q.Valid()
    ensures FloodResult(mask, old(labelMap[..]), labelMap[..], seed, lbl)
    ensures Spans(labelMap[..], lbl, members)
    ensures region == Tally(members, lbl)
    ensures sumX == SumCoord(members, X) && sumY == SumCoord(members, Y)
  {
    ghost var before := labelMap[..];
    region := RegionInfo(0, 0, 0, ImgWidth, ImgHeight, 0, 0, lbl);
    sumX, sumY := 0, 0;
    q.Reset();
    q.Push(seed);
    BfsStart(mask, before, seed, lbl);
    labelMap[seed] := lbl;
    ghost var pushed := [seed];
    assert pushed[..0] == [];
    while !q.IsEmpty()
      invariant q.Valid()
      invariant BfsState(mask, labelMap[..], before, seed, lbl, pushed, q.head)
      invariant q.items == pushed[q.head..]
      invariant region == Tally(pushed[..q.head], lbl)
      invariant sumX == SumCoord(pushed[..q.head], X) && sumY == SumCoord(pushed[..q.head], Y)
      decreases ImgSize - q.head
    {
      ghost var h := q.head;
      var p := q.Pop();
      assert p == pushed[h];
      TallyNext(pushed, h, lbl);
      region, sumX, sumY := Accumulate(region, sumX, sumY, p);
      pushed := VisitNeighbours(mask, labelMap, q, p, lbl, seed, before, pushed, h);
    }
    assert pushed[..q.head] == pushed;
    FloodFinish(mask, labelMap[..], before, seed, lbl, pushed);
    members := pushed;
  }

  // ------------------------------------------------------- the whole scan

  /** The region descriptor as watershed_segment leaves it: the tally plus the centroid. */
  function Describe(m: seq<int>, lbl: nat): RegionInfo
    requires m != []
  {
    Tally(m, lbl).(centroidX := SumCoord(m, X) / |m|, centroidY := SumCoord(m, Y) / |m|)
  }

  const EmptyRegion := RegionInfo(0, 0, 0, 0, 0, 0, 0, 0)

  /** area[0] + ... + area[n-1]. */
  function SumAreas(rs: seq<RegionInfo>): nat {
    if rs == [] then 0 else SumAreas(rs[..|rs| - 1]) + rs[|rs| - 1].area
  }

  /** WatershedResult: the region list, the totals and the label map. */
  class WatershedResult {
    var numRegions: nat
    var regions: seq<RegionInfo>
    var totalForeground: nat
    const labelMap: array<Byte>

    constructor ()
      ensures labelMap.Length == ImgSize && fresh(labelMap)
    {
      numRegions := 0;
      regions := [];
      totalForeground := 0;
      labelMap := new Byte[ImgSize];
    }
  }

  /**
   * A labelling with n labels from seeds: seed k is foreground, the seeds
   * rise in row-major order, every foreground pixel before seed k already
   * has one of the first k labels, and label k + 1 marks exactly the
   * 4-connected foreground component of seed k.
   */
  ghost predicate Labelling(mask: seq<Byte>, labels: seq<Byte>, n: nat, seeds: seq<int>)
    requires |mask| == ImgSize && |labels| == ImgSize
  {
    && n == |seeds| <= MaxRegions
    && OnForeground(mask, labels) && Closed(mask, labels)
    && (forall i :: 0 <= i < ImgSize ==> labels[i] <= n)
    && (forall k :: 0 <= k < n ==> 0 <= seeds[k] < ImgSize && mask[seeds[k]] != 0)
    && (forall k :: 0 < k < n ==> seeds[k - 1] < seeds[k])
    && (forall k, i :: 0 <= k < n && 0 <= i < seeds[k] && i < ImgSize && mask[i] != 0 ==>
          1 <= labels[i] <= k)
    && (forall k, i :: 0 <= k < n && 0 <= i < ImgSize ==>
          (labels[i] == k + 1 <==> Connected(mask, seeds[k], i)))
  }

  /** The labelling after the scan has passed pixels 0..idx-1. */
  ghost predicate LabelsState(mask: seq<Byte>, labels: seq<Byte>, n: nat, seeds: seq<int>, idx: int)
    requires |mask| == ImgSize && |labels| == ImgSize
  {
    && Labelling(mask, labels, n, seeds)
    && (forall k :: 0 <= k < n ==> seeds[k] < idx)
    && (forall i :: 0 <= i < idx && i < ImgSize && mask[i] != 0 ==> labels[i] != 0)
  }

  ghost predicate RegionsState(labels: seq<Byte>, n: nat, regions: seq<RegionInfo>, total: nat,
                               members: seq<seq<int>>)
    requires |labels| == ImgSize
  {
    && n == |members| <= MaxRegions == |regions|
    && (forall k :: 0 <= k < n ==> Spans(labels, k + 1, members[k]))
    && (forall k :: 0 <= k < n ==> regions[k] == Describe(members[k], k + 1))
    && (forall k :: n <= k < MaxRegions ==> regions[k] == EmptyRegion)
    && total == SumAreas(regions[..n]) == CountNonzero(labels)
  }

  /** Relabelling some zeros to v != 0 adds their number to the nonzero count. */
  lemma {:induction false} CountNonzeroGrow(before: seq<Byte>, after: seq<Byte>, v: Byte)
    requires |before| == |after| && v != 0
    requires forall i :: 0 <= i < |before| ==>
               after[i] == before[i] || (before[i] == 0 && after[i] == v)
    requires forall i :: 0 <= i < |before| ==> before[i] != v
    ensures CountNonzero(after) == CountNonzero(before) + CountOf(after, v)
  {
    if before != [] {
      var n := |before| - 1;
      CountNonzeroGrow(before[..n], after[..n], v);
    }
  }

  /** The labels part of the scan state after one more flood fill. */
  lemma ScanLabelsStep(mask: seq<Byte>, before: seq<Byte>, labels: seq<Byte>, n: nat,
                       seeds: seq<int>, idx: int)
    requires |mask| == ImgSize && |before| == ImgSize && |labels| == ImgSize
    requires 0 <= idx < ImgSize && mask[idx] != 0 && before[idx] == 0 && n < MaxRegions
    requires LabelsState(mask, before, n, seeds, idx)
    requires FloodResult(mask, before, labels, idx, n + 1)
    ensures LabelsState(mask, labels, n + 1, seeds + [idx], idx + 1)
  {
    ConnectedSelf(mask, idx);
    var seeds' := seeds + [idx];
    forall k, i | 0 <= k < n + 1 && 0 <= i < ImgSize
      ensures labels[i] == k + 1 <==> Connected(mask, seeds'[k], i)
    {
      if k < n {
        assert seeds'[k] == seeds[k];
      }
    }
    forall k, i | 0 <= k < n + 1 && 0 <= i < seeds'[k] && i < ImgSize && mask[i] != 0
      ensures 1 <= labels[i] <= k
    {
      if k < n {
        assert seeds'[k] == seeds[k];
      }
    }
  }

  /** The region and total part of the scan state after one more flood fill. */
  lemma ScanRegionsStep(before: seq<Byte>, labels: seq<Byte>, n: nat, regions: seq<RegionInfo>,
                        total: nat, members: seq<seq<int>>, m: seq<int>)
    requires |before| == ImgSize && |labels| == ImgSize && n < MaxRegions
    requires RegionsState(before, n, regions, total, members)
    requires forall i :: 0 <= i < ImgSize ==> before[i] <= n
    requires forall i :: 0 <= i < ImgSize ==>
               labels[i] == before[i] || (before[i] == 0 && labels[i] == n + 1)
    requires Spans(labels, n + 1, m)
    ensures RegionsState(labels, n + 1, regions[n := Describe(m, n + 1)], total + |m|, members + [m])
  {
    SpansStep(before, labels, n, members, m);
    TotalStep(before, labels, n, regions, total, Describe(m, n + 1));
  }

  lemma SpansStep(before: seq<Byte>, labels: seq<Byte>, n: nat, members: seq<seq<int>>, m: seq<int>)
    requires |before| == ImgSize && |labels| == ImgSize && n == |members| && n < MaxRegions
    requires forall k :: 0 <= k < n ==> Spans(before, k + 1, members[k])
    requires forall i :: 0 <= i < ImgSize ==> before[i] <= n
    requires forall i :: 0 <= i < ImgSize ==>
               labels[i] == before[i] || (before[i] == 0 && labels[i] == n + 1)
    requires Spans(labels, n + 1, m)
    ensures forall k :: 0 <= k < n + 1 ==> Spans(labels, k + 1, (members + [m])[k])
  {
    forall k | 0 <= k < n + 1
      ensures Spans(labels, k + 1, (members + [m])[k])
    {
      if k < n {
        assert (members + [m])[k] == members[k];
        CountOfSame(before, labels, k + 1);
      }
    }
  }

  lemma TotalStep(before: seq<Byte>, labels: seq<Byte>, n: nat, regions: seq<RegionInfo>,
                  total: nat, r: RegionInfo)
    requires |before| == ImgSize && |labels| == ImgSize && n < |regions| && n < MaxRegions
    requires total == SumAreas(regions[..n]) == CountNonzero(before)
    requires forall i :: 0 <= i < ImgSize ==> before[i] <= n
    requires forall i :: 0 <= i < ImgSize ==>
               labels[i] == before[i] || (before[i] == 0 && labels[i] == n + 1)
    requires r.area == CountOf(labels, n + 1)
    ensures total + r.area == SumAreas(regions[n := r][..n + 1]) == CountNonzero(labels)
  {
    var regions' := regions[n := r];
    assert regions'[..n + 1][..n] == regions[..n];
    CountNonzeroGrow(before, labels, n + 1);
  }

  /** A flood fill only turns unlabelled pixels into the new label. */
  lemma FloodOnlyFillsZeros(mask: seq<Byte>, before: seq<Byte>, labels: seq<Byte>, seed: int, lbl: Byte)
    requires |mask| == ImgSize && |before| == ImgSize && |labels| == ImgSize
    requires FloodResult(mask, before, labels, seed, lbl)
    ensures forall i :: 0 <= i < ImgSize ==>
              labels[i] == before[i] || (before[i] == 0 && labels[i] == lbl)
  {
  }

  lemma {:induction false} CountNonzeroZeros(s: seq<Byte>)
    requires forall i :: 0 <= i < |s| ==> s[i] == 0
    ensures CountNonzero(s) == 0
  {
    if s != [] {
      CountNonzeroZeros(s[..|s| - 1]);
    }
  }

  /** memset(result->label_map, 0, IMG_SIZE). */
  method ClearLabels(labelMap: array<Byte>)
    modifies labelMap
    ensures forall i :: 0 <= i < labelMap.Length ==> labelMap[i] == 0
  {
    var i := 0;
    while i < labelMap.Length
      invariant 0 <= i <= labelMap.Length
      invariant forall j :: 0 <= j < i ==> labelMap[j] == 0
    {
      labelMap[i] := 0;
      i := i + 1;
    }
  }

  /**
   * watershed_segment: clear the result, scan the mask in row-major order,
   * flood-fill a new region from each foreground pixel not yet labelled
   * (stopping at the MAX_REGIONS-th new seed), fill in each descriptor and
   * the foreground total, and record the number of regions.
   */
  method WatershedSegment(mask: seq<Byte>, result: WatershedResult, q: RingQueue)
    returns (ghost seeds: seq<int>, ghost members: seq<seq<int>>)
    requires |mask| == ImgSize && result.labelMap.Length == ImgSize && q.buf.Length == QueueCap
    modifies result, result.labelMap, q, q.buf
    ensures Labelling(mask, result.labelMap[..], result.numRegions, seeds)
    ensures result.numRegions < MaxRegions ==>
              forall i :: 0 <= i < ImgSize && mask[i] != 0 ==> result.labelMap[i] != 0
    ensures RegionsState(result.labelMap[..], result.numRegions, result.regions,
                         result.totalForeground, members)
  {
    result.numRegions := 0;
    result.regions := seq(MaxRegions, _ => EmptyRegion);
    result.totalForeground := 0;
    ClearLabels(result.labelMap);
    ScanStart(mask, result.labelMap[..], result.regions);
    var currentLabel: Byte := 0;
    seeds, members := [], [];
    var idx := 0;
    while idx < ImgSize
      invariant 0 <= idx <= ImgSize && currentLabel <= MaxRegions
      invariant LabelsState(mask, result.labelMap[..], currentLabel, seeds, idx)
      invariant RegionsState(result.labelMap[..], currentLabel, result.regions,
                             result.totalForeground, members)
    {
      if mask[idx] == 0 || result.labelMap[idx] != 0 {
        ScanSkip(mask, result.labelMap[..], currentLabel, seeds, idx);
        idx := idx + 1;
        continue;
      }
      if currentLabel >= MaxRegions {
        break;
      }
      currentLabel := currentLabel + 1;
      seeds, members := NewRegion(mask, result, q, idx, currentLabel, seeds, members);
      idx := idx + 1;
    }
    ScanEnd(mask, result.labelMap[..], currentLabel, seeds, idx);
    result.numRegions := currentLabel;
  }

  lemma ScanStart(mask: seq<Byte>, labels: seq<Byte>, regions: seq<RegionInfo>)
    requires |mask| == ImgSize && |labels| == ImgSize
    requires forall i :: 0 <= i < ImgSize ==> labels[i] == 0
    requires regions == seq(MaxRegions, _ => EmptyRegion)
    ensures LabelsState(mask, labels, 0, [], 0)
    ensures RegionsState(labels, 0, regions, 0, [])
  {
    CountNonzeroZeros(labels);
    assert regions[..0] == [];
  }

  /** A background or already labelled pixel leaves the scan state as it was. */
  lemma ScanSkip(mask: seq<Byte>, labels: seq<Byte>, n: nat, seeds: seq<int>, idx: int)
    requires |mask| == ImgSize && |labels| == ImgSize && 0 <= idx < ImgSize
    requires LabelsState(mask, labels, n, seeds, idx)
    requires mask[idx] == 0 || labels[idx] != 0
    ensures LabelsState(mask, labels, n, seeds, idx + 1)
  {
  }

  /**
   * Region k's descriptor as a geometric fact about the label map: its
   * label is k + 1, its area is the number of pixels so labelled, its box
   * holds all of them and each side of the box touches one, and its
   * centroid lies inside the box.
   */
  lemma RegionGeometry(labels: seq<Byte>, n: nat, regions: seq<RegionInfo>, total: nat,
                       members: seq<seq<int>>, k: nat)
    requires |labels| == ImgSize && RegionsState(labels, n, regions, total, members) && k < n
    ensures regions[k].regionLabel == k + 1 && regions[k].area == CountOf(labels, k + 1) >= 1
    ensures forall i :: 0 <= i < ImgSize && labels[i] == k + 1 ==>
              regions[k].bboxX0 <= Col(i) <= regions[k].bboxX1 &&
              regions[k].bboxY0 <= Row(i) <= regions[k].bboxY1
    ensures exists i :: 0 <= i < ImgSize && labels[i] == k + 1 && Col(i) == regions[k].bboxX0
    ensures exists i :: 0 <= i < ImgSize && labels[i] == k + 1 && Col(i) == regions[k].bboxX1
    ensures exists i :: 0 <= i < ImgSize && labels[i] == k + 1 && Row(i) == regions[k].bboxY0
    ensures exists i :: 0 <= i < ImgSize && labels[i] == k + 1 && Row(i) == regions[k].bboxY1
    ensures regions[k].bboxX0 <= regions[k].centroidX <= regions[k].bboxX1
    ensures regions[k].bboxY0 <= regions[k].centroidY <= regions[k].bboxY1
  {
    var m := members[k];
    var r := regions[k];
    assert Spans(labels, k + 1, m);
    assert r == Describe(m, k + 1);
    CoordBounds(m, X);
    CoordBounds(m, Y);
    forall i | 0 <= i < ImgSize && labels[i] == k + 1
      ensures r.bboxX0 <= Col(i) <= r.bboxX1 && r.bboxY0 <= Row(i) <= r.bboxY1
    {
      assert i in m;
      var j :| 0 <= j < |m| && m[j] == i;
      assert Coord(m[j], X) == Col(i) && Coord(m[j], Y) == Row(i);
    }
    CoordAttained(m, X);
    CoordAttained(m, Y);
    var a :| 0 <= a < |m| && Coord(m[a], X) == LowCoord(m, X);
    var b :| 0 <= b < |m| && Coord(m[b], X) == HighCoord(m, X);
    var c :| 0 <= c < |m| && Coord(m[c], Y) == LowCoord(m, Y);
    var d :| 0 <= d < |m| && Coord(m[d], Y) == HighCoord(m, Y);
    assert labels[m[a]] == k + 1 && labels[m[b]] == k + 1;
    assert labels[m[c]] == k + 1 && labels[m[d]] == k + 1;
    CentroidInBox(m, X);
    CentroidInBox(m, Y);
  }

  /** An all-background mask yields no region and no foreground pixel. */
  lemma EmptyMaskNoRegions(mask: seq<Byte>, labels: seq<Byte>, n: nat, seeds: seq<int>,
                           regions: seq<RegionInfo>, total: nat, members: seq<seq<int>>)
    requires |mask| == ImgSize && |labels| == ImgSize
    requires forall i :: 0 <= i < ImgSize ==> mask[i] == 0
    requires Labelling(mask, labels, n, seeds) && RegionsState(labels, n, regions, total, members)
    ensures n == 0 && total == 0
    ensures forall k :: 0 <= k < MaxRegions ==> regions[k] == EmptyRegion
  {
    CountNonzeroZeros(labels);
  }

  /**
   * When fewer than MAX_REGIONS regions were found the scan labelled every
   * foreground pixel, so total_foreground counts the mask's foreground.
   */
  lemma TotalIsForeground(mask: seq<Byte>, labels: seq<Byte>, n: nat, seeds: seq<int>,
                          regions: seq<RegionInfo>, total: nat, members: seq<seq<int>>)
    requires |mask| == ImgSize && |labels| == ImgSize
    requires Labelling(mask, labels, n, seeds) && RegionsState(labels, n, regions, total, members)
    requires forall i :: 0 <= i < ImgSize && mask[i] != 0 ==> labels[i] != 0
    ensures total == CountNonzero(mask)
  {
    CountNonzeroSame(labels, mask);
  }

  /** Two sequences that are nonzero at the same places have the same nonzero count. */
  lemma {:induction false} CountNonzeroSame(s: seq<Byte>, t: seq<Byte>)
    requires |s| == |t| && forall i :: 0 <= i < |s| ==> (s[i] != 0 <==> t[i] != 0)
    ensures CountNonzero(s) == CountNonzero(t)
  {
    if s != [] {
      CountNonzeroSame(s[..|s| - 1], t[..|t| - 1]);
    }
  }

  /** When the scan ran to the end, every foreground pixel is labelled. */
  lemma ScanEnd(mask: seq<Byte>, labels: seq<Byte>, n: nat, seeds: seq<int>, idx: int)
    requires |mask| == ImgSize && |labels| == ImgSize
    requires LabelsState(mask, labels, n, seeds, idx)
    requires idx >= ImgSize || n >= MaxRegions
    ensures Labelling(mask, labels, n, seeds)
    ensures n < MaxRegions ==> forall i :: 0 <= i < ImgSize && mask[i] != 0 ==> labels[i] != 0
  {
  }

  /**
   * Lines 40-91 for seed idx: the next label, its flood fill, the
   * centroid, the descriptor and the running foreground total.
   */
  method NewRegion(mask: seq<Byte>, result: WatershedResult, q: RingQueue, idx: int, currentLabel: Byte,
                   ghost seeds: seq<int>, ghost members: seq<seq<int>>)
    returns (ghost seeds': seq<int>, ghost members': seq<seq<int>>)
    requires |mask| == ImgSize && result.labelMap.Length == ImgSize && q.buf.Length == QueueCap
    requires 0 <= idx < ImgSize && mask[idx] != 0 && result.labelMap[idx] == 0
    requires 1 <= currentLabel <= MaxRegions
    requires LabelsState(mask, result.labelMap[..], currentLabel - 1, seeds, idx)
    requires RegionsState(result.labelMap[..], currentLabel - 1, result.regions,
                          result.totalForeground, members)
    modifies result, result.labelMap, q, q.buf
    ensures result.numRegions == old(result.numRegions)
    ensures LabelsState(mask, result.labelMap[..], currentLabel, seeds', idx + 1)
    ensures RegionsState(result.labelMap[..], currentLabel, result.regions,
                         result.totalForeground, members')
  {
    ghost var before := result.labelMap[..];
    ghost var prevRegions, prevTotal := result.regions, result.totalForeground;
    var region, sumX, sumY;
    ghost var m;
    region, sumX, sumY, m := FloodFill(mask, result.labelMap, q, idx, currentLabel);
    if region.area > 0 {
      region := region.(centroidX := sumX / region.area, centroidY := sumY / region.area);
    }
    result.regions := result.regions[currentLabel - 1 := region];
    result.totalForeground := result.totalForeground + region.area;
    FloodOnlyFillsZeros(mask, before, result.labelMap[..], idx, currentLabel);
    ScanLabelsStep(mask, before, result.labelMap[..], currentLabel - 1, seeds, idx);
    ScanRegionsStep(before, result.labelMap[..], currentLabel - 1, prevRegions, prevTotal, members, m);
    seeds' := seeds + [idx];
    members' := members + [m];
  }
}
