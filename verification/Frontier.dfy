/** The state of a `CommitmentTree` as a value: the functions its methods compute, and the proof
    that they compute the root, size and capacity of the padded tree over all appended leaves. */
module Frontiers {
  import opened Wrappers
  import opened Powers
  import opened PerfectTree

  datatype Frontier<+Node> = Frontier(left: Option<Node>, right: Option<Node>, parents: seq<Option<Node>>)

  function EmptyFrontier<Node>(): Frontier<Node> { Frontier(None, None, []) }

  /* ----- what the methods compute ----- */

  /** The number of leaves below the occupied slots, where slot 0 covers 2^level leaves. */
  function Occupied<Node>(slots: seq<Option<Node>>, level: nat): nat {
    if slots == [] then 0
    else (if slots[0].Some? then Pow2(level) else 0) + Occupied(slots[1..], level + 1)
  }

  function Size<Node>(t: Frontier<Node>): nat {
    (if t.left.Some? then 1 else 0) + (if t.right.Some? then 1 else 0) + Occupied(t.parents, 1)
  }

  predicate IsComplete<Node>(t: Frontier<Node>, depth: nat)
    requires depth > 0
  {
    && t.left.Some? && t.right.Some? && |t.parents| == depth - 1
    && forall i :: 0 <= i < |t.parents| ==> t.parents[i].Some?
  }

  /** Pushes a finished subtree covering 2^level leaves into the slots, carrying as a binary counter. */
  function Carry<Node>(h: Hasher<Node>, slots: seq<Option<Node>>, level: nat, node: Node): seq<Option<Node>>
    decreases |slots|
  {
    if slots == [] then [Some(node)]
    else match slots[0]
      case None => [Some(node)] + slots[1..]
      case Some(p) => [None] + Carry(h, slots[1..], level + 1, h.combine(level, p, node))
  }

  function Append<Node>(h: Hasher<Node>, t: Frontier<Node>, node: Node, depth: nat): Option<Frontier<Node>>
    requires depth > 0
  {
    if IsComplete(t, depth) then None
    else if t.left.None? then Some(t.(left := Some(node)))
    else if t.right.None? then Some(t.(right := Some(node)))
    else Some(Frontier(Some(node), None, Carry(h, t.parents, 1, h.combine(0, t.left.value, t.right.value))))
  }

  /** The next node a path filler yields: the head of its queue, else an empty root. */
  function Front<Node>(h: Hasher<Node>, queue: seq<Node>, level: nat): Node {
    if queue == [] then EmptyRoot(h, level) else queue[0]
  }

  function Rest<Node>(queue: seq<Node>): seq<Node> {
    if queue == [] then [] else queue[1..]
  }

  /** Hashes a root upwards through the slots; an empty slot takes its right sibling from the queue. */
  function Climb<Node>(h: Hasher<Node>, slots: seq<Option<Node>>, level: nat, root: Node, queue: seq<Node>): Node
    decreases |slots|
  {
    if slots == [] then root
    else match slots[0]
      case Some(p) => Climb(h, slots[1..], level + 1, h.combine(level, p, root), queue)
      case None => Climb(h, slots[1..], level + 1, h.combine(level, root, Front(h, queue, level)), Rest(queue))
  }

  function Nones<Node>(n: nat): (r: seq<Option<Node>>)
    ensures |r| == n && forall i :: 0 <= i < n ==> r[i] == None
  {
    seq(n, _ => None)
  }

  /** The parents, with an empty slot for every level up to the root. */
  function UpperSlots<Node>(t: Frontier<Node>, depth: nat): (r: seq<Option<Node>>)
    requires |t.parents| < depth
    ensures |r| == depth - 1
  {
    t.parents + Nones(depth - 1 - |t.parents|)
  }

  function Root<Node>(h: Hasher<Node>, t: Frontier<Node>, depth: nat, queue: seq<Node>): Node
    requires |t.parents| < depth
  {
    var (l, q1) := if t.left.Some? then (t.left.value, queue) else (Front(h, queue, 0), Rest(queue));
    var (r, q2) := if t.right.Some? then (t.right.value, q1) else (Front(h, q1, 0), Rest(q1));
    Climb(h, UpperSlots(t, depth), 1, h.combine(0, l, r), q2)
  }

  /* ----- what the state means ----- */

  /** The slots hold the leaves: each occupied slot is the root of the last 2^level leaves of what
      the slots above it do not hold. */
  ghost predicate Packed<Node>(h: Hasher<Node>, slots: seq<Option<Node>>, level: nat, leaves: seq<Node>)
    decreases |slots|
  {
    if slots == [] then leaves == []
    else match slots[0]
      case None => Packed(h, slots[1..], level + 1, leaves)
      case Some(p) =>
        && |leaves| >= Pow2(level)
        && p == PerfectRoot(h, leaves[|leaves| - Pow2(level)..], level)
        && Packed(h, slots[1..], level + 1, leaves[..|leaves| - Pow2(level)])
  }

  /** The frontier reached by appending exactly these leaves to an empty tree. */
  ghost predicate Represents<Node>(h: Hasher<Node>, t: Frontier<Node>, leaves: seq<Node>) {
    var n := |leaves|;
    && (t.parents != [] ==> t.parents[|t.parents| - 1].Some?)
    && match (t.left, t.right)
       case (None, None) => leaves == [] && t.parents == []
       case (Some(l), None) => n >= 1 && l == leaves[n - 1] && Packed(h, t.parents, 1, leaves[..n - 1])
       case (Some(l), Some(r)) =>
         n >= 2 && l == leaves[n - 2] && r == leaves[n - 1] && Packed(h, t.parents, 1, leaves[..n - 2])
       case (None, Some(_)) => false
  }

  /* ----- size and capacity ----- */

  lemma {:induction false} PackedSize<Node>(h: Hasher<Node>, slots: seq<Option<Node>>, level: nat, leaves: seq<Node>)
    requires Packed(h, slots, level, leaves)
    ensures |leaves| == Occupied(slots, level)
    decreases |slots|
  {
    if slots != [] {
      match slots[0]
      case None => PackedSize(h, slots[1..], level + 1, leaves);
      case Some(p) => PackedSize(h, slots[1..], level + 1, leaves[..|leaves| - Pow2(level)]);
    }
  }

  /** Slots are the digits of a binary counter: all ones is the greatest value, and the top digit
      alone outweighs nothing less than half of it. */
  lemma {:induction false} OccupiedBounds<Node>(slots: seq<Option<Node>>, level: nat)
    ensures Occupied(slots, level) + Pow2(level) <= Pow2(level + |slots|)
    ensures Occupied(slots, level) + Pow2(level) == Pow2(level + |slots|)
       <==> forall i :: 0 <= i < |slots| ==> slots[i].Some?
    ensures slots != [] && slots[|slots| - 1].Some? ==> Occupied(slots, level) >= Pow2(level + |slots| - 1)
    decreases |slots|
  {
    if slots != [] {
      OccupiedBounds(slots[1..], level + 1);
      assert forall i :: 0 <= i < |slots[1..]| ==> slots[1..][i] == slots[i + 1];
    }
  }

  /** `size` counts the appended leaves. */
  lemma {:induction false} SizeCountsLeaves<Node>(h: Hasher<Node>, t: Frontier<Node>, leaves: seq<Node>)
    requires Represents(h, t, leaves)
    ensures Size(t) == |leaves|
  {
    if t.left.Some? {
      PackedSize(h, t.parents, 1, leaves[..|leaves| - (if t.right.Some? then 2 else 1)]);
    }
  }

  /** A tree within its capacity has room for its parents, and is complete exactly when it is full. */
  lemma {:induction false} CompleteIffFull<Node>(h: Hasher<Node>, t: Frontier<Node>, leaves: seq<Node>, depth: nat)
    requires depth > 0 && Represents(h, t, leaves) && |leaves| <= Pow2(depth)
    ensures |t.parents| < depth
    ensures IsComplete(t, depth) <==> |leaves| == Pow2(depth)
  {
    SizeCountsLeaves(h, t, leaves);
    OccupiedBounds(t.parents, 1);
    if |t.parents| >= depth {
      Pow2Monotone(depth, |t.parents|);
      assert false;
    }
    if |t.parents| < depth - 1 {
      Pow2Monotone(1 + |t.parents|, depth - 1);
    }
  }

  /* ----- append ----- */

  lemma {:induction false} CarryPacks<Node>(h: Hasher<Node>, slots: seq<Option<Node>>, level: nat, leaves: seq<Node>,
                                            block: seq<Node>)
    requires Packed(h, slots, level, leaves) && |block| == Pow2(level)
    ensures Packed(h, Carry(h, slots, level, PerfectRoot(h, block, level)), level, leaves + block)
    decreases |slots|
  {
    hide PerfectRoot;
    var node := PerfectRoot(h, block, level);
    if slots == [] || slots[0].None? {
      assert (leaves + block)[|leaves|..] == block && (leaves + block)[..|leaves|] == leaves;
    } else {
      var last, rest := leaves[|leaves| - Pow2(level)..], leaves[..|leaves| - Pow2(level)];
      PerfectJoin(h, last, block, level);
      CarryPacks(h, slots[1..], level + 1, rest, last + block);
      assert leaves + block == rest + (last + block);
      assert Carry(h, slots, level, node)[1..]
           == Carry(h, slots[1..], level + 1, h.combine(level, slots[0].value, node));
    }
  }

  lemma {:induction false} CarryKeepsTop<Node>(h: Hasher<Node>, slots: seq<Option<Node>>, level: nat, node: Node)
    requires slots != [] ==> slots[|slots| - 1].Some?
    ensures var r := Carry(h, slots, level, node); r != [] && r[|r| - 1].Some?
    decreases |slots|
  {
    if slots != [] && slots[0].Some? {
      CarryKeepsTop(h, slots[1..], level + 1, h.combine(level, slots[0].value, node));
    }
  }

  /** A full lowest pair moves into the slots when the next leaf arrives. */
  lemma {:induction false} AppendCarries<Node>(h: Hasher<Node>, t: Frontier<Node>, leaves: seq<Node>, node: Node)
    requires Represents(h, t, leaves) && t.left.Some? && t.right.Some?
    ensures Represents(h, Frontier(Some(node), None, Carry(h, t.parents, 1, h.combine(0, t.left.value, t.right.value))),
                       leaves + [node])
  {
    hide PerfectRoot;
    var l, r := [t.left.value], [t.right.value];
    var before := leaves[..|leaves| - 2];
    assert PerfectRoot(h, l, 0) == t.left.value
      && PerfectRoot(h, r, 0) == t.right.value by { PerfectLeaf(h, l); PerfectLeaf(h, r); }
    PerfectJoin(h, l, r, 0);
    CarryPacks(h, t.parents, 1, before, l + r);
    CarryKeepsTop(h, t.parents, 1, h.combine(0, t.left.value, t.right.value));
    assert before + (l + r) == leaves == (leaves + [node])[..|leaves|];
  }

  lemma {:induction false} AppendFillsLowest<Node>(h: Hasher<Node>, t: Frontier<Node>, leaves: seq<Node>, node: Node)
    requires Represents(h, t, leaves) && t.right.None?
    ensures Represents(h, if t.left.None? then t.(left := Some(node)) else t.(right := Some(node)), leaves + [node])
  {
    hide PerfectRoot;
    var more, n := leaves + [node], |leaves|;
    assert more[..n] == leaves && more[n] == node;
    if n > 0 { assert more[..n - 1] == leaves[..n - 1]; }
  }

  /** Append is refused exactly when the tree is full; otherwise it records one more leaf. */
  lemma {:induction false} AppendRecords<Node>(h: Hasher<Node>, t: Frontier<Node>, leaves: seq<Node>, node: Node,
                                               depth: nat)
    requires depth > 0 && Represents(h, t, leaves) && |leaves| <= Pow2(depth)
    ensures Append(h, t, node, depth).None? <==> |leaves| == Pow2(depth)
    ensures |leaves| < Pow2(depth) ==> Represents(h, Append(h, t, node, depth).value, leaves + [node])
  {
    hide Represents;
    CompleteIffFull(h, t, leaves, depth);
    RightNeedsLeft(h, t, leaves);
    if |leaves| < Pow2(depth) {
      if t.right.None? { AppendFillsLowest(h, t, leaves, node); } else { AppendCarries(h, t, leaves, node); }
    }
  }

  lemma {:induction false} RightNeedsLeft<Node>(h: Hasher<Node>, t: Frontier<Node>, leaves: seq<Node>)
    requires Represents(h, t, leaves)
    ensures t.right.Some? ==> t.left.Some?
  {}

  /* ----- root ----- */

  /** The levels of the empty slots: the sizes of the subtrees still to be filled, in order. */
  function Gaps<Node>(slots: seq<Option<Node>>, level: nat): seq<nat> {
    if slots == [] then []
    else if slots[0].Some? then Gaps(slots[1..], level + 1)
    else [level] + Gaps(slots[1..], level + 1)
  }

  /** The first min(n, |s|) elements, and the others. */
  function Take<T>(s: seq<T>, n: nat): seq<T> { if |s| <= n then s else s[..n] }

  function Drop<T>(s: seq<T>, n: nat): seq<T> { if |s| <= n then [] else s[n..] }

  /** The queue holds the roots of the later leaves, cut into one subtree per gap; only the last
      of them may be partly filled. */
  ghost predicate Fills<Node>(h: Hasher<Node>, gaps: seq<nat>, queue: seq<Node>, after: seq<Node>)
    decreases |gaps|
  {
    if queue == [] then after == []
    else
      && gaps != []
      && queue[0] == PaddedRoot(h, Take(after, Pow2(gaps[0])), gaps[0])
      && (|after| <= Pow2(gaps[0]) ==> |queue| == 1)
      && Fills(h, gaps[1..], queue[1..], Drop(after, Pow2(gaps[0])))
  }

  /** Taking one node from the filler uses up one gap. */
  lemma {:induction false} FillsStep<Node>(h: Hasher<Node>, gaps: seq<nat>, queue: seq<Node>, after: seq<Node>)
    requires gaps != [] && Fills(h, gaps, queue, after)
    ensures Front(h, queue, gaps[0]) == PaddedRoot(h, Take(after, Pow2(gaps[0])), gaps[0])
    ensures Fills(h, gaps[1..], Rest(queue), Drop(after, Pow2(gaps[0])))
  {
    if queue == [] { PaddedEmpty(h, gaps[0]); }
  }

  lemma {:induction false} FillsNothing<Node>(h: Hasher<Node>, queue: seq<Node>, after: seq<Node>)
    requires Fills(h, [], queue, after)
    ensures after == []
  {}

  lemma {:induction false} RegroupBefore<T>(before: seq<T>, cut: nat, here: seq<T>, after: seq<T>)
    requires cut <= |before|
    ensures before[..cut] + (before[cut..] + here) + after == before + here + after
  {}

  lemma {:induction false} RegroupAfter<T>(before: seq<T>, here: seq<T>, after: seq<T>, n: nat)
    ensures before + (here + Take(after, n)) + Drop(after, n) == before + here + after
  {}

  /** Climbing from the padded root of the current subtree, with the earlier leaves in the slots and
      the later ones in the queue, gives the padded root of them all. */
  lemma {:induction false} ClimbIsRoot<Node>(h: Hasher<Node>, slots: seq<Option<Node>>, level: nat,
                                             before: seq<Node>, here: seq<Node>, after: seq<Node>, queue: seq<Node>)
    requires Packed(h, slots, level, before) && Fills(h, Gaps(slots, level), queue, after)
    requires |here| <= Pow2(level) && (after != [] ==> |here| == Pow2(level))
    ensures |before + here + after| <= Pow2(level + |slots|)
    ensures Climb(h, slots, level, PaddedRoot(h, here, level), queue)
         == PaddedRoot(h, before + here + after, level + |slots|)
    decreases |slots|
  {
    hide PaddedRoot, PerfectRoot, Fills;
    if slots == [] {
      FillsNothing(h, queue, after);
      assert before + here + after == here;
    } else if slots[0].Some? {
      var cut := |before| - Pow2(level);
      PaddedJoin(h, before[cut..], here, level);
      ClimbIsRoot(h, slots[1..], level + 1, before[..cut], before[cut..] + here, after, queue);
      RegroupBefore(before, cut, here, after);
    } else {
      var now, later := Take(after, Pow2(level)), Drop(after, Pow2(level));
      FillsStep(h, Gaps(slots, level), queue, after);
      PaddedPair(h, here, now, level);
      ClimbIsRoot(h, slots[1..], level + 1, before, here + now, later, Rest(queue));
      RegroupAfter(before, here, after, Pow2(level));
    }
  }

  lemma {:induction false} PackedNones<Node>(h: Hasher<Node>, slots: seq<Option<Node>>, level: nat, n: nat,
                                             leaves: seq<Node>)
    requires Packed(h, slots, level, leaves)
    ensures Packed(h, slots + Nones(n), level, leaves)
    decreases |slots|, n
  {
    if slots != [] {
      assert (slots + Nones(n))[1..] == slots[1..] + Nones(n);
      if slots[0].None? {
        PackedNones(h, slots[1..], level + 1, n, leaves);
      } else {
        PackedNones(h, slots[1..], level + 1, n, leaves[..|leaves| - Pow2(level)]);
      }
    } else if n > 0 {
      assert (slots + Nones(n))[1..] == [] + Nones(n - 1);
      PackedNones(h, [], level + 1, n - 1, leaves);
    }
  }

  /** The levels at which later leaves will be filled in, up to the given depth. */
  function TreeGaps<Node>(t: Frontier<Node>, depth: nat): seq<nat>
    requires |t.parents| < depth
  {
    (if t.left.None? then [0] else []) + (if t.right.None? then [0] else []) + Gaps(UpperSlots(t, depth), 1)
  }

  /** How many leaves the two lowest nodes hold, which of all the leaves they are once the filler
      completes them, and what is left of the filler. */
  function Low<Node>(t: Frontier<Node>): nat {
    if t.left.None? then 0 else if t.right.None? then 1 else 2
  }

  function LowLeaves<Node>(t: Frontier<Node>): (r: seq<Node>)
    requires t.left.None? ==> t.right.None?
    ensures |r| == Low(t)
  {
    if t.left.None? then [] else if t.right.None? then [t.left.value] else [t.left.value, t.right.value]
  }

  function AfterLow<Node>(t: Frontier<Node>, queue: seq<Node>): seq<Node> {
    if t.left.None? then Rest(Rest(queue)) else if t.right.None? then Rest(queue) else queue
  }

  /** The bottom of `root_inner`: the two lowest nodes, drawn from the filler where the tree has
      none, hash to the root of the lowest pair of leaves. */
  lemma {:induction false} RootFromLowest<Node>(h: Hasher<Node>, t: Frontier<Node>, depth: nat, queue: seq<Node>,
                                                after: seq<Node>)
    requires |t.parents| < depth && (t.left.None? ==> t.right.None?)
    requires Fills(h, TreeGaps(t, depth), queue, after)
    ensures var here := LowLeaves(t) + Take(after, 2 - Low(t));
            && Root(h, t, depth, queue) == Climb(h, UpperSlots(t, depth), 1, PaddedRoot(h, here, 1), AfterLow(t, queue))
            && Fills(h, Gaps(UpperSlots(t, depth), 1), AfterLow(t, queue), Drop(after, 2 - Low(t)))
  {
    hide PaddedRoot, PerfectRoot, Fills, Gaps, Climb;
    var gaps := Gaps(UpperSlots(t, depth), 1);
    if t.left.None? {
      var rest := Drop(after, 1);
      assert TreeGaps(t, depth) == [0] + ([0] + gaps);
      FillsStep(h, [0] + ([0] + gaps), queue, after);
      FillsStep(h, [0] + gaps, Rest(queue), rest);
      PaddedPair(h, Take(after, 1), Take(rest, 1), 0);
      assert LowLeaves(t) + Take(after, 2) == Take(after, 1) + Take(rest, 1);
    } else if t.right.None? {
      assert TreeGaps(t, depth) == [0] + gaps;
      FillsStep(h, [0] + gaps, queue, after);
      PaddedLeaf(h, t.left.value);
      PaddedPair(h, [t.left.value], Take(after, 1), 0);
    } else {
      assert TreeGaps(t, depth) == gaps;
      PaddedLeaf(h, t.left.value);
      PaddedLeaf(h, t.right.value);
      PaddedPair(h, [t.left.value], [t.right.value], 0);
      assert LowLeaves(t) + Take(after, 0) == [t.left.value] + [t.right.value];
    }
  }

  lemma {:induction false} LowestAreLast<Node>(h: Hasher<Node>, t: Frontier<Node>, leaves: seq<Node>)
    requires Represents(h, t, leaves)
    ensures Low(t) <= |leaves| && (t.left.None? ==> t.right.None?)
    ensures leaves == leaves[..|leaves| - Low(t)] + LowLeaves(t)
    ensures Packed(h, t.parents, 1, leaves[..|leaves| - Low(t)])
  {}

  lemma {:induction false} RootOfParts<Node>(h: Hasher<Node>, t: Frontier<Node>, depth: nat,
                          before: seq<Node>, after: seq<Node>, queue: seq<Node>)
    requires |t.parents| < depth && (t.left.None? ==> t.right.None?)
    requires Packed(h, t.parents, 1, before) && Fills(h, TreeGaps(t, depth), queue, after)
    ensures |before + LowLeaves(t) + after| <= Pow2(depth)
    ensures Root(h, t, depth, queue) == PaddedRoot(h, before + LowLeaves(t) + after, depth)
  {
    hide PaddedRoot, PerfectRoot, Packed, Fills, Root, Climb, TreeGaps, Gaps;
    var here, later := LowLeaves(t) + Take(after, 2 - Low(t)), Drop(after, 2 - Low(t));
    var upper := UpperSlots(t, depth);
    RootFromLowest(h, t, depth, queue, after);
    PackedNones(h, t.parents, 1, depth - 1 - |t.parents|, before);
    assert |here| <= Pow2(1) && (later != [] ==> |here| == Pow2(1));
    ClimbIsRoot(h, upper, 1, before, here, later, AfterLow(t, queue));
    RegroupAfter(before, LowLeaves(t), after, 2 - Low(t));
    assert 1 + |upper| == depth;
  }

  /** `root_inner` with a filler for the leaves that came after the tree was taken. */
  lemma {:induction false} RootWithFiller<Node>(h: Hasher<Node>, t: Frontier<Node>, leaves: seq<Node>, depth: nat,
                             after: seq<Node>, queue: seq<Node>)
    requires |t.parents| < depth && Represents(h, t, leaves) && Fills(h, TreeGaps(t, depth), queue, after)
    ensures |leaves + after| <= Pow2(depth)
    ensures Root(h, t, depth, queue) == PaddedRoot(h, leaves + after, depth)
  {
    hide Represents, PaddedRoot, Packed, Fills, Root, TreeGaps;
    LowestAreLast(h, t, leaves);
    RootOfParts(h, t, depth, leaves[..|leaves| - Low(t)], after, queue);
  }

  /** The frontier's root is the root of the full tree padded with blanks. */
  lemma {:induction false} RootIsPaddedRoot<Node>(h: Hasher<Node>, t: Frontier<Node>, leaves: seq<Node>, depth: nat)
    requires depth > 0 && Represents(h, t, leaves) && |leaves| <= Pow2(depth)
    ensures |t.parents| < depth && Root(h, t, depth, []) == PaddedRoot(h, leaves, depth)
  {
    CompleteIffFull(h, t, leaves, depth);
    RootWithFiller(h, t, leaves, depth, [], []);
    assert leaves + [] == leaves;
  }

  /* ----- whole runs ----- */

  /** Appends the leaves one after the other; None as soon as one is refused. */
  function AppendAll<Node>(h: Hasher<Node>, t: Frontier<Node>, leaves: seq<Node>, depth: nat): Option<Frontier<Node>>
    requires depth > 0
    decreases |leaves|
  {
    if leaves == [] then Some(t)
    else
      var next := Append(h, t, leaves[0], depth);
      if next.None? then None else AppendAll(h, next.value, leaves[1..], depth)
  }

  lemma {:induction false} AppendAllRecords<Node>(h: Hasher<Node>, t: Frontier<Node>, leaves: seq<Node>,
                                                  more: seq<Node>, depth: nat)
    requires depth > 0 && Represents(h, t, leaves) && |leaves| <= Pow2(depth)
    ensures AppendAll(h, t, more, depth).Some? <==> |leaves + more| <= Pow2(depth)
    ensures |leaves + more| <= Pow2(depth) ==> Represents(h, AppendAll(h, t, more, depth).value, leaves + more)
    decreases |more|
  {
    hide Represents, Append;
    if more == [] {
      assert leaves + more == leaves;
    } else {
      AppendRecords(h, t, leaves, more[0], depth);
      if |leaves| < Pow2(depth) {
        AppendAllRecords(h, Append(h, t, more[0], depth).value, leaves + [more[0]], more[1..], depth);
        assert leaves + [more[0]] + more[1..] == leaves + more;
      }
    }
  }

  /** For every depth and every list of leaves: the run from the empty tree is accepted exactly when
      the leaves fit, and then size and root are those of the padded tree. */
  lemma {:induction false} TreeRun<Node>(h: Hasher<Node>, leaves: seq<Node>, depth: nat)
    requires depth > 0
    ensures AppendAll(h, EmptyFrontier(), leaves, depth).Some? <==> |leaves| <= Pow2(depth)
    ensures |leaves| <= Pow2(depth) ==>
      var t := AppendAll(h, EmptyFrontier(), leaves, depth).value;
      Size(t) == |leaves| && |t.parents| < depth && Root(h, t, depth, []) == PaddedRoot(h, leaves, depth)
  {
    AppendAllRecords(h, EmptyFrontier(), [], leaves, depth);
    assert [] + leaves == leaves;
    if |leaves| <= Pow2(depth) {
      var t := AppendAll(h, EmptyFrontier(), leaves, depth).value;
      SizeCountsLeaves(h, t, leaves);
      RootIsPaddedRoot(h, t, leaves, depth);
    }
  }
}
