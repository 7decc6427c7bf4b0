/** The state of an `IncrementalWitness` as a value, and the proof that it stays a correct
    authentication path while leaves are appended. */
module Witnesses {
  import opened Wrappers
  import opened Powers
  import opened PerfectTree
  import opened Frontiers

  datatype Witness<+Node> = Witness(tree: Frontier<Node>, filled: seq<Node>, cursorDepth: nat,
                                    cursor: Option<Frontier<Node>>)

  /* ----- what the methods compute ----- */

  function FromTree<Node>(t: Frontier<Node>): Witness<Node> {
    Witness(t, [], 0, None)
  }

  /** The level of the empty slot that comes after `skip` others, counting levels above the parents
      as empty. */
  function NextSlot<Node>(parents: seq<Option<Node>>, d: nat, skip: nat): nat
    decreases |parents|
  {
    if parents == [] then d + skip
    else if parents[0].Some? then NextSlot(parents[1..], d + 1, skip)
    else if skip > 0 then NextSlot(parents[1..], d + 1, skip - 1)
    else d
  }

  function NextDepth<Node>(w: Witness<Node>): nat {
    var skip := |w.filled|;
    if w.tree.left.None? && skip == 0 then 0
    else
      var skip1 := if w.tree.left.None? then skip - 1 else skip;
      if w.tree.right.None? && skip1 == 0 then 0
      else NextSlot(w.tree.parents, 1, if w.tree.right.None? then skip1 - 1 else skip1)
  }

  /** What must hold for the cursor's root to be computable: its parents fit below its depth. */
  predicate CursorFits<Node>(w: Witness<Node>) {
    w.cursor.Some? ==> |w.cursor.value.parents| < w.cursorDepth
  }

  /** The queue of the witness's path filler: the finished subtrees, then the root of the cursor. */
  function Filler<Node>(h: Hasher<Node>, w: Witness<Node>): seq<Node>
    requires CursorFits(w)
  {
    w.filled + (if w.cursor.Some? then [Root(h, w.cursor.value, w.cursorDepth, [])] else [])
  }

  /** `Panics` is the case the source rules out with `expect`. */
  datatype AppendOutcome<+Node> = Appended(w: Witness<Node>) | Refused(w: Witness<Node>) | Panics

  function WitnessAppend<Node>(h: Hasher<Node>, w: Witness<Node>, node: Node, depth: nat): AppendOutcome<Node>
    requires depth > 0
  {
    match w.cursor
    case Some(c) =>
      var next := Append(h, c, node, depth);
      if next.None? || w.cursorDepth == 0 then Panics
      else if !IsComplete(next.value, w.cursorDepth) then Appended(w.(cursor := next))
      else if |next.value.parents| >= w.cursorDepth then Panics
      else Appended(w.(cursor := None, filled := w.filled + [Root(h, next.value, w.cursorDepth, [])]))
    case None =>
      var w1 := w.(cursorDepth := NextDepth(w));
      if w1.cursorDepth >= depth then Refused(w1)
      else if w1.cursorDepth == 0 then Appended(w1.(filled := w1.filled + [node]))
      else
        var next := Append(h, EmptyFrontier(), node, depth);
        if next.None? then Panics else Appended(w1.(cursor := next))
  }

  function WitnessRoot<Node>(h: Hasher<Node>, w: Witness<Node>, depth: nat): Node
    requires |w.tree.parents| < depth && CursorFits(w)
  {
    Root(h, w.tree, depth, Filler(h, w))
  }

  /** The slots to the left of the most recent leaf of the tree, one for every level. */
  function LeafSlots<Node>(t: Frontier<Node>, depth: nat): (r: seq<Option<Node>>)
    requires |t.parents| < depth
    ensures |r| == depth
  {
    [if t.right.Some? then t.left else None] + UpperSlots(t, depth)
  }

  /** One entry for every slot: the node to the left, or the next one of the filler to the right. */
  function PathThrough<Node>(h: Hasher<Node>, slots: seq<Option<Node>>, level: nat, queue: seq<Node>): seq<(Node, bool)>
    decreases |slots|
  {
    if slots == [] then []
    else match slots[0]
      case Some(p) => [(p, true)] + PathThrough(h, slots[1..], level + 1, queue)
      case None => [(Front(h, queue, level), false)] + PathThrough(h, slots[1..], level + 1, Rest(queue))
  }

  function WitnessPath<Node>(h: Hasher<Node>, w: Witness<Node>, depth: nat): Option<seq<(Node, bool)>>
    requires |w.tree.parents| < depth && CursorFits(w)
  {
    if w.tree.left.None? then None else Some(PathThrough(h, LeafSlots(w.tree, depth), 0, Filler(h, w)))
  }

  /** `MerklePath::root`, from the entry at the given level upwards. */
  function PathRoot<Node>(h: Hasher<Node>, path: seq<(Node, bool)>, level: nat, leaf: Node): Node
    decreases |path|
  {
    if path == [] then leaf
    else
      var (p, leafIsOnRight) := path[0];
      PathRoot(h, path[1..], level + 1, if leafIsOnRight then h.combine(level, p, leaf) else h.combine(level, leaf, p))
  }

  /* ----- what the state means ----- */

  /** The later leaves, cut into one subtree per gap: finished ones are in `filled`, and the cursor
      is the frontier of the one being filled, which is neither empty nor full. */
  ghost predicate Cut<Node>(h: Hasher<Node>, gaps: seq<nat>, filled: seq<Node>, cursorDepth: nat,
                            cursor: Option<Frontier<Node>>, after: seq<Node>)
    decreases |filled|
  {
    if filled == [] then
      match cursor
      case None => after == []
      case Some(c) =>
        && gaps != [] && cursorDepth == gaps[0] > 0
        && 0 < |after| < Pow2(gaps[0]) && Represents(h, c, after)
    else
      && gaps != []
      && |after| >= Pow2(gaps[0])
      && filled[0] == PerfectRoot(h, after[..Pow2(gaps[0])], gaps[0])
      && Cut(h, gaps[1..], filled[1..], cursorDepth, cursor, after[Pow2(gaps[0])..])
  }

  /** The witness was taken when the tree held `leaves`, and has since seen `after`. */
  ghost predicate Tracks<Node>(h: Hasher<Node>, w: Witness<Node>, leaves: seq<Node>, after: seq<Node>, depth: nat) {
    && Represents(h, w.tree, leaves)
    && |w.tree.parents| < depth
    && CursorFits(w)
    && Cut(h, TreeGaps(w.tree, depth), w.filled, w.cursorDepth, w.cursor, after)
  }

  /* ----- the gaps ----- */

  /** The number of leaves that fit below the gaps. */
  function Capacity(gaps: seq<nat>): nat {
    if gaps == [] then 0 else Pow2(gaps[0]) + Capacity(gaps[1..])
  }

  lemma {:induction false} GapsCapacity<Node>(slots: seq<Option<Node>>, level: nat)
    ensures Capacity(Gaps(slots, level)) + Occupied(slots, level) + Pow2(level) == Pow2(level + |slots|)
    ensures forall i :: 0 <= i < |Gaps(slots, level)| ==> level <= Gaps(slots, level)[i] < level + |slots|
    decreases |slots|
  {
    if slots != [] {
      GapsCapacity(slots[1..], level + 1);
      if slots[0].None? {
        assert Gaps(slots, level)[1..] == Gaps(slots[1..], level + 1);
      }
    }
  }

  lemma {:induction false} OccupiedNones<Node>(slots: seq<Option<Node>>, level: nat, n: nat)
    ensures Occupied(slots + Nones(n), level) == Occupied(slots, level)
    decreases |slots|, n
  {
    if slots != [] {
      assert (slots + Nones(n))[1..] == slots[1..] + Nones(n);
      OccupiedNones(slots[1..], level + 1, n);
    } else if n > 0 {
      assert (slots + Nones(n))[1..] == [] + Nones<Node>(n - 1);
      OccupiedNones<Node>([], level + 1, n - 1);
    }
  }

  lemma PowTwos()
    ensures Pow2(0) == 1 && Pow2(1) == 2
  {}

  /** The leaves of the tree and its gaps together make up the whole tree. */
  lemma {:induction false} TreeGapsCapacity<Node>(h: Hasher<Node>, t: Frontier<Node>, leaves: seq<Node>, depth: nat)
    requires |t.parents| < depth && Represents(h, t, leaves)
    ensures |leaves| + Capacity(TreeGaps(t, depth)) == Pow2(depth)
    ensures forall i :: 0 <= i < |TreeGaps(t, depth)| ==> TreeGaps(t, depth)[i] < depth
  {
    hide Represents, Pow2;
    var upper := UpperSlots(t, depth);
    SizeCountsLeaves(h, t, leaves);
    RightNeedsLeft(h, t, leaves);
    PowTwos();
    GapsCapacity(upper, 1);
    OccupiedNones(t.parents, 1, depth - 1 - |t.parents|);
    if t.left.None? {
      assert TreeGaps(t, depth)[1..] == [0] + Gaps(upper, 1);
      assert TreeGaps(t, depth)[1..][1..] == Gaps(upper, 1);
    } else if t.right.None? {
      assert TreeGaps(t, depth)[1..] == Gaps(upper, 1);
    } else {
      assert TreeGaps(t, depth) == Gaps(upper, 1);
    }
  }

  lemma {:induction false} NextSlotIsGap<Node>(parents: seq<Option<Node>>, d: nat, skip: nat, n: nat)
    ensures var gaps := Gaps(parents + Nones(n), d);
            if skip < |gaps| then NextSlot(parents, d, skip) == gaps[skip]
            else NextSlot(parents, d, skip) == d + |parents| + n + (skip - |gaps|)
    decreases |parents|, n, skip
  {
    if parents != [] {
      assert (parents + Nones(n))[1..] == parents[1..] + Nones(n);
      NextSlotIsGap(parents[1..], d + 1, if parents[0].None? && skip > 0 then skip - 1 else skip, n);
    } else if n > 0 {
      assert (parents + Nones(n))[1..] == parents + Nones(n - 1);
      if skip > 0 { NextSlotIsGap(parents, d + 1, skip - 1, n - 1); }
    }
  }

  /** `next_depth` finds the first gap that is not filled yet, or the depth of the tree when all are. */
  lemma NextDepthIsGap<Node>(w: Witness<Node>, depth: nat)
    requires |w.tree.parents| < depth && (w.tree.left.None? ==> w.tree.right.None?)
    ensures var gaps := TreeGaps(w.tree, depth);
            if |w.filled| < |gaps| then NextDepth(w) == gaps[|w.filled|]
            else NextDepth(w) == depth + (|w.filled| - |gaps|)
  {
    var low := 2 - Low(w.tree);
    if |w.filled| >= low {
      NextSlotIsGap(w.tree.parents, 1, |w.filled| - low, depth - 1 - |w.tree.parents|);
    }
  }

  /* ----- append ----- */

  lemma {:induction false} CutCapacity<Node>(h: Hasher<Node>, gaps: seq<nat>, filled: seq<Node>, cursorDepth: nat,
                                             cursor: Option<Frontier<Node>>, after: seq<Node>)
    requires Cut(h, gaps, filled, cursorDepth, cursor, after)
    ensures |filled| <= |gaps| && |after| <= Capacity(gaps)
    ensures |after| == Capacity(gaps) <==> |filled| == |gaps|
    ensures cursor.Some? ==> |filled| < |gaps| && cursorDepth == gaps[|filled|]
    decreases |filled|
  {
    hide PerfectRoot, Represents;
    if filled != [] {
      CutCapacity(h, gaps[1..], filled[1..], cursorDepth, cursor, after[Pow2(gaps[0])..]);
    }
  }

  /** The leaves that come after the first n gaps are filled. */
  ghost function Tail<Node>(gaps: seq<nat>, n: nat, after: seq<Node>): seq<Node>
    requires n <= |gaps|
    decreases n
  {
    if n == 0 then after else Tail(gaps[1..], n - 1, Drop(after, Pow2(gaps[0])))
  }

  /** Below the first unfilled gap, only the cursor is left. */
  lemma {:induction false} CutTail<Node>(h: Hasher<Node>, gaps: seq<nat>, filled: seq<Node>,
                                         cursorDepth: nat, cursor: Option<Frontier<Node>>, after: seq<Node>)
    requires Cut(h, gaps, filled, cursorDepth, cursor, after) && |filled| <= |gaps|
    ensures Cut(h, gaps[|filled|..], [], cursorDepth, cursor, Tail(gaps, |filled|, after))
    decreases |filled|
  {
    hide PerfectRoot, Represents;
    if filled != [] {
      CutTail(h, gaps[1..], filled[1..], cursorDepth, cursor, after[Pow2(gaps[0])..]);
      assert gaps[1..][|filled| - 1..] == gaps[|filled|..];
    }
  }

  lemma {:induction false} SliceAppend<T>(s: seq<T>, t: seq<T>, n: nat)
    requires n <= |s|
    ensures (s + t)[n..] == s[n..] + t && (s + t)[..n] == s[..n]
  {}

  /** A leaf recorded below the first unfilled gap leaves the finished subtrees as they are. */
  lemma {:induction false} CutGrows<Node>(h: Hasher<Node>, gaps: seq<nat>, filled: seq<Node>, cursorDepth: nat,
                                          cursor: Option<Frontier<Node>>, after: seq<Node>, node: Node,
                                          newFilled: seq<Node>, newDepth: nat, newCursor: Option<Frontier<Node>>)
    requires Cut(h, gaps, filled, cursorDepth, cursor, after) && |filled| <= |gaps|
    requires Cut(h, gaps[|filled|..], newFilled, newDepth, newCursor, Tail(gaps, |filled|, after) + [node])
    ensures Cut(h, gaps, filled + newFilled, newDepth, newCursor, after + [node])
    decreases |filled|
  {
    hide PerfectRoot, Represents;
    if filled == [] {
      assert filled + newFilled == newFilled;
    } else {
      var size := Pow2(gaps[0]);
      assert gaps[1..][|filled| - 1..] == gaps[|filled|..];
      CutGrows(h, gaps[1..], filled[1..], cursorDepth, cursor, after[size..], node, newFilled, newDepth, newCursor);
      SliceAppend(after, [node], size);
      assert (filled + newFilled)[1..] == filled[1..] + newFilled && (filled + newFilled)[0] == filled[0];
    }
  }

  /** One step below a gap of at least two leaves: the cursor takes the leaf, and becomes a finished
      subtree when the leaf completes it. */
  lemma {:induction false} CursorStep<Node>(h: Hasher<Node>, c: Frontier<Node>, last: seq<Node>, node: Node, gap: nat,
                                            depth: nat)
    requires 0 < gap < depth && Represents(h, c, last) && |last| < Pow2(gap)
    ensures Append(h, c, node, depth).Some?
    ensures var next := Append(h, c, node, depth).value;
            && Represents(h, next, last + [node])
            && |next.parents| < gap
            && (IsComplete(next, gap) <==> |last| + 1 == Pow2(gap))
            && (IsComplete(next, gap) ==> Root(h, next, gap, []) == PerfectRoot(h, last + [node], gap))
  {
    hide PerfectRoot, PaddedRoot, Represents, Append, Root, IsComplete;
    Pow2Monotone(gap, depth);
    AppendRecords(h, c, last, node, depth);
    var next := Append(h, c, node, depth).value;
    CompleteIffFull(h, next, last + [node], gap);
    if IsComplete(next, gap) {
      RootIsPaddedRoot(h, next, last + [node], gap);
      PaddedFull(h, last + [node], gap);
    }
  }

  /** Without a cursor its depth does not matter. */
  lemma {:induction false} CutKeepsDepth<Node>(h: Hasher<Node>, gaps: seq<nat>, filled: seq<Node>,
                                               cursorDepth: nat, newDepth: nat, after: seq<Node>)
    requires Cut(h, gaps, filled, cursorDepth, None, after)
    ensures Cut(h, gaps, filled, newDepth, None, after)
    decreases |filled|
  {
    hide PerfectRoot, Represents;
    if filled != [] {
      CutKeepsDepth(h, gaps[1..], filled[1..], cursorDepth, newDepth, after[Pow2(gaps[0])..]);
    }
  }

  /** The step seen from the first unfilled gap alone, when its cursor exists or is to be made. */
  lemma {:induction false} StepAtCursor<Node>(h: Hasher<Node>, w: Witness<Node>, gaps: seq<nat>, last: seq<Node>,
                                              node: Node, depth: nat)
    requires depth > 0 && gaps != [] && gaps[0] < depth && w.cursor.Some?
    requires Cut(h, gaps, [], w.cursorDepth, w.cursor, last)
    ensures var r := WitnessAppend(h, w, node, depth);
            && r.Appended? && r.w.tree == w.tree && CursorFits(r.w) && w.filled <= r.w.filled
            && Cut(h, gaps, r.w.filled[|w.filled|..], r.w.cursorDepth, r.w.cursor, last + [node])
  {
    hide PerfectRoot, Represents, Append, Root;
    var gap, all := gaps[0], last + [node];
    CursorStep(h, w.cursor.value, last, node, gap, depth);
    var next := Append(h, w.cursor.value, node, depth).value;
    if IsComplete(next, gap) {
      var root := Root(h, next, gap, []);
      assert all[..|all|] == all && all[|all|..] == [];
      assert (w.filled + [root])[|w.filled|..] == [root];
      assert Cut(h, gaps[1..], [], gap, None, []);
      assert [root][1..] == [];
      assert Cut(h, gaps, [root], gap, None, all);
    } else {
      assert Cut(h, gaps, [], gap, Some(next), all);
    }
  }

  lemma EmptyRepresents<Node>(h: Hasher<Node>)
    ensures Represents(h, EmptyFrontier(), [])
  {}

  lemma {:induction false} StepAtNewGap<Node>(h: Hasher<Node>, w: Witness<Node>, gaps: seq<nat>, node: Node, depth: nat)
    requires depth > 0 && gaps != [] && gaps[0] < depth && w.cursor.None? && NextDepth(w) == gaps[0]
    ensures var r := WitnessAppend(h, w, node, depth);
            && r.Appended? && r.w.tree == w.tree && CursorFits(r.w) && w.filled <= r.w.filled
            && Cut(h, gaps, r.w.filled[|w.filled|..], r.w.cursorDepth, r.w.cursor, [node])
  {
    hide PerfectRoot, Represents, Append, Root, NextDepth;
    var gap := gaps[0];
    if gap == 0 {
      assert [node][1..] == [] && [node][..1] == [node];
      PerfectLeaf(h, [node]);
    } else {
      EmptyRepresents(h);
      CursorStep(h, EmptyFrontier(), [], node, gap, depth);
      assert [] + [node] == [node];
      Pow2Monotone(1, gap);
    }
  }

  /** Appending the same leaf to the witness as to the tree: it never panics, is refused exactly when
      the tree is full, and otherwise the witness tracks the longer tree. */
  lemma {:induction false} WitnessAppendTracks<Node>(h: Hasher<Node>, w: Witness<Node>, leaves: seq<Node>,
                                                     after: seq<Node>, node: Node, depth: nat)
    requires Tracks(h, w, leaves, after, depth)
    ensures |leaves + after| <= Pow2(depth)
    ensures var r := WitnessAppend(h, w, node, depth);
            if |leaves + after| == Pow2(depth)
            then r.Refused? && Tracks(h, r.w, leaves, after, depth)
            else r.Appended? && Tracks(h, r.w, leaves, after + [node], depth)
  {
    hide PerfectRoot, Represents, TreeGaps;
    var gaps, n := TreeGaps(w.tree, depth), |w.filled|;
    TreeGapsCapacity(h, w.tree, leaves, depth);
    CutCapacity(h, gaps, w.filled, w.cursorDepth, w.cursor, after);
    RightNeedsLeft(h, w.tree, leaves);
    NextDepthIsGap(w, depth);
    if n == |gaps| {
      CutKeepsDepth(h, gaps, w.filled, w.cursorDepth, NextDepth(w), after);
    } else {
      CutTail(h, gaps, w.filled, w.cursorDepth, w.cursor, after);
      if w.cursor.Some? {
        StepAtCursor(h, w, gaps[n..], Tail(gaps, n, after), node, depth);
      } else {
        StepAtNewGap(h, w, gaps[n..], node, depth);
        assert Tail(gaps, n, after) + [node] == [node];
      }
      var next := WitnessAppend(h, w, node, depth).w;
      CutGrows(h, gaps, w.filled, w.cursorDepth, w.cursor, after, node, next.filled[n..], next.cursorDepth,
               next.cursor);
      assert next.filled == w.filled + next.filled[n..];
    }
  }

  /* ----- root and path ----- */

  lemma {:induction false} CutFills<Node>(h: Hasher<Node>, gaps: seq<nat>, filled: seq<Node>, cursorDepth: nat,
                                          cursor: Option<Frontier<Node>>, after: seq<Node>)
    requires Cut(h, gaps, filled, cursorDepth, cursor, after)
    requires cursor.Some? ==> |cursor.value.parents| < cursorDepth
    ensures Fills(h, gaps, filled + (if cursor.Some? then [Root(h, cursor.value, cursorDepth, [])] else []), after)
    decreases |filled|
  {
    hide PerfectRoot, PaddedRoot, Represents, Root;
    var root := if cursor.Some? then [Root(h, cursor.value, cursorDepth, [])] else [];
    if filled != [] {
      PaddedFull(h, after[..Pow2(gaps[0])], gaps[0]);
      CutFills(h, gaps[1..], filled[1..], cursorDepth, cursor, after[Pow2(gaps[0])..]);
      assert (filled + root)[1..] == filled[1..] + root;
      assert Take(after, Pow2(gaps[0])) == after[..Pow2(gaps[0])];
    } else if cursor.Some? {
      RootIsPaddedRoot(h, cursor.value, after, cursorDepth);
      assert filled + root == root && root[1..] == [];
    }
  }

  /** The witness's root is the root of the padded tree over all leaves it has seen. */
  lemma {:induction false} WitnessRootIsPaddedRoot<Node>(h: Hasher<Node>, w: Witness<Node>, leaves: seq<Node>,
                                                         after: seq<Node>, depth: nat)
    requires Tracks(h, w, leaves, after, depth)
    ensures |leaves + after| <= Pow2(depth)
    ensures WitnessRoot(h, w, depth) == PaddedRoot(h, leaves + after, depth)
  {
    hide PerfectRoot, PaddedRoot, Represents, Root, Cut, Fills, TreeGaps;
    CutFills(h, TreeGaps(w.tree, depth), w.filled, w.cursorDepth, w.cursor, after);
    RootWithFiller(h, w.tree, leaves, depth, after, Filler(h, w));
  }

  lemma {:induction false} PathClimbs<Node>(h: Hasher<Node>, slots: seq<Option<Node>>, level: nat, queue: seq<Node>,
                                            leaf: Node)
    ensures var path := PathThrough(h, slots, level, queue);
            && |path| == |slots|
            && (forall j :: 0 <= j < |slots| ==> path[j].1 == slots[j].Some?)
            && PathRoot(h, path, level, leaf) == Climb(h, slots, level, leaf, queue)
    decreases |slots|
  {
    if slots != [] {
      var path := PathThrough(h, slots, level, queue);
      var parent := if slots[0].Some? then h.combine(level, slots[0].value, leaf)
                    else h.combine(level, leaf, Front(h, queue, level));
      var rest := if slots[0].Some? then queue else Rest(queue);
      PathClimbs(h, slots[1..], level + 1, rest, parent);
      assert path[1..] == PathThrough(h, slots[1..], level + 1, rest);
    }
  }

  /** The j-th binary digit of n. */
  predicate Bit(n: nat, j: nat) {
    if j == 0 then n % 2 == 1 else Bit(n / 2, j - 1)
  }

  lemma {:induction false} OccupiedDoubles<Node>(slots: seq<Option<Node>>, level: nat)
    ensures Occupied(slots, level + 1) == 2 * Occupied(slots, level)
    decreases |slots|
  {
    if slots != [] { OccupiedDoubles(slots[1..], level + 1); }
  }

  /** The occupied slots are the binary digits of the number of leaves in them. */
  lemma {:induction false} OccupiedBits<Node>(slots: seq<Option<Node>>, j: nat)
    requires j < |slots|
    ensures slots[j].Some? <==> Bit(Occupied(slots, 0), j)
    decreases j
  {
    OccupiedDoubles(slots[1..], 0);
    if j > 0 { OccupiedBits(slots[1..], j - 1); }
  }

  /** The path has one entry for every level, its flags are the binary digits of the position of the
      witnessed leaf, and it leads from that leaf to the witness's root. */
  lemma {:induction false} WitnessPathIsValid<Node>(h: Hasher<Node>, w: Witness<Node>, leaves: seq<Node>,
                                                    after: seq<Node>, depth: nat)
    requires Tracks(h, w, leaves, after, depth) && leaves != []
    ensures WitnessPath(h, w, depth).Some?
    ensures var path := WitnessPath(h, w, depth).value;
            && |path| == depth
            && (forall j :: 0 <= j < depth ==> (path[j].1 <==> Bit(|leaves| - 1, j)))
            && PathRoot(h, path, 0, leaves[|leaves| - 1]) == WitnessRoot(h, w, depth)
  {
    hide PerfectRoot, PaddedRoot, Cut, Fills, TreeGaps, Packed;
    var slots, leaf := LeafSlots(w.tree, depth), leaves[|leaves| - 1];
    PathClimbs(h, slots, 0, Filler(h, w), leaf);
    assert slots[1..] == UpperSlots(w.tree, depth);
    SizeCountsLeaves(h, w.tree, leaves);
    OccupiedNones(w.tree.parents, 1, depth - 1 - |w.tree.parents|);
    forall j | 0 <= j < depth ensures slots[j].Some? <==> Bit(|leaves| - 1, j) {
      OccupiedBits(slots, j);
    }
  }

  /* ----- whole runs ----- */

  /** Appends the leaves one after the other, up to the first one that is not recorded. */
  function WitnessAppendAll<Node>(h: Hasher<Node>, w: Witness<Node>, more: seq<Node>, depth: nat): AppendOutcome<Node>
    requires depth > 0
    decreases |more|
  {
    if more == [] then Appended(w)
    else
      var next := WitnessAppend(h, w, more[0], depth);
      if next.Appended? then WitnessAppendAll(h, next.w, more[1..], depth) else next
  }

  lemma {:induction false} WitnessAppendAllTracks<Node>(h: Hasher<Node>, w: Witness<Node>, leaves: seq<Node>,
                                                        after: seq<Node>, more: seq<Node>, depth: nat)
    requires Tracks(h, w, leaves, after, depth)
    ensures var r := WitnessAppendAll(h, w, more, depth);
            if |leaves + after + more| <= Pow2(depth)
            then r.Appended? && Tracks(h, r.w, leaves, after + more, depth)
            else r.Refused?
    decreases |more|
  {
    hide Tracks, WitnessAppend;
    WitnessRootIsPaddedRoot(h, w, leaves, after, depth);
    if more == [] {
      assert after + more == after;
    } else {
      WitnessAppendTracks(h, w, leaves, after, more[0], depth);
      if |leaves + after| < Pow2(depth) {
        var next := WitnessAppend(h, w, more[0], depth).w;
        WitnessAppendAllTracks(h, next, leaves, after + [more[0]], more[1..], depth);
        assert after + [more[0]] + more[1..] == after + more;
      }
    }
  }

  /** A new witness tracks the tree it is taken from. */
  lemma {:induction false} FromTreeTracks<Node>(h: Hasher<Node>, t: Frontier<Node>, leaves: seq<Node>, depth: nat)
    requires depth > 0 && Represents(h, t, leaves) && |leaves| <= Pow2(depth)
    ensures Tracks(h, FromTree(t), leaves, [], depth)
  {
    CompleteIffFull(h, t, leaves, depth);
  }

  /** A tree and a witness that have seen the same leaves show the same root, the one of the padded
      tree, and the witness has a valid path to it from the witnessed leaf, if there is one. */
  ghost predicate Agree<Node>(h: Hasher<Node>, t: Frontier<Node>, w: Witness<Node>, leaves: seq<Node>, more: seq<Node>,
                              depth: nat) {
    && |leaves + more| <= Pow2(depth)
    && |t.parents| < depth && |w.tree.parents| < depth && CursorFits(w)
    && WitnessRoot(h, w, depth) == Root(h, t, depth, []) == PaddedRoot(h, leaves + more, depth)
    && match WitnessPath(h, w, depth)
       case None => leaves == []
       case Some(path) =>
         && leaves != [] && |path| == depth
         && (forall j :: 0 <= j < depth ==> (path[j].1 <==> Bit(|leaves| - 1, j)))
         && PathRoot(h, path, 0, leaves[|leaves| - 1]) == Root(h, t, depth, [])
  }

  lemma {:induction false} TrackedAgree<Node>(h: Hasher<Node>, t: Frontier<Node>, w: Witness<Node>, leaves: seq<Node>,
                                              more: seq<Node>, depth: nat)
    requires Tracks(h, w, leaves, more, depth) && Represents(h, t, leaves + more)
    ensures Agree(h, t, w, leaves, more, depth)
  {
    hide PerfectRoot, PaddedRoot, Cut, Root, WitnessRoot, PathThrough, Packed;
    WitnessRootIsPaddedRoot(h, w, leaves, more, depth);
    RootIsPaddedRoot(h, t, leaves + more, depth);
    if leaves != [] { WitnessPathIsValid(h, w, leaves, more, depth); }
  }

  /** How the runs of a tree and of a witness taken from it end when both are given the same leaves. */
  ghost predicate RunsAgree<Node>(h: Hasher<Node>, t: Frontier<Node>, leaves: seq<Node>, more: seq<Node>, depth: nat)
    requires depth > 0
  {
    var tree, run := AppendAll(h, t, more, depth), WitnessAppendAll(h, FromTree(t), more, depth);
    if |leaves + more| <= Pow2(depth)
    then tree.Some? && run.Appended? && Agree(h, tree.value, run.w, leaves, more, depth)
    else tree.None? && run.Refused?
  }

  lemma {:induction false} RepresentedRunsAgree<Node>(h: Hasher<Node>, t: Frontier<Node>, leaves: seq<Node>,
                                                      more: seq<Node>, depth: nat)
    requires depth > 0 && |leaves| <= Pow2(depth) && Represents(h, t, leaves)
    ensures RunsAgree(h, t, leaves, more, depth)
  {
    hide Tracks, Represents, Agree, AppendAll, WitnessAppendAll;
    AppendAllRecords(h, t, leaves, more, depth);
    FromTreeTracks(h, t, leaves, depth);
    WitnessAppendAllTracks(h, FromTree(t), leaves, [], more, depth);
    assert leaves + [] == leaves && [] + more == more;
    if |leaves + more| <= Pow2(depth) {
      TrackedAgree(h, AppendAll(h, t, more, depth).value, WitnessAppendAll(h, FromTree(t), more, depth).w, leaves, more,
                   depth);
    }
  }

  /** For every depth, take a witness of a tree of any leaves and append any further leaves to both:
      both runs go through or both are refused, no `expect` fires, and at the end they agree. */
  lemma {:induction false} WitnessRun<Node>(h: Hasher<Node>, leaves: seq<Node>, more: seq<Node>, depth: nat)
    requires depth > 0 && |leaves| <= Pow2(depth)
    ensures AppendAll(h, EmptyFrontier(), leaves, depth).Some?
    ensures RunsAgree(h, AppendAll(h, EmptyFrontier(), leaves, depth).value, leaves, more, depth)
  {
    AppendAllRecords(h, EmptyFrontier(), [], leaves, depth);
    assert [] + leaves == leaves;
    RepresentedRunsAgree(h, AppendAll(h, EmptyFrontier(), leaves, depth).value, leaves, more, depth);
  }
}
