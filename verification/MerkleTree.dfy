/** The classes of merkle.rs and the table of coin.rs, updated in place. Each object carries, as
    ghost state, the leaves it has been given; its contracts speak of those leaves only. */
module MerkleTrees {
  import opened Wrappers
  import opened Powers
  import opened PerfectTree
  import opened Frontiers
  import opened Witnesses

  /** The table of empty roots, one entry for every level up to the root. */
  method BuildEmptyRoots<Node>(h: Hasher<Node>, depth: nat) returns (v: seq<Node>)
    ensures |v| == depth + 1
    ensures forall d :: 0 <= d <= depth ==> v[d] == PaddedRoot(h, [], d)
  {
    v := [h.blank];
    for d := 0 to depth
      invariant |v| == d + 1
      invariant forall k :: 0 <= k <= d ==> v[k] == EmptyRoot(h, k)
    {
      var next := h.combine(d, v[d], v[d]);
      v := v + [next];
    }
    forall d | 0 <= d <= depth ensures v[d] == PaddedRoot(h, [], d) {
      PaddedEmpty(h, d);
    }
  }

  /* How the loops below unfold the functions that specify them. */

  lemma {:induction false} CarryStep<Node>(h: Hasher<Node>, slots: seq<Option<Node>>, k: nat, node: Node)
    requires k <= |slots|
    ensures Carry(h, slots[k..], k + 1, node)
         == if k == |slots| then [Some(node)]
            else match slots[k]
              case None => [Some(node)] + slots[k + 1..]
              case Some(p) => [None] + Carry(h, slots[k + 1..], k + 2, h.combine(k + 1, p, node))
  {
    if k < |slots| { assert slots[k..][1..] == slots[k + 1..]; }
  }

  lemma {:induction false} ClimbStep<Node>(h: Hasher<Node>, slots: seq<Option<Node>>, k: nat, root: Node,
                                           queue: seq<Node>)
    requires k < |slots|
    ensures Climb(h, slots[k..], k + 1, root, queue)
         == match slots[k]
            case Some(p) => Climb(h, slots[k + 1..], k + 2, h.combine(k + 1, p, root), queue)
            case None => Climb(h, slots[k + 1..], k + 2, h.combine(k + 1, root, Front(h, queue, k + 1)), Rest(queue))
  {
    assert slots[k..][1..] == slots[k + 1..];
  }

  lemma {:induction false} ClimbEnds<Node>(h: Hasher<Node>, slots: seq<Option<Node>>, root: Node, queue: seq<Node>)
    ensures Climb(h, slots[|slots|..], |slots| + 1, root, queue) == root
  {}

  /** The first k entries of the whole path are there, and the filler still gives the others. */
  ghost predicate PathSoFar<Node>(h: Hasher<Node>, slots: seq<Option<Node>>, whole: seq<(Node, bool)>,
                                  k: nat, path: seq<(Node, bool)>, queue: seq<Node>)
  {
    k <= |slots| == |whole| && path == whole[..k] && PathThrough(h, slots[k..], k, queue) == whole[k..]
  }

  lemma {:induction false} PathBegins<Node>(h: Hasher<Node>, slots: seq<Option<Node>>, queue: seq<Node>, leaf: Node)
    ensures PathSoFar(h, slots, PathThrough(h, slots, 0, queue), 0, [], queue)
  {
    PathClimbs(h, slots, 0, queue, leaf);
    assert slots[0..] == slots;
  }

  lemma {:induction false} PathStep<Node>(h: Hasher<Node>, slots: seq<Option<Node>>, whole: seq<(Node, bool)>,
                       k: nat, path: seq<(Node, bool)>, queue: seq<Node>)
    requires k < |slots| && PathSoFar(h, slots, whole, k, path, queue)
    ensures match slots[k]
            case Some(p) => PathSoFar(h, slots, whole, k + 1, path + [(p, true)], queue)
            case None => PathSoFar(h, slots, whole, k + 1, path + [(Front(h, queue, k), false)], Rest(queue))
  {
    hide Front, Rest;
    assert slots[k..][1..] == slots[k + 1..];
    assert whole[k..][1..] == whole[k + 1..] && whole[k..][0] == whole[k];
    assert whole[..k] + [whole[k]] == whole[..k + 1];
  }

  lemma {:induction false} PathEnds<Node>(h: Hasher<Node>, slots: seq<Option<Node>>, whole: seq<(Node, bool)>,
                                          path: seq<(Node, bool)>, queue: seq<Node>)
    requires PathSoFar(h, slots, whole, |slots|, path, queue)
    ensures path == whole
  {}

  lemma EmptyAboveParents<Node>(t: Frontier<Node>, depth: nat)
    requires |t.parents| < depth
    ensures forall k :: |t.parents| < k < depth ==> LeafSlots(t, depth)[k] == None
  {}

  class PathFiller<Node> {
    const h: Hasher<Node>
    var queue: seq<Node>

    constructor (h: Hasher<Node>, queue: seq<Node>)
      ensures this.h == h && this.queue == queue
    {
      this.h := h;
      this.queue := queue;
    }

    method Next(depth: nat) returns (node: Node)
      modifies this
      ensures node == Front(h, old(queue), depth)
      ensures queue == Rest(old(queue))
    {
      if queue == [] {
        node := EmptyRoot(h, depth);
      } else {
        node := queue[0];
        queue := queue[1..];
      }
    }
  }

  class CommitmentTree<Node> {
    const h: Hasher<Node>
    var left: Option<Node>
    var right: Option<Node>
    var parents: seq<Option<Node>>

    /** The leaves appended so far. */
    ghost var leaves: seq<Node>

    function View(): Frontier<Node>
      reads this
    {
      Frontier(left, right, parents)
    }

    ghost predicate Valid()
      reads this
    {
      Represents(h, View(), leaves)
    }

    constructor Empty(h: Hasher<Node>)
      ensures this.h == h && Valid() && leaves == [] && View() == EmptyFrontier()
    {
      this.h := h;
      left := None;
      right := None;
      parents := [];
      leaves := [];
    }

    /** `clone` */
    constructor Clone(other: CommitmentTree<Node>)
      requires other.Valid()
      ensures h == other.h && Valid() && leaves == other.leaves && View() == other.View()
    {
      h := other.h;
      left := other.left;
      right := other.right;
      parents := other.parents;
      leaves := other.leaves;
    }

    method Size() returns (n: nat)
      requires Valid()
      ensures n == |leaves|
    {
      n := (if left.Some? then 1 else 0) + (if right.Some? then 1 else 0);
      ghost var low := n;
      for i := 0 to |parents|
        invariant n + Occupied(parents[i..], i + 1) == low + Occupied(parents, 1)
      {
        assert parents[i..][1..] == parents[i + 1..];
        if parents[i].Some? {
          n := n + Pow2(i + 1);
        }
      }
      assert parents[|parents|..] == [];
      SizeCountsLeaves(h, View(), leaves);
    }

    /** Adds a leaf, or refuses it because the tree is full. */
    method AppendInner(node: Node, depth: nat) returns (ok: bool)
      requires depth > 0 && Valid() && |leaves| <= Pow2(depth)
      modifies this
      ensures Valid()
      ensures ok <==> |old(leaves)| < Pow2(depth)
      ensures leaves == if ok then old(leaves) + [node] else old(leaves)
      ensures match Append(h, old(View()), node, depth)
              case None => !ok && View() == old(View())
              case Some(t) => ok && View() == t
    {
      AppendRecords(h, View(), leaves, node, depth);
      CompleteIffFull(h, View(), leaves, depth);
      if IsComplete(View(), depth) {
        return false;
      }
      if left.None? {
        left := Some(node);
      } else if right.None? {
        right := Some(node);
      } else {
        var pair := h.combine(0, left.value, right.value);
        left := Some(node);
        right := None;
        PushPair(pair, depth);
      }
      leaves := leaves + [node];
      ok := true;
    }

    /** The carry loop of `append_inner`. */
    method PushPair(pair: Node, depth: nat)
      requires |parents| < depth
      modifies this`parents
      ensures parents == Carry(h, old(parents), 1, pair)
    {
      hide Carry;
      var combined := pair;
      ghost var start := parents;
      for i := 0 to depth
        invariant i <= |start| == |parents| && parents[i..] == start[i..]
        invariant Carry(h, start, 1, pair) == parents[..i] + Carry(h, start[i..], i + 1, combined)
      {
        CarryStep(h, start, i, combined);
        if i < |parents| {
          match parents[i] {
            case Some(p) =>
              combined := h.combine(i + 1, p, combined);
              parents := parents[i := None];
            case None =>
              parents := parents[i := Some(combined)];
              break;
          }
        } else {
          parents := parents + [Some(combined)];
          break;
        }
      }
    }

    /** The root at the given depth, with the filler supplying the nodes to the right. */
    method RootInner(depth: nat, filler: PathFiller<Node>) returns (root: Node)
      requires |parents| < depth && filler.h == h
      modifies filler
      ensures root == Root(h, View(), depth, old(filler.queue))
    {
      // 1) The lowest two nodes.
      var l, r;
      if left.Some? { l := left.value; } else { l := filler.Next(0); }
      if right.Some? { r := right.value; } else { r := filler.Next(0); }
      root := h.combine(0, l, r);
      root := HashParents(root, depth, filler);
      root := HashEmptyLevels(root, depth, filler);
    }

    /** 2) The parents, up to the currently filled depth. */
    method HashParents(leafRoot: Node, depth: nat, filler: PathFiller<Node>) returns (root: Node)
      requires |parents| < depth && filler.h == h
      modifies filler
      ensures var upper := UpperSlots(View(), depth);
              Climb(h, upper[|parents|..], |parents| + 1, root, filler.queue)
                == Climb(h, upper, 1, leafRoot, old(filler.queue))
    {
      hide Climb, Front, Rest;
      root := leafRoot;
      ghost var upper := UpperSlots(View(), depth);
      assert upper[0..] == upper;
      for i := 0 to |parents|
        invariant Climb(h, upper[i..], i + 1, root, filler.queue) == Climb(h, upper, 1, leafRoot, old(filler.queue))
      {
        ClimbStep(h, upper, i, root, filler.queue);
        match parents[i] {
          case Some(node) => root := h.combine(i + 1, node, root);
          case None =>
            var next := filler.Next(i + 1);
            root := h.combine(i + 1, root, next);
        }
      }
    }

    /** 3) The levels above the parents. */
    method HashEmptyLevels(midRoot: Node, depth: nat, filler: PathFiller<Node>) returns (root: Node)
      requires |parents| < depth && filler.h == h
      modifies filler
      ensures var upper := UpperSlots(View(), depth);
              root == Climb(h, upper[|parents|..], |parents| + 1, midRoot, old(filler.queue))
    {
      hide Climb, Front, Rest;
      root := midRoot;
      ghost var upper := UpperSlots(View(), depth);
      ghost var goal := Climb(h, upper[|parents|..], |parents| + 1, midRoot, filler.queue);
      for d := |parents| + 1 to depth
        invariant Climb(h, upper[d - 1..], d, root, filler.queue) == goal
      {
        ClimbStep(h, upper, d - 1, root, filler.queue);
        var next := filler.Next(d);
        root := h.combine(d, root, next);
      }
      ClimbEnds(h, upper, root, filler.queue);
    }

    method RootAt(depth: nat) returns (root: Node)
      requires depth > 0 && Valid() && |leaves| <= Pow2(depth)
      ensures root == PaddedRoot(h, leaves, depth)
      ensures |parents| < depth && root == Root(h, View(), depth, [])
    {
      RootIsPaddedRoot(h, View(), leaves, depth);
      var filler := new PathFiller(h, []);
      root := RootInner(depth, filler);
    }
  }

  class IncrementalWitness<Node> {
    const h: Hasher<Node>
    const tree: CommitmentTree<Node>
    var filled: seq<Node>
    var cursorDepth: nat
    var cursor: CommitmentTree?<Node>

    /** The leaves appended to the witness, after those of the tree. */
    ghost var after: seq<Node>

    ghost function Repr(): set<object>
      reads this
    {
      {this, tree} + (if cursor == null then {} else {cursor})
    }

    function View(): Witness<Node>
      reads this, tree, cursor
    {
      Witness(tree.View(), filled, cursorDepth, if cursor == null then None else Some(cursor.View()))
    }

    ghost predicate Valid(depth: nat)
      reads this, tree, cursor
    {
      && tree.h == h && cursor != tree
      && Tracks(h, View(), tree.leaves, after, depth)
      && (cursor != null ==>
            cursor.h == h && cursor.Valid() && 0 < cursorDepth < depth && |cursor.leaves| < Pow2(cursorDepth))
    }

    constructor FromTree(t: CommitmentTree<Node>, ghost depth: nat)
      requires depth > 0 && t.Valid() && |t.leaves| <= Pow2(depth)
      ensures Valid(depth) && fresh(Repr()) && h == t.h
      ensures tree.leaves == t.leaves && after == []
    {
      h := t.h;
      tree := new CommitmentTree.Clone(t);
      filled := [];
      cursorDepth := 0;
      cursor := null;
      after := [];
      new;
      FromTreeTracks(h, tree.View(), tree.leaves, depth);
    }

    method Position(ghost depth: nat) returns (position: nat)
      requires Valid(depth) && tree.leaves != []
      ensures position == |tree.leaves| - 1
    {
      var size := tree.Size();
      position := size - 1;
    }

    method MakeFiller(ghost depth: nat) returns (filler: PathFiller<Node>)
      requires Valid(depth)
      ensures fresh(filler) && filler.h == h && filler.queue == Filler(h, View())
    {
      if cursor == null {
        filler := new PathFiller(h, filled);
      } else {
        var root := cursor.RootAt(cursorDepth);
        filler := new PathFiller(h, filled + [root]);
      }
    }

    method FindNextDepth() returns (d: nat)
      ensures d == NextDepth(View())
    {
      var skip := |filled|;
      if tree.left.None? {
        if skip > 0 { skip := skip - 1; } else { return 0; }
      }
      if tree.right.None? {
        if skip > 0 { skip := skip - 1; } else { return 0; }
      }
      d := 1;
      ghost var start := skip;
      for i := 0 to |tree.parents|
        invariant skip >= 0 && d == i + 1
        invariant NextSlot(tree.parents, 1, start) == NextSlot(tree.parents[i..], d, skip)
      {
        assert tree.parents[i..][1..] == tree.parents[i + 1..];
        if tree.parents[i].None? {
          if skip > 0 { skip := skip - 1; } else { return d; }
        }
        d := d + 1;
      }
      d := d + skip;
    }

    /** Tracks a leaf that has been added to the tree, or refuses it because the tree is full. */
    method AppendInner(node: Node, depth: nat) returns (ok: bool)
      requires depth > 0 && Valid(depth)
      modifies this, cursor
      ensures Valid(depth) && fresh(Repr() - old(Repr()))
      ensures tree.View() == old(tree.View()) && tree.leaves == old(tree.leaves)
      ensures ok <==> |tree.leaves + old(after)| < Pow2(depth)
      ensures after == if ok then old(after) + [node] else old(after)
      ensures match WitnessAppend(h, old(View()), node, depth)
              case Appended(w) => ok && View() == w
              case Refused(w) => !ok && View() == w
              case Panics => false
    {
      WitnessAppendTracks(h, View(), tree.leaves, after, node, depth);
      if cursor != null {
        AppendToCursor(node, depth);
      } else {
        cursorDepth := FindNextDepth();
        if cursorDepth >= depth {
          return false;
        }
        if cursorDepth == 0 {
          filled := filled + [node];
        } else {
          StartCursor(node, depth);
        }
      }
      after := after + [node];
      ok := true;
    }

    /** The branch of `append_inner` that has a cursor. */
    method AppendToCursor(node: Node, depth: nat)
      requires cursor != null && cursor != tree && cursor.h == h && cursor.Valid()
      requires 0 < cursorDepth < depth && |cursor.leaves| < Pow2(cursorDepth)
      modifies this`cursor, this`filled, cursor
      ensures cursor == null || cursor == old(cursor)
      ensures cursor != null ==> cursor.Valid() && |cursor.leaves| < Pow2(cursorDepth)
      ensures WitnessAppend(h, old(View()), node, depth) == Appended(View())
    {
      var c := cursor;
      CursorStep(h, c.View(), c.leaves, node, cursorDepth, depth);
      Pow2Monotone(cursorDepth, depth);
      cursor := null;
      var appended := c.AppendInner(node, depth);
      if IsComplete(c.View(), cursorDepth) {
        var root := c.RootAt(cursorDepth);
        filled := filled + [root];
      } else {
        cursor := c;
      }
    }

    /** The branch of `append_inner` that makes a new cursor. */
    method StartCursor(node: Node, depth: nat)
      requires cursor == null && 0 < cursorDepth < depth
      modifies this`cursor
      ensures cursor != null && fresh(cursor) && cursor.h == h && cursor.Valid() && |cursor.leaves| < Pow2(cursorDepth)
      ensures Append(h, EmptyFrontier(), node, depth) == Some(cursor.View())
    {
      var c := new CommitmentTree.Empty(h);
      Pow2Monotone(1, cursorDepth);
      Pow2Monotone(1, depth);
      var appended := c.AppendInner(node, depth);
      cursor := c;
    }

    /** The root of the tree over all leaves seen so far. */
    method RootInner(depth: nat) returns (root: Node)
      requires Valid(depth)
      ensures |tree.leaves + after| <= Pow2(depth) && root == PaddedRoot(h, tree.leaves + after, depth)
    {
      WitnessRootIsPaddedRoot(h, View(), tree.leaves, after, depth);
      var filler := MakeFiller(depth);
      root := tree.RootInner(depth, filler);
    }

    /** The authentication path of the last leaf of the tree, or None if it has none. */
    method PathInner(depth: nat) returns (path: Option<seq<(Node, bool)>>, position: nat)
      requires Valid(depth)
      ensures path.None? <==> tree.leaves == []
      ensures path.Some? ==>
        && position == |tree.leaves| - 1
        && |path.value| == depth
        && (forall j :: 0 <= j < depth ==> (path.value[j].1 <==> Bit(position, j)))
        && |tree.leaves + after| <= Pow2(depth)
        && PathRoot(h, path.value, 0, tree.leaves[position]) == PaddedRoot(h, tree.leaves + after, depth)
    {
      WitnessRootIsPaddedRoot(h, View(), tree.leaves, after, depth);
      if tree.left.None? {
        return None, 0;
      }
      WitnessPathIsValid(h, View(), tree.leaves, after, depth);
      var filler := MakeFiller(depth);
      var entries := CollectPath(depth, filler);
      position := Position(depth);
      path := Some(entries);
    }

    /** The entries of `path_inner`: the lowest one, those beside the parents, and those above. */
    method CollectPath(depth: nat, filler: PathFiller<Node>) returns (path: seq<(Node, bool)>)
      requires |tree.parents| < depth && tree.left.Some? && filler.h == h
      modifies filler
      ensures path == PathThrough(h, LeafSlots(tree.View(), depth), 0, old(filler.queue))
    {
      hide PathSoFar, PathThrough, Front, Rest;
      ghost var slots := LeafSlots(tree.View(), depth);
      ghost var whole := PathThrough(h, slots, 0, filler.queue);
      PathBegins(h, slots, filler.queue, tree.left.value);
      path := [];
      PathStep(h, slots, whole, 0, path, filler.queue);
      if tree.right.Some? {
        path := path + [(tree.left.value, true)];
      } else {
        var next := filler.Next(0);
        path := path + [(next, false)];
      }
      path := CollectBesideParents(path, depth, filler, whole);
      EmptyAboveParents(tree.View(), depth);
      hide UpperSlots, LeafSlots;
      for i := |tree.parents| to depth - 1
        invariant PathSoFar(h, slots, whole, i + 1, path, filler.queue)
      {
        PathStep(h, slots, whole, i + 1, path, filler.queue);
        var next := filler.Next(i + 1);
        path := path + [(next, false)];
      }
      PathEnds(h, slots, whole, path, filler.queue);
    }

    method CollectBesideParents(start: seq<(Node, bool)>, depth: nat, filler: PathFiller<Node>,
                                ghost whole: seq<(Node, bool)>)
      returns (path: seq<(Node, bool)>)
      requires |tree.parents| < depth && filler.h == h
      requires PathSoFar(h, LeafSlots(tree.View(), depth), whole, 1, start, filler.queue)
      modifies filler
      ensures PathSoFar(h, LeafSlots(tree.View(), depth), whole, |tree.parents| + 1, path, filler.queue)
    {
      hide PathSoFar, Front, Rest;
      path := start;
      ghost var slots := LeafSlots(tree.View(), depth);
      for i := 0 to |tree.parents|
        invariant PathSoFar(h, slots, whole, i + 1, path, filler.queue)
      {
        PathStep(h, slots, whole, i + 1, path, filler.queue);
        match tree.parents[i] {
          case Some(node) => path := path + [(node, true)];
          case None =>
            var next := filler.Next(i + 1);
            path := path + [(next, false)];
        }
      }
    }
  }
}
