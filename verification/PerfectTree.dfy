/** The plain Merkle tree that the incremental structures of merkle.rs speed up:
    every level is hashed in full, and missing leaves are blank. */
module PerfectTree {
  import opened Powers

  /** The two operations of the `Hashable` trait that matter for roots: `combine(d, l, r)` is the
      parent of two nodes that each cover 2^d leaves. It is left uninterpreted. */
  datatype Hasher<!Node> = Hasher(combine: (nat, Node, Node) -> Node, blank: Node)

  /** The root over exactly 2^d leaves. */
  ghost function PerfectRoot<Node>(h: Hasher<Node>, leaves: seq<Node>, d: nat): Node
    requires |leaves| == Pow2(d)
    decreases d
  {
    if d == 0 then leaves[0]
    else
      var half := Pow2(d - 1);
      h.combine(d - 1, PerfectRoot(h, leaves[..half], d - 1), PerfectRoot(h, leaves[half..], d - 1))
  }

  lemma {:induction false} PerfectLeaf<Node>(h: Hasher<Node>, leaf: seq<Node>)
    requires |leaf| == 1
    ensures PerfectRoot(h, leaf, 0) == leaf[0]
  {}

  /** Four leaves: the left of two nodes comes first, and nodes are combined with the level of their children. */
  lemma FourLeaves<Node>(h: Hasher<Node>, a: Node, b: Node, c: Node, d: Node)
    ensures Pow2(2) == 4 && PerfectRoot(h, [a, b, c, d], 2) == h.combine(1, h.combine(0, a, b), h.combine(0, c, d))
  {
    assert [a, b, c, d][..2] == [a, b] && [a, b, c, d][2..] == [c, d];
    assert [a, b][..1] == [a] && [a, b][1..] == [b] && [c, d][..1] == [c] && [c, d][1..] == [d];
    assert Pow2(0) == 1 && Pow2(1) == 2;
  }

  /** Two halves make a whole. */
  lemma {:induction false} PerfectJoin<Node>(h: Hasher<Node>, left: seq<Node>, right: seq<Node>, d: nat)
    requires |left| == |right| == Pow2(d)
    ensures |left + right| == Pow2(d + 1)
    ensures PerfectRoot(h, left + right, d + 1) == h.combine(d, PerfectRoot(h, left, d), PerfectRoot(h, right, d))
  {
    assert (left + right)[..Pow2(d)] == left && (left + right)[Pow2(d)..] == right;
  }

  ghost function Pad<Node>(h: Hasher<Node>, leaves: seq<Node>, n: nat): (r: seq<Node>)
    requires |leaves| <= n
    ensures |r| == n && leaves <= r
  {
    leaves + seq(n - |leaves|, _ => h.blank)
  }

  /** The root of the tree of depth d whose first leaves are the given ones and the rest blank. */
  ghost function PaddedRoot<Node>(h: Hasher<Node>, leaves: seq<Node>, d: nat): Node
    requires |leaves| <= Pow2(d)
  {
    PerfectRoot(h, Pad(h, leaves, Pow2(d)), d)
  }

  /** The root of a tree of depth d with no leaves, built level by level as coin.rs tabulates it. */
  function EmptyRoot<Node>(h: Hasher<Node>, d: nat): Node {
    if d == 0 then h.blank else h.combine(d - 1, EmptyRoot(h, d - 1), EmptyRoot(h, d - 1))
  }

  lemma {:induction false} PaddedFull<Node>(h: Hasher<Node>, leaves: seq<Node>, d: nat)
    requires |leaves| == Pow2(d)
    ensures PaddedRoot(h, leaves, d) == PerfectRoot(h, leaves, d)
  {
    assert Pad(h, leaves, Pow2(d)) == leaves;
  }

  lemma PaddedLeaf<Node>(h: Hasher<Node>, leaf: Node)
    ensures PaddedRoot(h, [leaf], 0) == leaf
  {
    PaddedFull(h, [leaf], 0);
    PerfectLeaf(h, [leaf]);
  }

  /** A full left half and a possibly partial right half hash together. */
  lemma {:induction false} PaddedJoin<Node>(h: Hasher<Node>, left: seq<Node>, right: seq<Node>, d: nat)
    requires |left| == Pow2(d) && |right| <= Pow2(d)
    ensures PaddedRoot(h, left + right, d + 1)
         == h.combine(d, PerfectRoot(h, left, d), PaddedRoot(h, right, d))
  {
    hide PerfectRoot;
    assert Pad(h, left + right, Pow2(d + 1)) == left + Pad(h, right, Pow2(d));
    PerfectJoin(h, left, Pad(h, right, Pow2(d)), d);
  }

  lemma {:induction false} PaddedEmpty<Node>(h: Hasher<Node>, d: nat)
    ensures PaddedRoot(h, [], d) == EmptyRoot(h, d)
  {
    if d > 0 {
      var half := Pad(h, [], Pow2(d - 1));
      assert Pad(h, [], Pow2(d)) == half + half;
      PerfectJoin(h, half, half, d - 1);
      PaddedEmpty(h, d - 1);
    }
  }

  /** A tree that fits in its left half has the empty root on its right. */
  lemma {:induction false} PaddedLift<Node>(h: Hasher<Node>, leaves: seq<Node>, d: nat)
    requires |leaves| <= Pow2(d)
    ensures PaddedRoot(h, leaves, d + 1) == h.combine(d, PaddedRoot(h, leaves, d), EmptyRoot(h, d))
  {
    hide PerfectRoot;
    assert Pad(h, leaves, Pow2(d + 1)) == Pad(h, leaves, Pow2(d)) + Pad(h, [], Pow2(d));
    PerfectJoin(h, Pad(h, leaves, Pow2(d)), Pad(h, [], Pow2(d)), d);
    PaddedEmpty(h, d);
  }

  /** Two neighbouring subtrees hash to the padded root of their leaves, provided the right one is
      empty unless the left one is full. */
  lemma {:induction false} PaddedPair<Node>(h: Hasher<Node>, left: seq<Node>, right: seq<Node>, d: nat)
    requires |left| <= Pow2(d) && |right| <= Pow2(d) && (right != [] ==> |left| == Pow2(d))
    ensures h.combine(d, PaddedRoot(h, left, d), PaddedRoot(h, right, d)) == PaddedRoot(h, left + right, d + 1)
  {
    if right == [] {
      PaddedEmpty(h, d);
      PaddedLift(h, left, d);
      assert left + right == left;
    } else {
      PaddedFull(h, left, d);
      PaddedJoin(h, left, right, d);
    }
  }
}
