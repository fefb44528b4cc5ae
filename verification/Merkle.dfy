/**
  Bitcoin's Merkle tree, in which a level of odd length pairs its last node with itself, and
  the branch by which src/stratum/work.cpp folds the coinbase into the root.
 */
module Merkle {
  import opened Bytes
  import opened Jobs

  type Node = seq<Byte>
  type NodeHash = Node -> Hash256

  /** One level up: adjacent nodes hashed together. */
  function NextLevel(h: NodeHash, nodes: seq<Node>): (up: seq<Node>)
    ensures |up| == (|nodes| + 1) / 2
  {
    if nodes == [] then []
    else if |nodes| == 1 then [h(nodes[0] + nodes[0])]
    else [h(nodes[0] + nodes[1])] + NextLevel(h, nodes[2..])
  }

  function Root(h: NodeHash, nodes: seq<Node>): Node
    requires nodes != []
    decreases |nodes|
  {
    if |nodes| == 1 then nodes[0] else Root(h, NextLevel(h, nodes))
  }

  /** The siblings met on the way from leaf 0 to the root. */
  function Path(h: NodeHash, nodes: seq<Node>): seq<Node>
    decreases |nodes|
  {
    if |nodes| <= 1 then [] else [nodes[1]] + Path(h, NextLevel(h, nodes))
  }

  /** The loop of `build_work`: each branch node is appended and the pair hashed. */
  function Fold(h: NodeHash, start: Node, branch: seq<Node>): Node {
    if branch == [] then start else h(Fold(h, start, branch[..|branch| - 1]) + branch[|branch| - 1])
  }

  lemma {:induction false} FoldFirst(h: NodeHash, start: Node, first: Node, rest: seq<Node>)
    ensures Fold(h, start, [first] + rest) == Fold(h, h(start + first), rest)
    decreases |rest|
  {
    var branch := [first] + rest;
    if rest == [] {
      assert branch[..0] == [];
    } else {
      var front := rest[..|rest| - 1];
      FoldFirst(h, start, first, front);
      assert branch[..|branch| - 1] == [first] + front;
    }
  }

  /** Changing leaf 0 changes only the first node of the next level. */
  lemma NextLevelFirst(h: NodeHash, nodes: seq<Node>, x: Node)
    requires |nodes| >= 2
    ensures NextLevel(h, nodes[0 := x]) == NextLevel(h, nodes)[0 := h(x + nodes[1])]
  {
    assert nodes[0 := x][2..] == nodes[2..];
  }

  /** The path of leaf 0 does not depend on leaf 0, so a pool can send it before the coinbase is known. */
  lemma {:induction false} PathIgnoresFirst(h: NodeHash, nodes: seq<Node>, x: Node)
    requires nodes != []
    ensures Path(h, nodes[0 := x]) == Path(h, nodes)
    decreases |nodes|
  {
    if |nodes| >= 2 {
      NextLevelFirst(h, nodes, x);
      PathIgnoresFirst(h, NextLevel(h, nodes), h(x + nodes[1]));
    }
  }

  /** Folding leaf 0 with its path gives the root. */
  lemma {:induction false} FoldOfPathIsRoot(h: NodeHash, nodes: seq<Node>)
    requires nodes != []
    ensures Fold(h, nodes[0], Path(h, nodes)) == Root(h, nodes)
    decreases |nodes|
  {
    if |nodes| >= 2 {
      FoldFirst(h, nodes[0], nodes[1], Path(h, NextLevel(h, nodes)));
      FoldOfPathIsRoot(h, NextLevel(h, nodes));
    }
  }

  /** Whatever coinbase hash the miner puts first, the branch sent for the other leaves folds to the new root. */
  lemma BranchFoldsToRoot(h: NodeHash, nodes: seq<Node>, coinbase: Node)
    requires nodes != []
    ensures Fold(h, coinbase, Path(h, nodes)) == Root(h, nodes[0 := coinbase])
  {
    PathIgnoresFirst(h, nodes, coinbase);
    FoldOfPathIsRoot(h, nodes[0 := coinbase]);
  }

  // ---- what the tree, the path and the fold are, step by step ----

  /** Node `i` of the next level hashes nodes `2 * i` and `2 * i + 1`, or the last node with itself. */
  lemma {:induction false} NextLevelAt(h: NodeHash, nodes: seq<Node>, i: nat)
    requires 2 * i < |nodes|
    ensures NextLevel(h, nodes)[i] == h(nodes[2 * i] + nodes[if 2 * i + 1 < |nodes| then 2 * i + 1 else 2 * i])
  {
    if i != 0 {
      NextLevelAt(h, nodes[2..], i - 1);
      assert NextLevel(h, nodes)[1..] == NextLevel(h, nodes[2..]);
    }
  }

  /** The root is the last node left, and the path takes the second node of each level. */
  lemma TreeLaw(h: NodeHash, nodes: seq<Node>)
    requires nodes != []
    ensures |nodes| == 1 ==> Root(h, nodes) == nodes[0] && Path(h, nodes) == []
    ensures |nodes| > 1 ==> Root(h, nodes) == Root(h, NextLevel(h, nodes))
    ensures |nodes| > 1 ==> Path(h, nodes) == [nodes[1]] + Path(h, NextLevel(h, nodes))
  {
  }

  /** The running hash comes first, the branch node second. */
  lemma FoldLaw(h: NodeHash, start: Node, branch: seq<Node>, x: Node)
    ensures Fold(h, start, []) == start
    ensures Fold(h, start, branch + [x]) == h(Fold(h, start, branch) + x)
  {
    assert (branch + [x])[..|branch|] == branch;
  }
}
