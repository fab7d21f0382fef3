/** The bucket of the older routing code (`src/router/bucket.rs`): a bounded list
    of nodes kept sorted, grown by `add` and drained from the front by `next`. */
module RouterBucket {
  import opened Wrappers
  import opened Bytes
  import opened Sorting
  import RouterAddress

  type U16 = n: int | 0 <= n < 0x1_0000

  /** A node of the older routing code (`src/router/node.rs`): where to reach it,
      its address and when it was last seen (an integer clock). */
  datatype Node = Node(ip: seq<char>, port: U16, address: RouterAddress.Address, last: int)

  /** Helpers the older bucket and table call whose bodies are not part of this
      model: `Node::refresh`, the order `sort` uses (the `Ord` of `Node` is
      commented out in `src/router/node.rs`), given as a key, and `Node::bucket`. */
  datatype NodeOps = NodeOps(refresh: Node -> Node, order: Node -> int, bucket: (Node, Node) -> nat)

  /** `Bucket::add` on the list: below the size the refreshed node is pushed and
      the list sorted; a full bucket drops the node. */
  function AddNode(nodes: seq<Node>, size: nat, node: Node, ops: NodeOps): (r: seq<Node>)
    ensures |nodes| < size ==>
      multiset(r) == multiset(nodes) + multiset{ops.refresh(node)} && SortedBy(r, ops.order)
    ensures |nodes| >= size ==> r == nodes
    ensures |nodes| <= size ==> |r| <= size
  {
    if |nodes| < size then
      SortByFacts(nodes + [ops.refresh(node)], ops.order);
      SortBy(nodes + [ops.refresh(node)], ops.order)
    else nodes
  }

  /** The list back to front (`Vec::reverse`). */
  function Reversed<T>(s: seq<T>): seq<T>
  {
    seq(|s|, i requires 0 <= i < |s| => s[|s| - 1 - i])
  }

  /** `reverse`, `pop`, `reverse` removes the first element. */
  lemma ReversedPop<T>(s: seq<T>)
    requires s != []
    ensures Reversed(s)[|s| - 1] == s[0]
    ensures Reversed(Reversed(s)[..|s| - 1]) == s[1..]
  {
  }

  /** `Bucket`. */
  class Bucket {
    var nodes: seq<Node>
    const size: nat
    const ops: NodeOps

    /** Never more than `size` nodes, always in order. */
    ghost predicate Valid()
      reads this
    {
      |nodes| <= size && SortedBy(nodes, ops.order)
    }

    /** `Bucket::new`. */
    constructor (size: nat, ops: NodeOps)
      ensures nodes == [] && this.size == size && this.ops == ops && Valid()
    {
      nodes := [];
      this.size := size;
      this.ops := ops;
    }

    /** `Bucket::add`. */
    method Add(node: Node)
      requires Valid()
      modifies this
      ensures Valid()
      ensures nodes == AddNode(old(nodes), size, node, ops)
    {
      AddNodeValid(nodes, size, node, ops);
      if |nodes| < size {
        var fresher := ops.refresh(node);
        nodes := nodes + [fresher];
        nodes := SortBy(nodes, ops.order);
      }
    }

    /** `Bucket::first`: a truncated copy. */
    function First(count: nat): (r: seq<Node>)
      reads this
      ensures |r| == Min(count, |nodes|) && r <= nodes
    {
      nodes[..Min(count, |nodes|)]
    }

    /** `Bucket::len`. */
    function Len(): (r: nat)
      reads this
      ensures r == |nodes|
    {
      |nodes|
    }

    /** `Bucket::all`: a copy, node by node. */
    method All() returns (r: seq<Node>)
      ensures r == nodes
    {
      r := [];
      for i := 0 to |nodes|
        invariant r == nodes[..i]
      {
        assert nodes[..i + 1] == nodes[..i] + [nodes[i]];
        r := r + [nodes[i]];
      }
      assert nodes[..|nodes|] == nodes;
    }

    /** `Iterator::next`: take the first node off the bucket. */
    method Next() returns (r: Option<Node>)
      requires Valid()
      modifies this
      ensures Valid()
      ensures old(nodes) == [] ==> r == None && nodes == []
      ensures old(nodes) != [] ==> r == Some(old(nodes)[0]) && nodes == old(nodes)[1..]
    {
      ghost var before := nodes;
      var reversed := Reversed(nodes);
      if reversed == [] {
        r := None;
      } else {
        ReversedPop(nodes);
        r := Some(reversed[|reversed| - 1]);
        reversed := reversed[..|reversed| - 1];
        nodes := Reversed(reversed);
        assert nodes == before[1..];
      }
    }
  }

  /** Adding to a bucket keeps it bounded and sorted; a node is added exactly when
      there was room. */
  lemma AddNodeValid(nodes: seq<Node>, size: nat, node: Node, ops: NodeOps)
    requires |nodes| <= size && SortedBy(nodes, ops.order)
    ensures var r := AddNode(nodes, size, node, ops);
      |r| <= size && SortedBy(r, ops.order) &&
      (ops.refresh(node) in r <== |nodes| < size) &&
      (|r| == |nodes| + 1 <==> |nodes| < size)
  {
    var r := AddNode(nodes, size, node, ops);
    if |nodes| < size {
      assert ops.refresh(node) in multiset(r);
      assert |r| == |multiset(r)| == |nodes| + 1;
    }
  }
}
