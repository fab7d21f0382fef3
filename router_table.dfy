/** The flat routing table of the older routing code (`src/router/table.rs`): one
    bucket per first distance byte, and the lookups that pick the nodes closest to
    a target. */
module RouterTable {
  import opened Wrappers
  import opened Bytes
  import opened Sorting
  import opened RouterBucket
  import RouterAddress

  /** `Table::new` makes buckets for the indices `0..255`, which leaves 255 out. */
  const Buckets: nat := 255

  /** The order of `Table::sort`: by the distance of the address from the target's
      address, as a number. */
  function Closeness(target: Node): Node -> int
  {
    (n: Node) => RouterAddress.DistanceKey(n.address, target.address)
  }

  /** `Table::sort`: the nodes ordered by their distance from `node`, stably. */
  function SortNodes(all: seq<Node>, node: Node): (r: seq<Node>)
    ensures multiset(r) == multiset(all)
    ensures forall i, j :: 0 <= i < j < |r| ==>
      RouterAddress.Cmp(r[i].address, r[j].address, node.address) != Greater
  {
    SortByFacts(all, Closeness(node));
    var r := SortBy(all, Closeness(node));
    assert forall i, j :: 0 <= i < j < |r| ==>
      RouterAddress.Cmp(r[i].address, r[j].address, node.address) != Greater by {
      forall i, j | 0 <= i < j < |r|
        ensures RouterAddress.Cmp(r[i].address, r[j].address, node.address) != Greater
      {
        RouterAddress.CmpFacts(r[i].address, r[j].address, node.address);
        assert Closeness(node)(r[i]) <= Closeness(node)(r[j]);
      }
    }
    r
  }

  /** The buckets `0..k` one after the other (`Table::join`, in ascending index
      order). */
  function Joined(m: map<nat, seq<Node>>, k: nat): seq<Node>
  {
    if k == 0 then [] else Joined(m, k - 1) + (if k - 1 in m then m[k - 1] else [])
  }

  /** The nodes of the buckets `0..k`, counted with their multiplicity. */
  function BucketsMultiset(m: map<nat, seq<Node>>, k: nat): multiset<Node>
  {
    if k == 0 then multiset{}
    else BucketsMultiset(m, k - 1) + (if k - 1 in m then multiset(m[k - 1]) else multiset{})
  }

  /** The multiset of `join` is the sum of the buckets' multisets. */
  lemma {:induction false} JoinedMultiset(m: map<nat, seq<Node>>, k: nat)
    ensures multiset(Joined(m, k)) == BucketsMultiset(m, k)
  {
    if k > 0 {
      JoinedMultiset(m, k - 1);
      var last := if k - 1 in m then m[k - 1] else [];
      assert multiset(Joined(m, k)) == multiset(Joined(m, k - 1)) + multiset(last);
    }
  }

  /** `join` holds every node of every bucket below `k`, each bucket's nodes at
      least as often as that bucket does, and nothing else; `JoinedMultiset`
      gives the exact count. */
  lemma {:induction false} JoinedFacts(m: map<nat, seq<Node>>, k: nat)
    ensures forall x :: x in Joined(m, k) <==> exists i :: 0 <= i < k && i in m && x in m[i]
    ensures forall i :: 0 <= i < k && i in m ==> multiset(m[i]) <= multiset(Joined(m, k))
  {
    if k > 0 {
      JoinedFacts(m, k - 1);
      var last := if k - 1 in m then m[k - 1] else [];
      assert Joined(m, k) == Joined(m, k - 1) + last;
      assert multiset(Joined(m, k)) == multiset(Joined(m, k - 1)) + multiset(last);
      forall x ensures x in Joined(m, k) <==> exists i :: 0 <= i < k && i in m && x in m[i] {
        if x in Joined(m, k - 1) {
          var i :| 0 <= i < k - 1 && i in m && x in m[i];
        }
      }
    }
  }

  /** `Table::get_all`: every known node, closest first, cut to `count`. */
  function GetAllSpec(m: map<nat, seq<Node>>, node: Node, count: nat): seq<Node>
  {
    var s := SortNodes(Joined(m, Buckets), node);
    s[..Min(count, |s|)]
  }

  /** `get_all` returns at most `count` known nodes, closest to the target first. */
  lemma GetAllFacts(m: map<nat, seq<Node>>, node: Node, count: nat)
    ensures var r := GetAllSpec(m, node, count);
      |r| <= count &&
      (forall x :: x in r ==> exists i :: 0 <= i < Buckets && i in m && x in m[i]) &&
      (forall i, j :: 0 <= i < j < |r| ==> RouterAddress.Cmp(r[i].address, r[j].address, node.address) != Greater)
  {
    var all := Joined(m, Buckets);
    var s := SortNodes(all, node);
    JoinedFacts(m, Buckets);
    forall x | x in s[..Min(count, |s|)] ensures exists i :: 0 <= i < Buckets && i in m && x in m[i] {
      assert x in multiset(s);
      assert x in all;
    }
  }

  /** `Table`. */
  class Table {
    var nodes: map<nat, Bucket>
    const center: Node
    const size: nat
    const ops: NodeOps

    /** One bucket of the table's size for each index below 255, each its own
        object. */
    ghost predicate Valid()
      reads this, nodes.Values
    {
      (forall i: nat :: i in nodes <==> i < Buckets) &&
      (forall i :: i in nodes ==> nodes[i].Valid() && nodes[i].size == size && nodes[i].ops == ops) &&
      (forall i, j :: i in nodes && j in nodes && i != j ==> nodes[i] != nodes[j])
    }

    /** The nodes of each bucket. */
    ghost function Contents(): map<nat, seq<Node>>
      reads this, nodes.Values
    {
      map i | i in nodes :: nodes[i].nodes
    }

    /** `Table::new`: 255 empty buckets. */
    constructor (center: Node, size: nat, ops: NodeOps)
      ensures Valid() && this.center == center && this.size == size && this.ops == ops
      ensures forall i :: i in nodes ==> nodes[i].nodes == []
    {
      this.center := center;
      this.size := size;
      this.ops := ops;
      var m: map<nat, Bucket> := map[];
      for n := 0 to Buckets
        invariant forall i: nat :: i in m <==> i < n
        invariant forall i :: i in m ==> fresh(m[i]) && m[i].nodes == [] && m[i].size == size && m[i].ops == ops
        invariant forall i, j :: i in m && j in m && i != j ==> m[i] != m[j]
      {
        var b := new Bucket(size, ops);
        m := m[n := b];
      }
      nodes := m;
    }

    /** `Table::add`: into the bucket of the node's index; an index of 255 or more
        has no bucket and the `unwrap` panics. */
    method Add(node: Node) returns (r: Outcome)
      requires Valid()
      modifies nodes.Values
      ensures Valid()
      ensures ops.bucket(node, center) >= Buckets ==> r == Fail(Panicked) && Contents() == old(Contents())
      ensures ops.bucket(node, center) < Buckets ==> (r == Pass &&
        Contents() == old(Contents())[ops.bucket(node, center) := AddNode(old(Contents())[ops.bucket(node, center)], size, node, ops)])
    {
      var index := ops.bucket(node, center);
      if index !in nodes {
        return Fail(Panicked);
      }
      var bucket := nodes[index];
      bucket.Add(node);
      assert forall i :: i in nodes && i != index ==> nodes[i] != bucket;
      return Pass;
    }

    /** `Table::join`: the nodes of every bucket. */
    method Join() returns (r: seq<Node>)
      requires Valid()
      ensures r == Joined(Contents(), Buckets)
    {
      r := [];
      for k := 0 to Buckets
        invariant r == Joined(Contents(), k)
      {
        var all := nodes[k].All();
        r := r + all;
      }
    }

    /** `Table::get_all`. */
    method GetAll(node: Node, count: nat) returns (r: seq<Node>)
      requires Valid()
      ensures r == GetAllSpec(Contents(), node, count)
    {
      var all := Join();
      var sorted := SortNodes(all, node);
      r := sorted[..Min(count, |sorted|)];
    }

    /** `Table::get`: the first `count` nodes of the target's own bucket when it
        holds that many, otherwise the closest known nodes; a target index without
        a bucket panics. */
    method Get(node: Node, count: nat) returns (r: Result<seq<Node>>)
      requires Valid()
      ensures ops.bucket(node, center) >= Buckets ==> r == Err(Panicked)
      ensures ops.bucket(node, center) < Buckets ==>
        var own := Contents()[ops.bucket(node, center)];
        r == Ok(if |own| >= count then own[..count] else GetAllSpec(Contents(), node, count))
    {
      var index := ops.bucket(node, center);
      if index !in nodes {
        return Err(Panicked);
      }
      var bucket := nodes[index];
      if bucket.Len() >= count {
        return Ok(bucket.First(count));
      }
      var all := GetAll(node, count);
      return Ok(all);
    }
  }

  /** `get` never returns more than `count` nodes, and they are all known. */
  lemma GetFacts(m: map<nat, seq<Node>>, index: nat, node: Node, count: nat)
    requires index in m && index < Buckets
    ensures var own := m[index];
      var r := if |own| >= count then own[..count] else GetAllSpec(m, node, count);
      |r| <= count && forall x :: x in r ==> exists i :: 0 <= i < Buckets && i in m && x in m[i]
  {
    GetAllFacts(m, node, count);
    var own := m[index];
    if |own| >= count {
      forall x | x in own[..count] ensures exists i :: 0 <= i < Buckets && i in m && x in m[i] {
        assert x in m[index];
      }
    }
  }
}
