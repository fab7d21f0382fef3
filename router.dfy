/** The binary tree of k-buckets (`src/router.rs`). Every element covers a range of
    bucket indices (byte 0 of the XOR with the centre); a leaf holds the nodes of a
    k-bucket, a split holds a near and a far child. The tree is owned through boxes
    and changed through `&mut` recursion; here every operation returns the new
    tree. */
module Router {
  import opened Wrappers
  import opened Bytes
  import opened Nodes
  import opened Sorting
  import opened Buckets

  /** The range of bucket indices an element is responsible for. */
  datatype Property = Property(lower: Byte, upper: Byte)

  /** `Property::in_range`: strictly between the bounds. */
  predicate InRange(p: Property, node: Node, center: Center)
  {
    p.lower < BucketIndex(node.address, center) < p.upper
  }

  /** `Property::split`: `[l, u]` becomes `[l, u / 2]` and `[u / 2 + 1, u]`. */
  function SplitProperty(p: Property): (r: (Property, Property))
    ensures r.0 == Property(p.lower, p.upper / 2)
    ensures r.1 == Property(p.upper / 2 + 1, p.upper)
  {
    (Property(p.lower, p.upper / 2), Property(p.upper / 2 + 1, p.upper))
  }

  /** `Property::is_near`. */
  predicate IsNear(p: Property)
  {
    p.lower == 0
  }

  /** The lower half of a split is near exactly when the parent is, the upper half
      never is, and the root range `[0, 255]` splits into `[0, 127]` and
      `[128, 255]`. */
  lemma SplitPropertyNear(p: Property)
    ensures IsNear(SplitProperty(p).0) <==> IsNear(p)
    ensures !IsNear(SplitProperty(p).1)
    ensures SplitProperty(Property(0, 255)) == (Property(0, 127), Property(128, 255))
    ensures SplitProperty(Property(0, 63)) == (Property(0, 31), Property(32, 63))
  {
  }

  /** The range is strict: the bounds themselves are never in range, so the root
      range `[0, 255]` excludes bucket 0, where the centre itself falls. */
  lemma InRangeBounds(p: Property, node: Node, center: Center)
    ensures InRange(p, node, center) ==> p.lower + 1 < p.upper
    ensures BucketIndex(node.address, center) == p.lower ==> !InRange(p, node, center)
    ensures BucketIndex(node.address, center) == p.upper ==> !InRange(p, node, center)
    ensures !InRange(Property(0, 255), Node(node.timestamp, center.public, node.link), center)
  {
    BucketIndexCenter(center);
  }

  /** The two halves of a near range are disjoint and lie inside it; the indices
      `u / 2` and `u / 2 + 1` belong to neither. */
  lemma SplitRanges(p: Property, node: Node, center: Center)
    requires IsNear(p)
    ensures var (lo, hi) := SplitProperty(p);
      !(InRange(lo, node, center) && InRange(hi, node, center)) &&
      (InRange(lo, node, center) ==> InRange(p, node, center)) &&
      (InRange(hi, node, center) ==> InRange(p, node, center)) &&
      (BucketIndex(node.address, center) == p.upper / 2 ==> !InRange(lo, node, center) && !InRange(hi, node, center)) &&
      (BucketIndex(node.address, center) == p.upper / 2 + 1 ==> !InRange(lo, node, center) && !InRange(hi, node, center))
  {
  }

  // ---------------------------------------------------------------
  // Elements
  // ---------------------------------------------------------------

  /** `Element`: a split with its two children, or a leaf holding the nodes of a
      bucket and the bucket's limit. */
  datatype Element =
    | Split(near: Element, far: Element, prop: Property)
    | Leaf(nodes: seq<Node>, limit: nat, prop: Property)

  /** `Element::in_range`. */
  predicate ElementInRange(e: Element, node: Node, center: Center)
  {
    InRange(e.prop, node, center)
  }

  /** `Element::len` and `Split::len`. */
  function Len(e: Element): nat
  {
    match e
    case Leaf(nodes, _, _) => |nodes|
    case Split(near, far, _) => Len(far) + Len(near)
  }

  /** `Element::try_add` and `Split::try_add`: a node outside the element's range is
      `Invalid`; a split hands the node to the near child when it is in the near
      child's range and to the far child otherwise; a leaf uses `Bucket::try_add`. */
  function TryAdd(e: Element, node: Node, center: Center): (r: (Element, Outcome))
    ensures r.1.Fail? ==> r.0 == e
  {
    match e
    case Leaf(nodes, limit, p) =>
      if !InRange(p, node, center) then (e, Fail(Invalid))
      else
        var (s, o) := TryAddNodes(nodes, limit, node);
        (Leaf(s, limit, p), o)
    case Split(near, far, p) =>
      if !InRange(p, node, center) then (e, Fail(Invalid))
      else if ElementInRange(near, node, center) then
        var (n, o) := TryAdd(near, node, center);
        (Split(n, far, p), o)
      else
        var (f, o) := TryAdd(far, node, center);
        (Split(near, f, p), o)
  }

  /** `Element::add` and `Split::add`: no range check at the top; a split hands the
      node to the near child when it is in the near child's range and to the far
      child otherwise; a leaf uses `Bucket::add`. */
  function Add(e: Element, node: Node, center: Center): Element
  {
    match e
    case Leaf(nodes, limit, p) => Leaf(AddNodes(nodes, limit, node), limit, p)
    case Split(near, far, p) =>
      if ElementInRange(near, node, center) then Split(Add(near, node, center), far, p)
      else Split(near, Add(far, node, center), p)
  }

  /** `Element::split`: only a near leaf splits; it becomes a split with the same
      range whose children are the two halves of its bucket, with the halves of its
      range. */
  function SplitElement(e: Element, center: Center): Option<Element>
  {
    match e
    case Split(_, _, _) => None
    case Leaf(nodes, limit, p) =>
      if p.lower != 0 then None
      else
        var (near, far) := SplitNodes(nodes, limit, center, p.upper);
        var (nearP, farP) := SplitProperty(p);
        Some(Split(Leaf(near, limit, nearP), Leaf(far, limit, farP), p))
  }

  /** The nodes held by the tree, near children first. */
  function Members(e: Element): seq<Node>
  {
    match e
    case Leaf(nodes, _, _) => nodes
    case Split(near, far, _) => Members(near) + Members(far)
  }

  /** Every leaf is within its limit and holds no address twice. */
  predicate ValidTree(e: Element)
  {
    match e
    case Leaf(nodes, limit, _) => |nodes| <= limit && Deduped(nodes)
    case Split(near, far, _) => ValidTree(near) && ValidTree(far)
  }

  // ---------------------------------------------------------------
  // Properties of the tree
  // ---------------------------------------------------------------

  /** The length of a tree is the number of nodes it holds. */
  lemma {:induction false} LenMembers(e: Element)
    ensures Len(e) == |Members(e)|
  {
    match e
    case Leaf(_, _, _) =>
    case Split(near, far, _) =>
      LenMembers(near);
      LenMembers(far);
  }

  /** Only a leaf whose range starts at 0 splits. */
  lemma SplitElementNone(e: Element, center: Center)
    ensures SplitElement(e, center).None? <==> e.Split? || e.prop.lower != 0
  {
  }

  /** A split leaf keeps its range; its children are leaves with the halves of the
      range and the parent's limit, their nodes lie on their side of `upper / 2`,
      and when the leaf was valid the children are valid and their lengths add up
      to the leaf's. */
  lemma SplitElementSome(e: Element, center: Center)
    requires e.Leaf? && e.prop.lower == 0
    ensures var r := SplitElement(e, center).value;
      r.Split? && r.prop == e.prop && r.near.Leaf? && r.far.Leaf? &&
      r.near.prop == SplitProperty(e.prop).0 && r.far.prop == SplitProperty(e.prop).1 &&
      r.near.limit == e.limit && r.far.limit == e.limit &&
      OnSide(r.near.nodes, e.nodes, center, e.prop.upper, true) &&
      OnSide(r.far.nodes, e.nodes, center, e.prop.upper, false)
    ensures ValidTree(e) ==> (ValidTree(SplitElement(e, center).value) &&
                              Len(SplitElement(e, center).value) == Len(e))
  {
    SplitSides(e.nodes, e.limit, center, e.prop.upper);
    if ValidTree(e) {
      SplitKeys(e.nodes, e.limit, center, e.prop.upper);
      SplitLength(e.nodes, e.limit, center, e.prop.upper);
    }
  }

  /** A node outside the element's range is refused and leaves the tree as it was. */
  lemma TryAddOutOfRange(e: Element, node: Node, center: Center)
    requires !ElementInRange(e, node, center)
    ensures TryAdd(e, node, center) == (e, Fail(Invalid))
  {
  }

  /** `try_add` keeps every leaf valid, and a node it accepts is held by the tree
      afterwards. */
  lemma {:induction false} TryAddValid(e: Element, node: Node, center: Center)
    requires ValidTree(e)
    ensures ValidTree(TryAdd(e, node, center).0)
    ensures TryAdd(e, node, center).1 == Pass ==> node.address in Addresses(TryAdd(e, node, center).0)
  {
    match e
    case Leaf(nodes, limit, p) =>
      if InRange(p, node, center) {
        TryAddBound(nodes, limit, node);
        if |nodes| != limit {
          TryAddRoom(nodes, limit, node);
          var s := TryAddNodes(nodes, limit, node).0;
          var i :| 0 <= i < |s| && s[i].address == node.address;
          assert Members(TryAdd(e, node, center).0) == s;
        }
      }
    case Split(near, far, p) =>
      if InRange(p, node, center) {
        if ElementInRange(near, node, center) {
          TryAddValid(near, node, center);
          AddressesSplit(TryAdd(near, node, center).0, far, p);
        } else {
          TryAddValid(far, node, center);
          AddressesSplit(near, TryAdd(far, node, center).0, p);
        }
      }
  }

  /** The addresses of the nodes a tree holds. */
  function Addresses(e: Element): set<Address>
  {
    set i | 0 <= i < |Members(e)| :: Members(e)[i].address
  }

  lemma AddressesSplit(near: Element, far: Element, p: Property)
    ensures Addresses(Split(near, far, p)) == Addresses(near) + Addresses(far)
  {
    var m := Members(Split(near, far, p));
    assert m == Members(near) + Members(far);
    forall a | a in Addresses(near) ensures a in Addresses(Split(near, far, p)) {
      var i :| 0 <= i < |Members(near)| && Members(near)[i].address == a;
      assert m[i] == Members(near)[i];
    }
    forall a | a in Addresses(far) ensures a in Addresses(Split(near, far, p)) {
      var i :| 0 <= i < |Members(far)| && Members(far)[i].address == a;
      assert m[|Members(near)| + i] == Members(far)[i];
    }
  }

  /** `add` on a split changes only the child it routes to: the near child when the
      node is in the near child's range, the far child otherwise. */
  lemma AddRoutes(e: Element, node: Node, center: Center)
    requires e.Split?
    ensures var r := Add(e, node, center);
      r.Split? && r.prop == e.prop &&
      (ElementInRange(e.near, node, center) ==> r.near == Add(e.near, node, center) && r.far == e.far) &&
      (!ElementInRange(e.near, node, center) ==> r.far == Add(e.far, node, center) && r.near == e.near)
  {
  }

  /** `add` keeps every leaf valid and grows the tree by at most one node. */
  lemma {:induction false} AddValid(e: Element, node: Node, center: Center)
    requires ValidTree(e)
    ensures ValidTree(Add(e, node, center))
    ensures Len(Add(e, node, center)) <= Len(e) + 1
  {
    match e
    case Leaf(nodes, limit, p) =>
      AddBound(nodes, limit, node);
      AddLength(nodes, limit, node);
    case Split(near, far, p) =>
      if ElementInRange(near, node, center) {
        AddValid(near, node, center);
      } else {
        AddValid(far, node, center);
      }
  }

  /** `Bucket::add` grows a bucket by at most one node. */
  lemma AddLength(s: seq<Node>, limit: nat, node: Node)
    ensures |AddNodes(s, limit, node)| <= |s| + 1
  {
    if |s| < limit {
      SortByFacts(s + [node], ByTime);
      DedupNodesFacts(SortByTime(s + [node]));
    } else if s != [] {
      var u := if !IsReachable(s[0]) then [node] + s[1..] else s;
      SortByFacts(u, ByTime);
      DedupNodesFacts(SortByTime(u));
    }
  }
}
