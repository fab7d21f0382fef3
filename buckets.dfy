/** The k-bucket of the routing tree (`src/bucket.rs`): at most `limit` nodes, kept
    free of duplicate addresses. The functions on node sequences say what each
    operation does to the contents; the class `Bucket` performs the operations in
    place and the router tree reuses the functions on its leaves. */
module Buckets {
  import opened Wrappers
  import opened Bytes
  import opened Nodes
  import opened Sorting

  // ---------------------------------------------------------------
  // The operations on the contents
  // ---------------------------------------------------------------

  /** `Bucket::sort`: by age, the oldest first. */
  function SortByTime(s: seq<Node>): seq<Node>
  {
    SortBy(s, ByTime)
  }

  /** `Bucket::dedup`: sort by address, then drop every node whose address equals
      the one kept before it. */
  function DedupNodes(s: seq<Node>): seq<Node>
  {
    DedupBy(SortBy(s, ByAddress), ByAddress)
  }

  predicate HasAddress(s: seq<Node>, a: Address)
  {
    exists i :: 0 <= i < |s| && s[i].address == a
  }

  /** No two nodes share an address and the nodes are ordered by address: the
      state every `add`, `try_add` and `dedup` leaves behind. */
  predicate Deduped(s: seq<Node>)
  {
    StrictlySortedBy(s, ByAddress)
  }

  /** `Bucket::try_add`: a full bucket (`len == limit`) is refused and unchanged;
      otherwise the node is pushed and the bucket deduplicated. */
  function TryAddNodes(s: seq<Node>, limit: nat, node: Node): (seq<Node>, Outcome)
  {
    if |s| == limit then (s, Fail(Full)) else (DedupNodes(s + [node]), Pass)
  }

  /** `Bucket::add`: below the limit the node is pushed; at the limit it replaces
      the first node, and only if that one is unreachable. Either way the bucket is
      sorted by age and deduplicated; an empty full bucket (limit 0) is left alone.
      Since deduplication sorts by address last, the first node of a valid bucket is
      the one with the smallest address, not the oldest (`FirstIsSmallestAddress`,
      `FullAddDropsNewer`). */
  function AddNodes(s: seq<Node>, limit: nat, node: Node): seq<Node>
  {
    if |s| < limit then DedupNodes(SortByTime(s + [node]))
    else if s == [] then s
    else if !IsReachable(s[0]) then DedupNodes(SortByTime([node] + s[1..]))
    else DedupNodes(SortByTime(s))
  }

  /** `Bucket::find`: the first node with the address. */
  function FindNode(s: seq<Node>, a: Address): (r: Option<Node>)
    ensures r.Some? <==> HasAddress(s, a)
    ensures r.Some? ==> r.value.address == a && r.value in s
  {
    match FirstIndex(s, (n: Node) => n.address == a)
    case Some(i) => Some(s[i])
    case None => None
  }

  /** `Bucket::remove`: the first node with the address is removed; an unknown
      address is `Unknown` and changes nothing. */
  function RemoveNode(s: seq<Node>, a: Address): (r: (seq<Node>, Outcome))
    ensures r.1 == Pass <==> HasAddress(s, a)
    ensures r.1 != Pass ==> r.1 == Fail(Unknown) && r.0 == s
    ensures r.1 == Pass ==> exists i :: 0 <= i < |s| && s[i].address == a && r.0 == RemoveAt(s, i)
  {
    match FirstIndex(s, (n: Node) => n.address == a)
    case Some(i) => (RemoveAt(s, i), Pass)
    case None => (s, Fail(Unknown))
  }

  /** `Bucket::get`: the `count` oldest nodes. */
  function GetNodes(s: seq<Node>, count: nat): seq<Node>
  {
    var t := SortByTime(s);
    SortByFacts(s, ByTime);
    if count < |t| then t[..count] else t
  }

  /** Which half of a split a node goes to: `(address ^ centre)[0] < ul / 2`. */
  predicate GoesNear(n: Node, center: Center, ul: nat)
  {
    XorOf(n.address, center.public)[0] < ul / 2
  }

  /** `Bucket::split`: the nodes, in order, added to the near or the far half. */
  function SplitNodes(s: seq<Node>, limit: nat, center: Center, ul: nat): (seq<Node>, seq<Node>)
  {
    if s == [] then ([], [])
    else
      var halves := SplitNodes(s[..|s| - 1], limit, center, ul);
      var x := s[|s| - 1];
      if GoesNear(x, center, ul) then (AddNodes(halves.0, limit, x), halves.1)
      else (halves.0, AddNodes(halves.1, limit, x))
  }

  /** The split of a longer prefix places one more node. */
  lemma SplitNodesSnoc(s: seq<Node>, i: nat, limit: nat, center: Center, ul: nat)
    requires i < |s|
    ensures var halves := SplitNodes(s[..i], limit, center, ul);
      SplitNodes(s[..i + 1], limit, center, ul) ==
        if GoesNear(s[i], center, ul) then (AddNodes(halves.0, limit, s[i]), halves.1)
        else (halves.0, AddNodes(halves.1, limit, s[i]))
  {
    assert s[..i + 1][..i] == s[..i];
  }

  // ---------------------------------------------------------------
  // Properties of the contents
  // ---------------------------------------------------------------

  lemma {:induction false} StrictKeysCount<T>(s: seq<T>, key: T -> int)
    requires StrictlySortedBy(s, key)
    ensures |Keys(s, key)| == |s|
  {
    if s != [] {
      StrictKeysCount(s[1..], key);
      assert Keys(s, key) == {key(s[0])} + Keys(s[1..], key) by {
        forall k | k in Keys(s, key) ensures k in {key(s[0])} + Keys(s[1..], key) {
          var i :| 0 <= i < |s| && key(s[i]) == k;
          if i > 0 { assert s[1..][i - 1] == s[i]; }
        }
        forall k | k in Keys(s[1..], key) ensures k in Keys(s, key) {
          var i :| 0 <= i < |s[1..]| && key(s[1..][i]) == k;
          assert s[i + 1] == s[1..][i];
        }
        assert key(s[0]) in Keys(s, key);
      }
      assert key(s[0]) !in Keys(s[1..], key) by {
        forall i | 0 <= i < |s[1..]| ensures key(s[1..][i]) != key(s[0]) {
          assert s[1..][i] == s[i + 1];
        }
      }
    }
  }

  /** Without a repeated address the sequence is strictly ordered by address. */
  lemma DedupedUnique(s: seq<Node>)
    requires Deduped(s)
    ensures forall i, j :: 0 <= i < j < |s| ==> s[i].address != s[j].address
  {
  }

  lemma KeysAppend<T>(s: seq<T>, x: T, key: T -> int)
    ensures Keys(s + [x], key) == Keys(s, key) + {key(x)}
  {
    var t := s + [x];
    forall k | k in Keys(t, key) ensures k in Keys(s, key) + {key(x)} {
      var i :| 0 <= i < |t| && key(t[i]) == k;
      if i < |s| { assert t[i] == s[i]; }
    }
    forall k | k in Keys(s, key) ensures k in Keys(t, key) {
      var i :| 0 <= i < |s| && key(s[i]) == k;
      assert t[i] == s[i];
    }
    assert t[|s|] == x;
  }

  lemma KeysCons<T>(x: T, s: seq<T>, key: T -> int)
    ensures Keys([x] + s, key) == {key(x)} + Keys(s, key)
  {
    var t := [x] + s;
    forall k | k in Keys(t, key) ensures k in {key(x)} + Keys(s, key) {
      var i :| 0 <= i < |t| && key(t[i]) == k;
      if i > 0 { assert t[i] == s[i - 1]; }
    }
    forall k | k in Keys(s, key) ensures k in Keys(t, key) {
      var i :| 0 <= i < |s| && key(s[i]) == k;
      assert t[i + 1] == s[i];
    }
    assert t[0] == x;
  }

  /** Dedup leaves the nodes ordered by address with no address twice; it keeps
      every address and invents no node. */
  lemma DedupNodesFacts(s: seq<Node>)
    ensures Deduped(DedupNodes(s))
    ensures Keys(DedupNodes(s), ByAddress) == Keys(s, ByAddress)
    ensures |DedupNodes(s)| == |Keys(s, ByAddress)| <= |s|
    ensures forall i :: 0 <= i < |DedupNodes(s)| ==> DedupNodes(s)[i] in multiset(s)
  {
    var t := SortBy(s, ByAddress);
    SortByFacts(s, ByAddress);
    DedupBySorted(t, ByAddress);
    DedupByFacts(t, ByAddress);
    PermutationKeys(t, s, ByAddress);
    StrictKeysCount(DedupNodes(s), ByAddress);
    var d := DedupNodes(s);
    forall i | 0 <= i < |d| ensures d[i] in multiset(s) {
      assert d[i] in t;
      assert d[i] in multiset(t);
    }
    assert |Keys(s, ByAddress)| <= |s| by {
      StrictKeysCount(d, ByAddress);
      DedupByFacts(t, ByAddress);
    }
  }

  /** A bucket that is already deduplicated is left as it is by dedup. */
  lemma DedupNodesIdentity(s: seq<Node>)
    requires Deduped(s)
    ensures DedupNodes(s) == s
  {
    SortedIdentity(s, ByAddress);
    DedupByStrict(s, ByAddress);
  }

  lemma {:induction false} SortedIdentity<T>(s: seq<T>, key: T -> int)
    requires StrictlySortedBy(s, key)
    ensures SortBy(s, key) == s
  {
    if s != [] {
      SortedIdentity(s[1..], key);
      assert s == [s[0]] + s[1..];
    }
  }

  /** A full bucket is refused and left unchanged. */
  lemma TryAddFull(s: seq<Node>, limit: nat, node: Node)
    requires |s| == limit
    ensures TryAddNodes(s, limit, node) == (s, Fail(Full))
  {
  }

  /** Otherwise the node's address is present afterwards, no address is duplicated,
      and every other address is kept. */
  lemma TryAddRoom(s: seq<Node>, limit: nat, node: Node)
    requires |s| != limit
    ensures var (r, o) := TryAddNodes(s, limit, node);
      o == Pass && Deduped(r) && HasAddress(r, node.address) &&
      Keys(r, ByAddress) == Keys(s, ByAddress) + {ByAddress(node)}
  {
    var r := DedupNodes(s + [node]);
    DedupNodesFacts(s + [node]);
    KeysAppend(s, node, ByAddress);
    assert ByAddress(node) in Keys(r, ByAddress);
    var i :| 0 <= i < |r| && ByAddress(r[i]) == ByAddress(node);
    AddressKeyOrder(r[i].address, node.address);
  }

  /** A bucket within its limit stays within it after `try_add`. */
  lemma TryAddBound(s: seq<Node>, limit: nat, node: Node)
    requires |s| <= limit
    ensures |TryAddNodes(s, limit, node).0| <= limit
  {
    DedupNodesFacts(s + [node]);
  }

  /** `add` never takes a bucket past its limit. */
  lemma AddBound(s: seq<Node>, limit: nat, node: Node)
    requires |s| <= limit
    ensures |AddNodes(s, limit, node)| <= limit
    ensures Deduped(AddNodes(s, limit, node)) || AddNodes(s, limit, node) == s
  {
    if |s| < limit {
      SortByFacts(s + [node], ByTime);
      DedupNodesFacts(SortByTime(s + [node]));
    } else if s != [] {
      var t := if !IsReachable(s[0]) then [node] + s[1..] else s;
      SortByFacts(t, ByTime);
      DedupNodesFacts(SortByTime(t));
    }
  }

  /** Below the limit, `add` leaves the node's address present next to all the
      others. */
  lemma AddRoom(s: seq<Node>, limit: nat, node: Node)
    requires |s| < limit
    ensures Keys(AddNodes(s, limit, node), ByAddress) == Keys(s, ByAddress) + {ByAddress(node)}
  {
    var t := SortByTime(s + [node]);
    SortByFacts(s + [node], ByTime);
    PermutationKeys(t, s + [node], ByAddress);
    KeysAppend(s, node, ByAddress);
    DedupNodesFacts(t);
  }

  /** At the limit, a reachable first node keeps its place: the set of addresses
      is unchanged and the new node is not added. */
  lemma AddFullReachable(s: seq<Node>, limit: nat, node: Node)
    requires |s| >= limit && s != [] && IsReachable(s[0])
    ensures Keys(AddNodes(s, limit, node), ByAddress) == Keys(s, ByAddress)
  {
    var t := SortByTime(s);
    SortByFacts(s, ByTime);
    PermutationKeys(t, s, ByAddress);
    DedupNodesFacts(t);
  }

  /** At the limit, an unreachable first node is replaced by the new one. */
  lemma AddFullUnreachable(s: seq<Node>, limit: nat, node: Node)
    requires |s| >= limit && s != [] && !IsReachable(s[0])
    ensures Keys(AddNodes(s, limit, node), ByAddress) == {ByAddress(node)} + Keys(s[1..], ByAddress)
  {
    var u := [node] + s[1..];
    var t := SortByTime(u);
    SortByFacts(u, ByTime);
    PermutationKeys(t, u, ByAddress);
    KeysCons(node, s[1..], ByAddress);
    DedupNodesFacts(t);
  }

  /** The first node of a deduplicated bucket, the one `add` may replace, has the
      smallest address; its age plays no part. */
  lemma FirstIsSmallestAddress(s: seq<Node>)
    requires Deduped(s) && s != []
    ensures forall i :: 0 < i < |s| ==> ByAddress(s[0]) < ByAddress(s[i])
  {
  }

  /** So a full bucket of two can lose its newer node and keep the older one: with
      `young` (time 5) at the smaller address and `elder` (time 1) at the larger,
      `add` replaces `young`, although it is not the oldest node the comment on
      `Bucket::add` speaks of. */
  lemma FullAddDropsNewer(a: Address, b: Address, node: Node)
    requires AddressKey(a) < AddressKey(b)
    ensures var young := Node(5, a, None);
      var elder := Node(1, b, None);
      Deduped([young, elder]) && ByTime(elder) < ByTime(young) &&
      Keys(AddNodes([young, elder], 2, node), ByAddress) == {ByAddress(node), ByAddress(elder)}
  {
    var young := Node(5, a, None);
    var elder := Node(1, b, None);
    var s := [young, elder];
    AddFullUnreachable(s, 2, node);
    assert s[1..] == [elder];
    assert Keys([elder], ByAddress) == {ByAddress(elder)} by {
      KeysCons(elder, [], ByAddress);
    }
  }

  /** Every node `add` leaves behind was in the bucket or is the new node. */
  lemma AddFrom(s: seq<Node>, limit: nat, node: Node)
    ensures forall i :: 0 <= i < |AddNodes(s, limit, node)| ==>
      AddNodes(s, limit, node)[i] in s + [node]
  {
    var r := AddNodes(s, limit, node);
    if |s| < limit {
      SortedDedupFrom(s + [node]);
    } else if s != [] {
      var u := if !IsReachable(s[0]) then [node] + s[1..] else s;
      SortedDedupFrom(u);
      forall i | 0 <= i < |r| ensures r[i] in s + [node] {
        var j :| 0 <= j < |u| && u[j] == r[i];
        if j > 0 || IsReachable(s[0]) { assert u[j] == s[j]; }
      }
    }
  }

  /** Sorting by time and deduplicating keeps only nodes of the input. */
  lemma SortedDedupFrom(u: seq<Node>)
    ensures forall i :: 0 <= i < |DedupNodes(SortByTime(u))| ==> DedupNodes(SortByTime(u))[i] in u
  {
    var t := SortByTime(u);
    SortByFacts(u, ByTime);
    DedupNodesFacts(t);
    forall i | 0 <= i < |DedupNodes(t)| ensures DedupNodes(t)[i] in u {
      assert DedupNodes(t)[i] in multiset(u);
    }
  }

  /** `get(count)` returns at most `count` nodes, all from the bucket, the oldest
      first. */
  lemma GetNodesFacts(s: seq<Node>, count: nat)
    ensures |GetNodes(s, count)| <= count && |GetNodes(s, count)| <= |s|
    ensures multiset(GetNodes(s, count)) <= multiset(s)
    ensures SortedBy(GetNodes(s, count), ByTime)
  {
    var t := SortByTime(s);
    SortByFacts(s, ByTime);
    if count < |t| {
      assert t == t[..count] + t[count..];
      assert multiset(t) == multiset(t[..count]) + multiset(t[count..]);
    }
  }

  /** In a list sorted by age, no node after position `count` is older than one
      before it. */
  lemma SortedPrefixOlder(t: seq<Node>, count: nat)
    requires SortedBy(t, ByTime) && count <= |t|
    ensures forall x, y :: x in t[..count] && y in t[count..] ==> ByTime(x) <= ByTime(y)
  {
    forall x, y | x in t[..count] && y in t[count..]
      ensures ByTime(x) <= ByTime(y)
    {
      var i :| 0 <= i < count && t[..count][i] == x;
      var j :| 0 <= j < |t| - count && t[count..][j] == y;
      assert t[i] == x && t[count + j] == y;
    }
  }

  /** `get(count)` returns `min(count, len)` nodes and they are the oldest: no
      node left out is older than a node returned. */
  lemma GetNodesOldest(s: seq<Node>, count: nat)
    ensures |GetNodes(s, count)| == Min(count, |s|)
    ensures forall x, y :: x in GetNodes(s, count) && y in multiset(s) - multiset(GetNodes(s, count)) ==>
      ByTime(x) <= ByTime(y)
  {
    var t := SortByTime(s);
    SortByFacts(s, ByTime);
    var c := Min(count, |t|);
    assert GetNodes(s, count) == t[..c];
    assert t == t[..c] + t[c..];
    assert multiset(s) - multiset(t[..c]) == multiset(t[c..]);
    SortedPrefixOlder(t, c);
  }

  lemma RemoveAtStrict<T>(s: seq<T>, i: nat, key: T -> int)
    requires i < |s| && StrictlySortedBy(s, key)
    ensures StrictlySortedBy(RemoveAt(s, i), key)
    ensures Keys(RemoveAt(s, i), key) == Keys(s, key) - {key(s[i])}
  {
    var r := RemoveAt(s, i);
    forall j, k | 0 <= j < k < |r| ensures key(r[j]) < key(r[k]) {
      var j' := if j < i then j else j + 1;
      var k' := if k < i then k else k + 1;
      assert r[j] == s[j'] && r[k] == s[k'];
    }
    forall k | k in Keys(s, key) - {key(s[i])} ensures k in Keys(r, key) {
      var j :| 0 <= j < |s| && key(s[j]) == k;
      if j < i { assert r[j] == s[j]; } else { assert r[j - 1] == s[j]; }
    }
    forall k | k in Keys(r, key) ensures k in Keys(s, key) - {key(s[i])} {
      var j :| 0 <= j < |r| && key(r[j]) == k;
      var j' := if j < i then j else j + 1;
      assert r[j] == s[j'];
    }
  }

  /** A node removed from a deduplicated bucket is gone, and every node with
      another address stays. */
  lemma RemoveDeduped(s: seq<Node>, a: Address)
    requires Deduped(s) && HasAddress(s, a)
    ensures !HasAddress(RemoveNode(s, a).0, a)
    ensures Keys(RemoveNode(s, a).0, ByAddress) == Keys(s, ByAddress) - {AddressKey(a)}
    ensures Deduped(RemoveNode(s, a).0)
  {
    var r := RemoveNode(s, a).0;
    var i :| 0 <= i < |s| && s[i].address == a && r == RemoveAt(s, i);
    RemoveAtStrict(s, i, ByAddress);
    forall j | 0 <= j < |r| ensures r[j].address != a {
      assert ByAddress(r[j]) in Keys(r, ByAddress);
    }
  }

  /** Every node of `half` lies on `side` of the split and comes from `from`. */
  predicate OnSide(half: seq<Node>, from: seq<Node>, center: Center, ul: nat, side: bool)
  {
    forall i :: 0 <= i < |half| ==> GoesNear(half[i], center, ul) == side && half[i] in from
  }

  /** Adding a node to a half whose nodes all lie on its side keeps them there. */
  lemma AddSide(s: seq<Node>, p: seq<Node>, limit: nat, x: Node, center: Center, ul: nat, side: bool)
    requires OnSide(s, p, center, ul, side)
    requires GoesNear(x, center, ul) == side
    ensures OnSide(AddNodes(s, limit, x), p + [x], center, ul, side)
  {
    AddFrom(s, limit, x);
    var r := AddNodes(s, limit, x);
    forall i | 0 <= i < |r| ensures GoesNear(r[i], center, ul) == side && r[i] in p + [x] {
      var j :| 0 <= j < |s + [x]| && (s + [x])[j] == r[i];
      if j < |s| { assert s[j] == r[i]; }
    }
  }

  /** Every node of the near half lies below `ul / 2`, every node of the far half
      does not, and both halves take their nodes from the bucket. */
  lemma {:induction false} SplitSides(s: seq<Node>, limit: nat, center: Center, ul: nat)
    ensures OnSide(SplitNodes(s, limit, center, ul).0, s, center, ul, true)
    ensures OnSide(SplitNodes(s, limit, center, ul).1, s, center, ul, false)
  {
    if s != [] {
      var p := s[..|s| - 1];
      var x := s[|s| - 1];
      assert s == p + [x];
      SplitSides(p, limit, center, ul);
      var h := SplitNodes(p, limit, center, ul);
      if GoesNear(x, center, ul) {
        AddSide(h.0, p, limit, x, center, ul, true);
        OnSideFrom(h.1, p, s, center, ul, false);
      } else {
        AddSide(h.1, p, limit, x, center, ul, false);
        OnSideFrom(h.0, p, s, center, ul, true);
      }
    }
  }

  lemma OnSideFrom(half: seq<Node>, p: seq<Node>, s: seq<Node>, center: Center, ul: nat, side: bool)
    requires OnSide(half, p, center, ul, side)
    requires forall i :: 0 <= i < |p| ==> p[i] in s
    ensures OnSide(half, s, center, ul, side)
  {
    forall i | 0 <= i < |half| ensures half[i] in s {
      var j :| 0 <= j < |p| && p[j] == half[i];
    }
  }

  /** Splitting a bucket that holds no more than its limit: both halves are
      deduplicated, their addresses are disjoint and together they are the
      bucket's addresses. */
  lemma {:induction false} SplitKeys(s: seq<Node>, limit: nat, center: Center, ul: nat)
    requires |s| <= limit
    ensures var (near, far) := SplitNodes(s, limit, center, ul);
      Deduped(near) && Deduped(far) &&
      Keys(near, ByAddress) + Keys(far, ByAddress) == Keys(s, ByAddress) &&
      Keys(near, ByAddress) * Keys(far, ByAddress) == {} &&
      |near| <= |s| && |far| <= |s|
  {
    if s != [] {
      var p := s[..|s| - 1];
      var x := s[|s| - 1];
      assert s == p + [x];
      SplitKeys(p, limit, center, ul);
      SplitSides(p, limit, center, ul);
      var (n0, f0) := SplitNodes(p, limit, center, ul);
      if GoesNear(x, center, ul) {
        SplitAddOne(n0, f0, p, x, limit, center, ul, true);
      } else {
        SplitAddOne(f0, n0, p, x, limit, center, ul, false);
      }
    }
  }

  /** One step of the split: the next node joins the half of its side. */
  lemma SplitAddOne(half: seq<Node>, other: seq<Node>, p: seq<Node>, x: Node, limit: nat, center: Center, ul: nat, side: bool)
    requires |p| < limit && |half| <= |p| && |other| <= |p|
    requires Deduped(half) && Deduped(other)
    requires Keys(half, ByAddress) + Keys(other, ByAddress) == Keys(p, ByAddress)
    requires Keys(half, ByAddress) * Keys(other, ByAddress) == {}
    requires GoesNear(x, center, ul) == side
    requires forall i :: 0 <= i < |other| ==> GoesNear(other[i], center, ul) == !side
    ensures var h := AddNodes(half, limit, x);
      Deduped(h) &&
      Keys(h, ByAddress) + Keys(other, ByAddress) == Keys(p + [x], ByAddress) &&
      Keys(h, ByAddress) * Keys(other, ByAddress) == {} &&
      |h| <= |p| + 1 && |other| <= |p| + 1
  {
    var h := AddNodes(half, limit, x);
    var kh := Keys(half, ByAddress);
    var ko := Keys(other, ByAddress);
    var k := ByAddress(x);
    assert Keys(h, ByAddress) == kh + {k} by { AddRoom(half, limit, x); }
    assert Deduped(h) by { AddBound(half, limit, x); }
    assert Keys(p + [x], ByAddress) == Keys(p, ByAddress) + {k} by { KeysAppend(p, x, ByAddress); }
    assert k !in ko by { SideApart(x, other, center, ul, side); }
    assert |h| <= |p| + 1 by {
      StrictKeysCount(half, ByAddress);
      StrictKeysCount(h, ByAddress);
      SetSnocCount(kh, k);
    }
  }

  lemma SetSnocCount(a: set<int>, k: int)
    ensures |a + {k}| <= |a| + 1
  {
    if k !in a {
      assert a + {k} == a + {k};
    } else {
      assert a + {k} == a;
    }
  }

  /** A node on one side of the split has an address no node of the other side has. */
  lemma SideApart(x: Node, other: seq<Node>, center: Center, ul: nat, side: bool)
    requires GoesNear(x, center, ul) == side
    requires forall i :: 0 <= i < |other| ==> GoesNear(other[i], center, ul) == !side
    ensures ByAddress(x) !in Keys(other, ByAddress)
  {
    if ByAddress(x) in Keys(other, ByAddress) {
      var i :| 0 <= i < |other| && ByAddress(other[i]) == ByAddress(x);
      AddressKeyOrder(other[i].address, x.address);
      assert false;
    }
  }

  /** Splitting a deduplicated bucket within its limit loses no node: the halves'
      lengths add up to the bucket's. */
  lemma SplitLength(s: seq<Node>, limit: nat, center: Center, ul: nat)
    requires |s| <= limit && Deduped(s)
    ensures |SplitNodes(s, limit, center, ul).0| + |SplitNodes(s, limit, center, ul).1| == |s|
  {
    var (near, far) := SplitNodes(s, limit, center, ul);
    SplitKeys(s, limit, center, ul);
    StrictKeysCount(near, ByAddress);
    StrictKeysCount(far, ByAddress);
    StrictKeysCount(s, ByAddress);
  }

  // ---------------------------------------------------------------
  // The bucket
  // ---------------------------------------------------------------

  /** `Bucket`: the nodes and the most it may hold. */
  class Bucket {
    var nodes: seq<Node>
    const limit: nat

    /** Within its limit and deduplicated. */
    ghost predicate Valid()
      reads this
    {
      |nodes| <= limit && Deduped(nodes)
    }

    /** `Bucket::new`. */
    constructor (limit: nat)
      ensures this.limit == limit && nodes == [] && Valid()
    {
      this.limit := limit;
      nodes := [];
    }

    /** `Bucket::sort`. Ordering by age undoes the order by address, so a valid
        bucket need not stay valid; in the source `sort` is always followed by
        `dedup`, which restores it. */
    method Sort()
      modifies this
      ensures nodes == SortByTime(old(nodes))
    {
      nodes := SortByTime(nodes);
    }

    /** `Bucket::dedup`: it only drops and reorders nodes, so a bucket within its
        limit comes out valid. */
    method Dedup()
      modifies this
      ensures nodes == DedupNodes(old(nodes))
      ensures |old(nodes)| <= limit ==> Valid()
    {
      DedupNodesFacts(nodes);
      nodes := DedupBy(SortBy(nodes, ByAddress), ByAddress);
    }

    /** `Bucket::try_add`. */
    method TryAdd(node: Node) returns (r: Outcome)
      requires Valid()
      modifies this
      ensures Valid()
      ensures (nodes, r) == TryAddNodes(old(nodes), limit, node)
    {
      if |nodes| == limit {
        return Fail(Full);
      }
      TryAddBound(nodes, limit, node);
      DedupNodesFacts(nodes + [node]);
      nodes := nodes + [node];
      Dedup();
      return Pass;
    }

    /** `Bucket::add`. */
    method Add(node: Node)
      requires Valid()
      modifies this
      ensures Valid()
      ensures nodes == AddNodes(old(nodes), limit, node)
    {
      AddBound(nodes, limit, node);
      if |nodes| < limit {
        nodes := nodes + [node];
        Sort();
        Dedup();
      } else if |nodes| > 0 {
        if !IsReachable(nodes[0]) {
          nodes := [node] + nodes[1..];
        }
        Sort();
        Dedup();
      }
    }

    /** `Bucket::find`. */
    method Find(search: Address) returns (r: Option<Node>)
      ensures r == FindNode(nodes, search)
    {
      var index := Position(nodes, (n: Node) => n.address == search);
      match index
      case Some(i) => r := Some(nodes[i]);
      case None => r := None;
    }

    /** `Bucket::get`: copy the nodes, sort them by age and keep the first `count`. */
    method Get(count: nat) returns (targets: seq<Node>)
      ensures targets == GetNodes(nodes, count)
    {
      targets := [];
      for i := 0 to |nodes|
        invariant targets == nodes[..i]
      {
        targets := targets + [nodes[i]];
      }
      assert targets == nodes;
      targets := SortByTime(targets);
      if count < |targets| {
        targets := targets[..count];
      }
    }

    /** `Bucket::remove`. */
    method Remove(target: Address) returns (r: Outcome)
      requires Valid()
      modifies this
      ensures Valid()
      ensures (nodes, r) == RemoveNode(old(nodes), target)
    {
      var index := Position(nodes, (n: Node) => n.address == target);
      match index
      case Some(i) =>
        RemoveDeduped(nodes, target);
        nodes := RemoveAt(nodes, i);
        return Pass;
      case None =>
        return Fail(Unknown);
    }

    /** `Bucket::capacity`. */
    function Capacity(): (r: nat)
      reads this
      ensures r == limit
    {
      limit
    }

    /** `Bucket::len`. */
    function Len(): (r: nat)
      reads this
      ensures r == |nodes|
    {
      |nodes|
    }

    /** `Bucket::split`: the bucket's nodes distributed over two new buckets of the
        same limit by the side of `ul / 2` their XOR with the centre falls on. */
    method Split(center: Center, ul: nat) returns (near: Bucket, far: Bucket)
      requires Valid()
      ensures fresh(near) && fresh(far) && near != far
      ensures near.limit == limit && far.limit == limit
      ensures (near.nodes, far.nodes) == SplitNodes(nodes, limit, center, ul)
      ensures near.Valid() && far.Valid()
    {
      near := new Bucket(limit);
      far := new Bucket(limit);
      for i := 0 to |nodes|
        invariant fresh(near) && fresh(far) && near != far
        invariant near.limit == limit && far.limit == limit
        invariant near.Valid() && far.Valid()
        invariant (near.nodes, far.nodes) == SplitNodes(nodes[..i], limit, center, ul)
      {
        var x := nodes[i];
        SplitNodesSnoc(nodes, i, limit, center, ul);
        if GoesNear(x, center, ul) {
          near.Add(x);
        } else {
          far.Add(x);
        }
      }
      assert nodes[..|nodes|] == nodes;
    }
  }
}
