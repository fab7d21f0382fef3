/** The connection-side stores of `src/handler.rs`: the uuid cache that suppresses
    duplicate frames, the list of open connections, and the rule each connection
    thread applies to every frame it receives. Sockets and channels are left out;
    a received frame is an input and a forwarded frame an output. */
module Handler {
  import opened Wrappers
  import opened Bytes
  import opened Nodes
  import opened Sorting
  import opened Transactions

  // ---------------------------------------------------------------
  // Cache
  // ---------------------------------------------------------------

  /** `Cache::add`: push the uuid, then truncate to `limit`. Once the cache is full
      the new uuid is the one cut off. */
  function CacheAdd(elements: seq<Bytes16>, limit: nat, uuid: Bytes16): (r: seq<Bytes16>)
    ensures |r| <= limit
    ensures |elements| < limit ==> r == elements + [uuid]
    ensures |elements| >= limit ==> r == elements[..limit]
  {
    var pushed := elements + [uuid];
    if limit < |pushed| then pushed[..limit] else pushed
  }

  /** Below the limit the added uuid is cached afterwards; at the limit the cache is
      left as it was and the uuid is not cached, although the documentation says
      the oldest entry makes room for it. */
  lemma CacheAddFacts(elements: seq<Bytes16>, limit: nat, uuid: Bytes16)
    requires |elements| <= limit
    ensures |elements| < limit ==> uuid in CacheAdd(elements, limit, uuid)
    ensures |elements| == limit ==> CacheAdd(elements, limit, uuid) == elements
    ensures |elements| == limit && uuid !in elements ==> uuid !in CacheAdd(elements, limit, uuid)
  {
  }

  /** The uuid cache; it is shared between the listener and every connection
      thread, which a reference models. */
  class Cache {
    var elements: seq<Bytes16>
    const limit: nat

    ghost predicate Valid()
      reads this
    {
      |elements| <= limit
    }

    /** `Cache::new`. */
    constructor (limit: nat)
      ensures this.limit == limit && elements == [] && Valid()
    {
      this.limit := limit;
      elements := [];
    }

    /** `Cache::add`. */
    method Add(uuid: Bytes16)
      requires Valid()
      modifies this
      ensures Valid()
      ensures elements == CacheAdd(old(elements), limit, uuid)
    {
      elements := elements + [uuid];
      if limit < |elements| {
        elements := elements[..limit];
      }
    }

    /** `Cache::find`: the cached copy of the uuid, when there is one. */
    method Find(id: Bytes16) returns (r: Option<Bytes16>)
      ensures r.Some? <==> id in elements
      ensures r.Some? ==> r.value == id
    {
      var index := Position(elements, (u: Bytes16) => u == id);
      match index
      case Some(i) => r := Some(elements[i]);
      case None => r := None;
    }

    /** `Cache::exists`. */
    method Exists(id: Bytes16) returns (r: bool)
      ensures r <==> id in elements
    {
      var found := Find(id);
      r := found.Some?;
    }
  }

  // ---------------------------------------------------------------
  // Forwarding rule
  // ---------------------------------------------------------------

  /** The rule a connection thread applies to a frame: it is passed on, and its
      uuid cached, when the uuid is not cached yet or the frame is empty.
      `Wire::is_empty` is not part of this model and is a parameter. */
  predicate Passes(elements: seq<Bytes16>, w: Wire, isEmpty: Wire -> bool)
  {
    w.uuid !in elements || isEmpty(w)
  }

  /** The cache and the frames passed on after a sequence of received frames. */
  function Deliver(elements: seq<Bytes16>, limit: nat, wires: seq<Wire>, isEmpty: Wire -> bool)
    : (r: (seq<Bytes16>, seq<Wire>))
    ensures |r.1| <= |wires|
  {
    if wires == [] then (elements, [])
    else
      var before := Deliver(elements, limit, wires[..|wires| - 1], isEmpty);
      var w := wires[|wires| - 1];
      if Passes(before.0, w, isEmpty) then (CacheAdd(before.0, limit, w.uuid), before.1 + [w])
      else before
  }

  /** The uuids of a sequence of frames. */
  function Uuids(wires: seq<Wire>): (r: seq<Bytes16>)
    ensures |r| == |wires|
    ensures forall i :: 0 <= i < |wires| ==> r[i] == wires[i].uuid
  {
    if wires == [] then [] else Uuids(wires[..|wires| - 1]) + [wires[|wires| - 1].uuid]
  }

  /** While the cache has room, it is the initial cache followed by the uuids of the
      frames passed on. */
  lemma {:induction false} DeliverRoom(elements: seq<Bytes16>, limit: nat, wires: seq<Wire>, isEmpty: Wire -> bool)
    requires |elements| + |wires| <= limit
    ensures Deliver(elements, limit, wires, isEmpty).0 == elements + Uuids(Deliver(elements, limit, wires, isEmpty).1)
  {
    if wires != [] {
      var p := wires[..|wires| - 1];
      DeliverRoom(elements, limit, p, isEmpty);
      var before := Deliver(elements, limit, p, isEmpty);
      var w := wires[|wires| - 1];
      if Passes(before.0, w, isEmpty) {
        assert Uuids(before.1 + [w]) == Uuids(before.1) + [w.uuid];
      }
    }
  }

  /** While the cache has room, duplicates are suppressed: a non-empty frame passed
      on was not cached before and no frame passed on earlier has its uuid. */
  lemma {:induction false} DeliverUnique(elements: seq<Bytes16>, limit: nat, wires: seq<Wire>, isEmpty: Wire -> bool)
    requires |elements| + |wires| <= limit
    ensures var out := Deliver(elements, limit, wires, isEmpty).1;
      forall j :: 0 <= j < |out| && !isEmpty(out[j]) ==>
        out[j].uuid !in elements && forall i :: 0 <= i < j ==> out[i].uuid != out[j].uuid
  {
    if wires != [] {
      var p := wires[..|wires| - 1];
      DeliverUnique(elements, limit, p, isEmpty);
      DeliverRoom(elements, limit, p, isEmpty);
      var before := Deliver(elements, limit, p, isEmpty);
      var w := wires[|wires| - 1];
      if Passes(before.0, w, isEmpty) && !isEmpty(w) {
        var out := before.1 + [w];
        forall i | 0 <= i < |before.1| ensures out[i].uuid != w.uuid {
          assert Uuids(before.1)[i] == before.1[i].uuid;
          assert before.0[|elements| + i] == before.1[i].uuid;
        }
        assert forall k :: 0 <= k < |elements| ==> before.0[k] == elements[k];
      }
    }
  }

  /** One more received frame. */
  lemma DeliverSnoc(elements: seq<Bytes16>, limit: nat, wires: seq<Wire>, w: Wire, isEmpty: Wire -> bool)
    ensures var before := Deliver(elements, limit, wires, isEmpty);
      Deliver(elements, limit, wires + [w], isEmpty) ==
        if Passes(before.0, w, isEmpty) then (CacheAdd(before.0, limit, w.uuid), before.1 + [w]) else before
  {
    assert (wires + [w])[..|wires|] == wires;
  }

  /** Once the cache is full, a new uuid is never recorded, so the same non-empty
      frame received twice is passed on both times. */
  lemma FullCacheRepeats(elements: seq<Bytes16>, w: Wire, isEmpty: Wire -> bool)
    requires w.uuid !in elements && !isEmpty(w)
    ensures Deliver(elements, |elements|, [w, w], isEmpty).1 == [w, w]
  {
    var n := |elements|;
    DeliverSnoc(elements, n, [], w, isEmpty);
    assert [] + [w] == [w];
    DeliverSnoc(elements, n, [w], w, isEmpty);
    assert [w] + [w] == [w, w];
  }

  /** One step of `Handler::spawn`: the frame read from the socket (or received on
      the channel) is passed on when the rule lets it through, and its uuid is then
      added to the shared cache. */
  method Receive(cache: Cache, w: Wire, isEmpty: Wire -> bool) returns (forwarded: bool)
    requires cache.Valid()
    modifies cache
    ensures cache.Valid()
    ensures forwarded <==> Passes(old(cache.elements), w, isEmpty)
    ensures cache.elements == if forwarded then CacheAdd(old(cache.elements), cache.limit, w.uuid) else old(cache.elements)
  {
    var cached := cache.Exists(w.uuid);
    forwarded := !cached || isEmpty(w);
    if forwarded {
      cache.Add(w.uuid);
    }
  }

  /** The receiving loop of `Handler::spawn` over a finite sequence of frames. */
  method Spawn(cache: Cache, wires: seq<Wire>, isEmpty: Wire -> bool) returns (sent: seq<Wire>)
    requires cache.Valid()
    modifies cache
    ensures cache.Valid()
    ensures (cache.elements, sent) == Deliver(old(cache.elements), cache.limit, wires, isEmpty)
  {
    sent := [];
    for i := 0 to |wires|
      invariant cache.Valid()
      invariant (cache.elements, sent) == Deliver(old(cache.elements), cache.limit, wires[..i], isEmpty)
    {
      assert wires[..i + 1][..i] == wires[..i];
      var forwarded := Receive(cache, wires[i], isEmpty);
      if forwarded {
        sent := sent + [wires[i]];
      }
    }
    assert wires[..|wires|] == wires;
  }

  // ---------------------------------------------------------------
  // Connections
  // ---------------------------------------------------------------

  /** An open connection: the peer's address and the channel to its thread, an
      opaque identifier here. */
  datatype Connection = Connection(address: Address, channel: nat)

  predicate UniqueConnections(s: seq<Connection>)
  {
    forall i, j :: 0 <= i < j < |s| ==> s[i].address != s[j].address
  }

  predicate HasConnection(s: seq<Connection>, a: Address)
  {
    exists i :: 0 <= i < |s| && s[i].address == a
  }

  /** `ConnectionBucket::get`: the first connection with the address. */
  function GetConnection(s: seq<Connection>, search: Address): (r: Option<Connection>)
    ensures r.Some? <==> HasConnection(s, search)
    ensures r.Some? ==> (r.value.address == search &&
      exists i :: 0 <= i < |s| && s[i] == r.value && forall k :: 0 <= k < i ==> s[k].address != search)
  {
    match FirstIndex(s, (c: Connection) => c.address == search)
    case Some(i) => Some(s[i])
    case None => None
  }

  /** `ConnectionBucket::remove`: drops the first connection with the address; an
      unknown address changes nothing. */
  function RemoveConnection(s: seq<Connection>, target: Address): (r: seq<Connection>)
    ensures !HasConnection(s, target) ==> r == s
    ensures HasConnection(s, target) ==> |r| == |s| - 1
    ensures HasConnection(s, target) ==>
      exists i :: 0 <= i < |s| && s[i].address == target &&
        (forall j :: 0 <= j < i ==> s[j].address != target) && r == s[..i] + s[i + 1..]
  {
    match FirstIndex(s, (c: Connection) => c.address == target)
    case Some(i) => RemoveAt(s, i)
    case None => s
  }

  /** `ConnectionBucket::add`: pushes the connection unless its address is known. */
  function AddConnection(s: seq<Connection>, c: Connection): (r: seq<Connection>)
    ensures HasConnection(s, c.address) ==> r == s
    ensures !HasConnection(s, c.address) ==> r == s + [c]
  {
    if GetConnection(s, c.address).None? then s + [c] else s
  }

  /** Adding keeps addresses unique and makes the address known; removing from a
      list of unique addresses makes it unknown and keeps the rest unique. */
  lemma ConnectionFacts(s: seq<Connection>, c: Connection, target: Address)
    requires UniqueConnections(s)
    ensures UniqueConnections(AddConnection(s, c)) && HasConnection(AddConnection(s, c), c.address)
    ensures UniqueConnections(RemoveConnection(s, target)) && !HasConnection(RemoveConnection(s, target), target)
  {
    var a := AddConnection(s, c);
    if !HasConnection(s, c.address) {
      assert a[|s|] == c;
    }
    match FirstIndex(s, (x: Connection) => x.address == target)
    case Some(i) =>
      var r := RemoveAt(s, i);
      forall j | 0 <= j < |r| ensures r[j].address != target {
        if j < i { assert r[j] == s[j]; } else { assert r[j] == s[j + 1]; }
      }
      forall j, k | 0 <= j < k < |r| ensures r[j].address != r[k].address {
        var j' := if j < i then j else j + 1;
        var k' := if k < i then k else k + 1;
        assert r[j] == s[j'] && r[k] == s[k'];
      }
    case None =>
  }

  /** `ConnectionBucket`: the open connections of a listener. */
  class ConnectionBucket {
    var connections: seq<Connection>
    const limit: nat

    ghost predicate Valid()
      reads this
    {
      UniqueConnections(connections)
    }

    /** `ConnectionBucket::new`: the limit is stored but never enforced. */
    constructor (limit: nat)
      ensures this.limit == limit && connections == [] && Valid()
    {
      this.limit := limit;
      connections := [];
    }

    /** `ConnectionBucket::get`. */
    method Get(search: Address) returns (r: Option<Connection>)
      ensures r == GetConnection(connections, search)
    {
      var index := Position(connections, (c: Connection) => c.address == search);
      match index
      case Some(i) => r := Some(connections[i]);
      case None => r := None;
    }

    /** `ConnectionBucket::add`. */
    method Add(connection: Connection)
      requires Valid()
      modifies this
      ensures Valid()
      ensures connections == AddConnection(old(connections), connection)
    {
      ConnectionFacts(connections, connection, connection.address);
      var found := Get(connection.address);
      if found.None? {
        connections := connections + [connection];
      }
    }

    /** `ConnectionBucket::remove`. */
    method Remove(target: Address)
      requires Valid()
      modifies this
      ensures Valid()
      ensures connections == RemoveConnection(old(connections), target)
    {
      ConnectionFacts(connections, Connection(target, 0), target);
      var index := Position(connections, (c: Connection) => c.address == target);
      match index
      case Some(i) => connections := RemoveAt(connections, i);
      case None =>
    }

    /** `ConnectionBucket::len`. */
    function Len(): (r: nat)
      reads this
      ensures r == |connections|
    {
      |connections|
    }
  }
}
