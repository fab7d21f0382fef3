/** Topic records the local node is responsible for (`src/record.rs`): a record is
    a topic address with its list of subscribers; the record bucket is a map from
    topic address to record, changed in place. */
module Records {
  import opened Wrappers
  import opened Nodes
  import opened Sorting

  /** A record is stored by value in the bucket and handed out as a copy, so it is
      a value here and its `&mut self` updates return the new record. */
  datatype Record = Record(address: Address, subscribers: seq<Address>)

  predicate NoDuplicates(s: seq<Address>)
  {
    forall i, j :: 0 <= i < j < |s| ==> s[i] != s[j]
  }

  /** `Record::new`. */
  function NewRecord(address: Address): (r: Record)
    ensures r.address == address && r.subscribers == []
  {
    Record(address, [])
  }

  /** `Record::contains`. */
  predicate Contains(r: Record, query: Address)
  {
    query in r.subscribers
  }

  /** `Record::subscribe`: appends the address unless it is already subscribed. */
  function Subscribe(r: Record, subscriber: Address): (s: Record)
    ensures s.address == r.address && Contains(s, subscriber)
    ensures Contains(r, subscriber) ==> s == r
    ensures !Contains(r, subscriber) ==> s.subscribers == r.subscribers + [subscriber]
    ensures NoDuplicates(r.subscribers) ==> NoDuplicates(s.subscribers)
  {
    if Contains(r, subscriber) then r else r.(subscribers := r.subscribers + [subscriber])
  }

  /** `Record::unsubscribe`: removes the first occurrence of the address, if any. */
  function Unsubscribe(r: Record, subscriber: Address): (s: Record)
    ensures s.address == r.address
    ensures !Contains(r, subscriber) ==> s == r
    ensures Contains(r, subscriber) ==>
      (|s.subscribers| == |r.subscribers| - 1 &&
       multiset(s.subscribers) == multiset(r.subscribers) - multiset{subscriber})
  {
    match FirstIndex(r.subscribers, (a: Address) => a == subscriber)
    case Some(i) =>
      assert r.subscribers == r.subscribers[..i] + [r.subscribers[i]] + r.subscribers[i + 1..];
      r.(subscribers := RemoveAt(r.subscribers, i))
    case None => r
  }

  /** On a duplicate-free record, unsubscribing leaves the address absent and
      keeps every other subscriber in order. */
  lemma UnsubscribeRemoves(r: Record, subscriber: Address)
    requires NoDuplicates(r.subscribers)
    ensures !Contains(Unsubscribe(r, subscriber), subscriber)
    ensures NoDuplicates(Unsubscribe(r, subscriber).subscribers)
    ensures forall a :: a != subscriber ==> (Contains(Unsubscribe(r, subscriber), a) <==> Contains(r, a))
    ensures Contains(r, subscriber) ==>
      exists i :: 0 <= i < |r.subscribers| && r.subscribers[i] == subscriber &&
        Unsubscribe(r, subscriber).subscribers == RemoveAt(r.subscribers, i)
  {
    if Contains(r, subscriber) {
      var i := FirstIndex(r.subscribers, (a: Address) => a == subscriber).value;
      assert Unsubscribe(r, subscriber).subscribers == RemoveAt(r.subscribers, i);
      RemoveAtUnique(r.subscribers, i);
    }
  }

  /** Removing one entry of a duplicate-free list removes exactly that address. */
  lemma RemoveAtUnique(t: seq<Address>, i: nat)
    requires i < |t| && NoDuplicates(t)
    ensures t[i] !in RemoveAt(t, i)
    ensures NoDuplicates(RemoveAt(t, i))
    ensures forall a :: a != t[i] ==> (a in RemoveAt(t, i) <==> a in t)
  {
    var s := RemoveAt(t, i);
    forall j | 0 <= j < |s| ensures s[j] != t[i] {
      var j' := if j < i then j else j + 1;
      assert s[j] == t[j'];
    }
    forall a | a != t[i] && a in t ensures a in s {
      var m :| 0 <= m < |t| && t[m] == a;
      if m < i { assert s[m] == a; } else { assert s[m - 1] == a; }
    }
    forall j, k | 0 <= j < k < |s| ensures s[j] != s[k] {
      var j' := if j < i then j else j + 1;
      var k' := if k < i then k else k + 1;
      assert s[j] == t[j'] && s[k] == t[k'];
    }
  }

  /** Subscribing then unsubscribing a new subscriber gives the record back. */
  lemma SubscribeUnsubscribe(r: Record, subscriber: Address)
    requires !Contains(r, subscriber)
    ensures Unsubscribe(Subscribe(r, subscriber), subscriber) == r
  {
    var s := Subscribe(r, subscriber).subscribers;
    var i := FirstIndex(s, (a: Address) => a == subscriber).value;
    assert i == |r.subscribers|;
    assert RemoveAt(s, i) == r.subscribers;
  }

  // ---------------------------------------------------------------
  // The record bucket
  // ---------------------------------------------------------------

  /** `RecordBucket::subscribe` on the map: a missing record is left alone. */
  function SubscribeIn(m: map<Address, Record>, record: Address, subscriber: Address): map<Address, Record>
  {
    if record in m then m[record := Subscribe(m[record], subscriber)] else m
  }

  /** `RecordBucket::unsubscribe` on the map: a missing record is left alone. */
  function UnsubscribeIn(m: map<Address, Record>, record: Address, subscriber: Address): map<Address, Record>
  {
    if record in m then m[record := Unsubscribe(m[record], subscriber)] else m
  }

  /** Every record is stored under its own address. */
  predicate Keyed(m: map<Address, Record>)
  {
    forall k :: k in m ==> m[k].address == k
  }

  /** Subscribing through the bucket: a missing record is a no-op; otherwise only
      that record changes, it keeps its address and gains the subscriber. */
  lemma SubscribeInFacts(m: map<Address, Record>, record: Address, subscriber: Address)
    ensures record !in m ==> SubscribeIn(m, record, subscriber) == m
    ensures var n := SubscribeIn(m, record, subscriber);
      n.Keys == m.Keys &&
      (forall k :: k in m && k != record ==> n[k] == m[k]) &&
      (record in m ==> Contains(n[record], subscriber) && n[record].address == m[record].address)
    ensures Keyed(m) ==> Keyed(SubscribeIn(m, record, subscriber))
  {
  }

  /** Unsubscribing through the bucket: a missing record is a no-op; otherwise only
      that record changes, and a duplicate-free record loses the subscriber. */
  lemma UnsubscribeInFacts(m: map<Address, Record>, record: Address, subscriber: Address)
    ensures record !in m ==> UnsubscribeIn(m, record, subscriber) == m
    ensures var n := UnsubscribeIn(m, record, subscriber);
      n.Keys == m.Keys &&
      (forall k :: k in m && k != record ==> n[k] == m[k]) &&
      (record in m && NoDuplicates(m[record].subscribers) ==> !Contains(n[record], subscriber))
    ensures Keyed(m) ==> Keyed(UnsubscribeIn(m, record, subscriber))
  {
    if record in m && NoDuplicates(m[record].subscribers) {
      UnsubscribeRemoves(m[record], subscriber);
    }
  }

  /** `RecordBucket`: the records by topic address. */
  class RecordBucket {
    var records: map<Address, Record>

    /** Every record sits under its own address. */
    ghost predicate Valid()
      reads this
    {
      Keyed(records)
    }

    /** `RecordBucket::new`. */
    constructor ()
      ensures records == map[] && Valid()
    {
      records := map[];
    }

    /** `RecordBucket::add`: stores the record under its address, replacing any
        record already there. */
    method Add(record: Record)
      requires Valid()
      modifies this
      ensures Valid()
      ensures records == old(records)[record.address := record]
    {
      records := records[record.address := record];
    }

    /** `RecordBucket::remove`: deletes that key only; a missing key is a no-op. */
    method Remove(address: Address)
      requires Valid()
      modifies this
      ensures Valid()
      ensures records == old(records) - {address}
    {
      records := records - {address};
    }

    /** `RecordBucket::contains`. */
    predicate ContainsRecord(address: Address)
      reads this
    {
      address in records
    }

    /** `RecordBucket::get`: a copy of the record, when one is stored. */
    function Get(address: Address): (r: Option<Record>)
      reads this
      ensures r.Some? <==> ContainsRecord(address)
      ensures r.Some? ==> r.value == records[address]
    {
      if address in records then Some(records[address]) else None
    }

    /** `RecordBucket::subscribe`. */
    method SubscribeTo(record: Address, subscriber: Address)
      requires Valid()
      modifies this
      ensures Valid()
      ensures records == SubscribeIn(old(records), record, subscriber)
    {
      if record in records {
        records := records[record := Subscribe(records[record], subscriber)];
      }
    }

    /** `RecordBucket::unsubscribe`. */
    method UnsubscribeFrom(record: Address, subscriber: Address)
      requires Valid()
      modifies this
      ensures Valid()
      ensures records == UnsubscribeIn(old(records), record, subscriber)
    {
      if record in records {
        records := records[record := Unsubscribe(records[record], subscriber)];
      }
    }
  }
}
