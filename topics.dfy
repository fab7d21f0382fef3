/** The topic stores of `src/topic.rs`: the switch's list of local topics
    (`TopicBucket`) and a topic's list of subscribers (`SubscriberBucket`), both
    vectors changed in place. */
module Topics {
  import opened Wrappers
  import opened Nodes
  import opened Sorting

  /** The switch's side of a topic: its address and the channel to the user's side,
      which is an opaque identifier here. */
  datatype HandlerTopic = HandlerTopic(address: Address, channel: nat)

  predicate HasTopic(s: seq<HandlerTopic>, a: Address)
  {
    exists i :: 0 <= i < |s| && s[i].address == a
  }

  /** No two topics share an address. */
  predicate UniqueTopics(s: seq<HandlerTopic>)
  {
    forall i, j :: 0 <= i < j < |s| ==> s[i].address != s[j].address
  }

  /** `TopicBucket::find`: the first topic with the address. */
  function FindTopic(s: seq<HandlerTopic>, search: Address): (r: Option<HandlerTopic>)
    ensures r.Some? <==> HasTopic(s, search)
    ensures r.Some? ==> r.value.address == search && r.value in s
  {
    match FirstIndex(s, (t: HandlerTopic) => t.address == search)
    case Some(i) => Some(s[i])
    case None => None
  }

  /** `TopicBucket::add`: pushes the topic unless one with its address is known. */
  function AddTopic(s: seq<HandlerTopic>, topic: HandlerTopic): seq<HandlerTopic>
  {
    if FindTopic(s, topic.address).None? then s + [topic] else s
  }

  /** `TopicBucket::remove`: removes the first topic with the address, keeping the
      order of the others; an unknown address is `Unknown`. */
  function RemoveTopic(s: seq<HandlerTopic>, target: Address): (r: (seq<HandlerTopic>, Outcome))
    ensures r.1 == Pass <==> HasTopic(s, target)
    ensures r.1 != Pass ==> r.1 == Fail(Unknown) && r.0 == s
  {
    match FirstIndex(s, (t: HandlerTopic) => t.address == target)
    case Some(i) => (RemoveAt(s, i), Pass)
    case None => (s, Fail(Unknown))
  }

  /** After `add` the address is known, addresses stay unique, and the topic is
      appended exactly when its address was not known before. */
  lemma AddTopicFacts(s: seq<HandlerTopic>, topic: HandlerTopic)
    requires UniqueTopics(s)
    ensures UniqueTopics(AddTopic(s, topic))
    ensures HasTopic(AddTopic(s, topic), topic.address)
    ensures HasTopic(s, topic.address) ==> AddTopic(s, topic) == s
    ensures !HasTopic(s, topic.address) ==> AddTopic(s, topic) == s + [topic]
  {
    var r := AddTopic(s, topic);
    if !HasTopic(s, topic.address) {
      assert r[|s|] == topic;
    }
  }

  /** Removing a known address shortens the list by one, keeps the others in their
      order, and in a list of unique addresses leaves it unknown. */
  lemma RemoveTopicFacts(s: seq<HandlerTopic>, target: Address)
    requires HasTopic(s, target)
    ensures var r := RemoveTopic(s, target).0;
      |r| == |s| - 1 &&
      exists i :: 0 <= i < |s| && s[i].address == target && r == s[..i] + s[i + 1..]
    ensures UniqueTopics(s) ==> UniqueTopics(RemoveTopic(s, target).0) && !HasTopic(RemoveTopic(s, target).0, target)
  {
    var i := FirstIndex(s, (t: HandlerTopic) => t.address == target).value;
    var r := RemoveTopic(s, target).0;
    assert r == s[..i] + s[i + 1..];
    if UniqueTopics(s) {
      forall j | 0 <= j < |r| ensures r[j].address != target {
        if j < i { assert r[j] == s[j]; } else { assert r[j] == s[j + 1]; }
      }
      forall j, k | 0 <= j < k < |r| ensures r[j].address != r[k].address {
        var j' := if j < i then j else j + 1;
        var k' := if k < i then k else k + 1;
        assert r[j] == s[j'] && r[k] == s[k'];
      }
    }
  }

  /** `TopicBucket`: the topics the switch knows. */
  class TopicBucket {
    var topics: seq<HandlerTopic>

    /** No address twice, which `add` guarantees. */
    ghost predicate Valid()
      reads this
    {
      UniqueTopics(topics)
    }

    /** `TopicBucket::new`. */
    constructor ()
      ensures topics == [] && Valid()
    {
      topics := [];
    }

    /** `TopicBucket::find`. */
    method Find(search: Address) returns (r: Option<HandlerTopic>)
      ensures r == FindTopic(topics, search)
    {
      var index := Position(topics, (t: HandlerTopic) => t.address == search);
      match index
      case Some(i) => r := Some(topics[i]);
      case None => r := None;
    }

    /** `TopicBucket::add`. */
    method Add(topic: HandlerTopic)
      requires Valid()
      modifies this
      ensures Valid()
      ensures topics == AddTopic(old(topics), topic)
    {
      AddTopicFacts(topics, topic);
      var found := Find(topic.address);
      if found.None? {
        topics := topics + [topic];
      }
    }

    /** `TopicBucket::remove`. */
    method Remove(target: Address) returns (r: Outcome)
      requires Valid()
      modifies this
      ensures Valid()
      ensures (topics, r) == RemoveTopic(old(topics), target)
    {
      var index := Position(topics, (t: HandlerTopic) => t.address == target);
      match index
      case Some(i) =>
        RemoveTopicFacts(topics, target);
        topics := RemoveAt(topics, i);
        return Pass;
      case None =>
        return Fail(Unknown);
    }

    /** `TopicBucket::len`. */
    function Len(): (r: nat)
      reads this
      ensures r == |topics|
    {
      |topics|
    }
  }

  // ---------------------------------------------------------------
  // Subscribers
  // ---------------------------------------------------------------

  /** `SubscriberBucket::dedup`: sort by address, then keep one of each address. */
  function DedupAddresses(s: seq<Address>): seq<Address>
  {
    DedupBy(SortBy(s, AddressKey), AddressKey)
  }

  /** `SubscriberBucket::remove`: the first occurrence is removed; an absent address
      is `Unknown`. */
  function RemoveSubscriber(s: seq<Address>, target: Address): (r: (seq<Address>, Outcome))
    ensures r.1 == Pass <==> target in s
    ensures r.1 != Pass ==> r.1 == Fail(Unknown) && r.0 == s
    ensures r.1 == Pass ==> multiset(r.0) == multiset(s) - multiset{target}
  {
    match FirstIndex(s, (a: Address) => a == target)
    case Some(i) =>
      assert s == s[..i] + [s[i]] + s[i + 1..];
      (RemoveAt(s, i), Pass)
    case None => (s, Fail(Unknown))
  }

  /** Dedup sorts the subscribers by address, leaves no address twice and keeps
      exactly the same set of addresses. */
  lemma DedupAddressesFacts(s: seq<Address>)
    ensures StrictlySortedBy(DedupAddresses(s), AddressKey)
    ensures forall i, j :: 0 <= i < j < |DedupAddresses(s)| ==> DedupAddresses(s)[i] != DedupAddresses(s)[j]
    ensures forall a :: a in DedupAddresses(s) <==> a in s
  {
    var t := SortBy(s, AddressKey);
    var d := DedupAddresses(s);
    SortByFacts(s, AddressKey);
    DedupBySorted(t, AddressKey);
    DedupByFacts(t, AddressKey);
    forall a | a in s ensures a in d {
      var j :| 0 <= j < |s| && s[j] == a;
      assert AddressKey(s[j]) in Keys(s, AddressKey);
      PermutationKeys(t, s, AddressKey);
      assert AddressKey(a) in Keys(d, AddressKey);
      var i :| 0 <= i < |d| && AddressKey(d[i]) == AddressKey(a);
      AddressKeyOrder(d[i], a);
    }
    forall a | a in d ensures a in s {
      assert a in t;
      assert a in multiset(t);
    }
  }

  /** `SubscriberBucket`: the subscribers of a topic. */
  class SubscriberBucket {
    var subscribers: seq<Address>

    /** `SubscriberBucket::new`. */
    constructor (subscribers: seq<Address>)
      ensures this.subscribers == subscribers
    {
      this.subscribers := subscribers;
    }

    /** `SubscriberBucket::sort`: ordered by address. */
    method Sort()
      modifies this
      ensures subscribers == SortBy(old(subscribers), AddressKey)
    {
      subscribers := SortBy(subscribers, AddressKey);
    }

    /** `SubscriberBucket::add`: appends, duplicates included. */
    method Add(address: Address)
      modifies this
      ensures subscribers == old(subscribers) + [address]
    {
      subscribers := subscribers + [address];
    }

    /** `SubscriberBucket::find`: the address when it is subscribed. */
    method Find(search: Address) returns (r: Option<Address>)
      ensures r.Some? <==> search in subscribers
      ensures r.Some? ==> r.value == search
    {
      var index := Position(subscribers, (a: Address) => a == search);
      match index
      case Some(i) => r := Some(subscribers[i]);
      case None => r := None;
    }

    /** `SubscriberBucket::remove`. */
    method Remove(target: Address) returns (r: Outcome)
      modifies this
      ensures (subscribers, r) == RemoveSubscriber(old(subscribers), target)
    {
      var index := Position(subscribers, (a: Address) => a == target);
      match index
      case Some(i) =>
        subscribers := RemoveAt(subscribers, i);
        return Pass;
      case None =>
        return Fail(Unknown);
    }

    /** `SubscriberBucket::dedup`. */
    method Dedup()
      modifies this
      ensures subscribers == DedupAddresses(old(subscribers))
    {
      Sort();
      subscribers := DedupBy(subscribers, AddressKey);
    }

    /** `SubscriberBucket::len`. */
    function Len(): (r: nat)
      reads this
      ensures r == |subscribers|
    {
      |subscribers|
    }
  }
}
