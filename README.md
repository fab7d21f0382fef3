# actaeon core in Dafny

This project models the core of actaeon, a Kademlia-flavoured publish/subscribe
overlay written in Rust, and proves properties of that model.

- **Nodes.** Every node of the overlay has a 32-byte address, its public key.
  Nodes are organised by the XOR distance of their addresses from the local
  *centre*.
- **Routing.** A node keeps the members it knows in *k-buckets*. The buckets
  are leaves of a binary tree keyed by byte 0 of the XOR distance.
- **Topics.** A topic is an address too. The node responsible for a topic
  keeps a *record* of its subscribers.
- **Transactions.** Messages travel as *transactions*. A transaction is
  serialised into a fixed-offset *wire* frame, and every connection suppresses
  frames whose uuid it has already seen.
- **The switch.** A single switch thread takes each transaction, user action
  and topic command and decides where it goes: a local handler, the user, a
  topic channel, the signalling thread or back to the listener.

The model is organised one module per source file:

| module | source | form |
|---|---|---|
| `Nodes` | `src/node.rs` | addresses, links and nodes as datatypes; the codecs as functions, and their loops as methods proved against them |
| `Transactions` | `src/transaction.rs` | the class code table; the `Wire` frame and its parser. The parser is an indexed loop filling zeroed arrays, proved equal to a function. |
| `Database` | `src/database.rs` | the record splitter as a cursor loop, proved equal to a recursive function |
| `Buckets` | `src/bucket.rs` | a class `Bucket` whose node vector is updated in place, specified by functions on node sequences |
| `Router` | `src/router.rs` | the tree of buckets as a datatype; its `&mut` recursion returns the new tree |
| `Records` | `src/record.rs` | `Record` as a value; `RecordBucket` as a class over a `map` |
| `Topics` | `src/topic.rs` | `TopicBucket` and `SubscriberBucket` as classes over sequences |
| `Handler` | `src/handler.rs` | the uuid `Cache`; the `ConnectionBucket`; the forwarding rule of a connection thread as a loop over the frames received |
| `Signaling` | `src/signaling.rs` | signalling actions and the `ActionBucket` |
| `Switch` | `src/switch.rs` | a class over the records, the topic bucket and a log of outputs; every handler is a method proved against a state-transition function |
| `RouterAddress`, `RouterBucket`, `RouterTable` | `src/router/address.rs`, `src/router/bucket.rs`, `src/router/table.rs` | the older generation of the routing code |

Shared pieces:

- **`Bytes`** holds bytes, fixed-size byte arrays, little- and big-endian
  numbers, Rust's lexicographic order on byte arrays, XOR on bytes, decimal
  text and UTF-8 validity.
- **`Sorting`** holds the stable sort, `dedup_by`, `position` and `Vec::remove`.
- **`Wrappers`** holds `Option`, `Result` and the error values.

Conventions:

- **Panics.** A Rust panic (an `unwrap` of `None`, a slice past the end) is
  the error value `Panicked`. A panic inside the switch thread ends that
  thread: the switch state then has `halted` set and handles nothing more.
- **Infinite loops.** A loop that never ends is `Loops`.
- **Channels.** Every channel the switch sends on is one output log, in the
  order of sending.
- **Time.** Timestamps are integers, and smaller means older.

The code departs from textbook Kademlia, or from what its own comments say,
in these ways, and the model follows the code:

- **Frame fields.** The wire frame has no hop budget and no visited-relay
  set; it has fixed offsets for length, class, source, target, uuid and nonce.
- **Bucket index.** The bucket of a node is byte 0 of the XOR with the centre,
  not a prefix length.
- **Full bucket.** A full k-bucket replaces its first node only when that
  node is already marked unreachable; there is no liveness probe. The first
  node of a valid bucket is the one with the smallest address, not the oldest
  one as the comment on `Bucket::add` says.
- **Unsubscribe.** Unsubscribing sends Unsubscriber messages to the other
  subscribers.
- **Cache eviction.** At its limit the uuid cache discards the new uuid
  rather than the oldest one.
- **Action removal.** `ActionBucket::remove` never removes anything.
- **Table size.** The older table has no bucket for index 255.

These differences, and the places where the code does something other than
its own comments say, are stated as lemmas about the code as written:
`Handler.CacheAddFacts`, `Handler.FullCacheRepeats`,
`Signaling.RemoveActionFacts`, `Nodes.XorFacts`, `Database.ConvertFailures`,
`RouterTable.Table.Add`, `Buckets.FirstIsSmallestAddress`,
`Buckets.FullAddDropsNewer` and `Switch.DetailsShortLinkHalts`.

## Model

| member | source | states |
|---|---|---|
| Bytes.LittleEndianRoundTrip | src/node.rs:501-523 | a port written as eight little-endian bytes reads back as the same number whenever it fits |
| Bytes.LexCompareEqualIff | src/node.rs:65-70 | the derived order on key bytes says Equal exactly for equal byte strings |
| Bytes.LexCompareAntisymmetric | src/node.rs:65-70 | swapping the operands of the derived order reverses the result |
| Bytes.LexCompareIsNumeric | src/node.rs:65-70 | on keys of one length the derived lexicographic order is the order of their big-endian values |
| Bytes.BigEndianInjective | src/router/address.rs:61-65 | two distances with the same numeric value are the same bytes |
| Bytes.XorProperties | src/node.rs:399-407 | byte XOR is zero on equal bytes and symmetric |
| Bytes.XorCancel | src/router/address.rs:47-53 | XOR with a fixed byte is injective, so a zero distance byte means equal bytes |
| Bytes.DecimalRoundTrip | src/node.rs:483-486 | the decimal text of a port is non-empty, all digits, and parses back to the port |
| Nodes.AddressKeyOrder | src/node.rs:65-70 | the derived address order is the numeric order of the keys, and equal keys mean equal addresses |
| Nodes.AddressFromSlice | src/node.rs:316-322 | a slice gives an address exactly when it has 32 bytes, and then holds them; otherwise `Invalid` |
| Nodes.AddressAsBytes | src/node.rs:343-350 | the copied bytes read back through `from_slice` as the same address |
| Nodes.FromBulk | src/node.rs:326-336 | the chunk loop returns the addresses of the consecutive 32-byte chunks |
| Nodes.ChunksShape | src/node.rs:326-336 | `from_bulk` yields `len / 32` addresses, the i-th made of bytes `32i..32i+32`; a partial tail is dropped |
| Nodes.ChunksConcat | src/node.rs:326-336 | reading back the concatenated keys of a list of addresses gives the list |
| Nodes.BitXor | src/node.rs:399-407 | the loop over `0..31` computes XOR of bytes 0 to 30 and leaves byte 31 zero |
| Nodes.XorFacts | src/node.rs:391-426 | `a ^ a` is all zero, `a ^ b == b ^ a`, and byte 31 of every XOR is zero |
| Nodes.BucketIndex | src/node.rs:372-374 | the bucket of an address is below 256 and is byte 0 of its XOR with the centre |
| Nodes.BucketIndexCenter | src/node.rs:372-374 | the centre's own address falls into bucket 0 |
| Nodes.UsizeToAddress | src/node.rs:457-464 | a number becomes its eight big-endian bytes followed by 24 zeros |
| Nodes.UsizeAddressDecodes | src/node.rs:457-464 | the first eight bytes of that address read back as the number, so distinct numbers give distinct addresses |
| Nodes.BigEndianBytesRoundTrip | src/node.rs:457-464 | `to_be_bytes` of a number that fits reads back as the number |
| Nodes.NewLink | src/node.rs:470-477 | a new link keeps ip and port, is not reachable and has no attempts |
| Nodes.UpdateLink | src/node.rs:492-495 | `update` adds exactly one attempt, sets reachability to the status and keeps ip and port |
| Nodes.LinkToString | src/node.rs:483-486 | the text starts with the ip followed by a colon |
| Nodes.LinkToStringPort | src/node.rs:483-486 | what follows the colon is all digits and reads back as the port |
| Nodes.LinkAsBytes | src/node.rs:501-508 | the link bytes are the ip followed by eight port bytes |
| Nodes.DecodeLink | src/node.rs:510-523 | a decoded link takes its ip from all but the last eight bytes |
| Nodes.LinkFromBytes | src/node.rs:510-523 | the buffer-copying decoder returns what `DecodeLink` describes: `Invalid` for non-UTF-8 text, `Panicked` below eight bytes |
| Nodes.LinkRoundTrip | src/node.rs:501-523 | decoding the bytes of any link gives a fresh link with its ip and port |
| Nodes.NewLinkRoundTrip | src/node.rs:501-523 | for a link made by `Link::new` decoding its bytes gives it back exactly |
| Nodes.IsReachable | src/node.rs:119-124 | a node is reachable exactly when it has a link marked reachable; without a link never |
| Nodes.UpdateNode | src/node.rs:128-133 | `update` changes only the link, and leaves a node without a link unchanged |
| Nodes.UpdateNodeReachable | src/node.rs:119-133 | after an update a node is reachable exactly when it has a link and the status was true |
| Nodes.NodeAsBytes | src/node.rs:148-163 | a node serialises as two length bytes, 32 address bytes and the link bytes; without a link as `[0, 0]` followed by the address |
| Nodes.DecodeNode | src/node.rs:168-195 | below 32 bytes `Invalid`; 32 bytes a bare address; 34 bytes an address after two length bytes; otherwise the address at bytes 2..33 and the link after it |
| Nodes.NodeFromBytes | src/node.rs:168-195 | the buffer-filling decoder returns what `DecodeNode` describes |
| Nodes.NodeRoundTrip | src/node.rs:148-195 | decoding a node's bytes succeeds with the same address, and its link comes back with the same ip and port |
| Nodes.ScanRecord | src/node.rs:214-241 | one pass puts two bytes in the length buffer, 32 in the address buffer, `integer(length)` in the link and the rest aside |
| Nodes.RecursiveParse | src/node.rs:214-241 | the recursive parse returns what `ParseNodes` describes |
| Nodes.DecodeBulk | src/node.rs:199-208 | below 34 bytes no nodes; exactly 34 bytes one node without a link |
| Nodes.NodeFromBulk | src/node.rs:199-208 | `from_bulk` returns what `DecodeBulk` describes |
| Nodes.ParseNodesBulk | src/node.rs:214-241 | if the length helpers are inverse, the recursive parse of concatenated linked nodes gives them back in order |
| Nodes.DecodeBulkRoundTrip | src/node.rs:199-241 | if the length helpers are inverse, `from_bulk` of concatenated linked nodes returns them in order, equal by address, with the same ip and port |
| Transactions.ClassFromBytes | src/transaction.rs:219-232 | a code is accepted exactly when some class has it, and then names that class; otherwise `Invalid` |
| Transactions.ClassRoundTrip | src/transaction.rs:216-251 | every one of the nine classes reads back from its code, and no two classes share a code |
| Transactions.WireAsBytes | src/transaction.rs:320-331 | the frame bytes are length, class, source, target, uuid, nonce and body at their offsets, 110 + body bytes in all |
| Transactions.ParseWire | src/transaction.rs:259-309 | a frame is refused with `Invalid` exactly when it has 81 bytes or fewer |
| Transactions.WireFromBytes | src/transaction.rs:259-309 | the one-pass loop over zeroed field arrays returns what `ParseWire` describes |
| Transactions.WireOffsets | src/transaction.rs:272-299 | from 110 bytes on, every field is taken at its fixed offset and the body is the rest |
| Transactions.WireShort | src/transaction.rs:264-299 | between 82 and 109 bytes the frame is accepted with an empty body, and field bytes past the end stay zero |
| Transactions.WireBytesRoundTrip | src/transaction.rs:259-331 | parsing then serialising an input of at least 110 bytes gives it back |
| Transactions.WireRoundTrip | src/transaction.rs:259-331 | serialising then parsing any frame gives the frame back |
| Transactions.ToWire | src/transaction.rs:122-132 | the frame keeps the uuid, body, source and target, with a class code that reads back as the message class |
| Transactions.TransactionAsBytes | src/transaction.rs:137-139 | a transaction is 110 + body bytes long |
| Transactions.TransactionBytesRoundTrip | src/transaction.rs:122-139 | a receiver parses a sent transaction back to its uuid, class, source, target and body |
| Transactions.Redirect | src/transaction.rs:170-174 | `redirect` changes the message target and nothing else |
| Transactions.RedirectSame | src/transaction.rs:208-212 | a redirected copy is equal to the original (equality is by uuid), and redirecting to the old target is the identity |
| Database.ConvertBytes | src/database.rs:17-40 | the cursor loop returns what `Convert` describes |
| Database.ConvertFromFacts | src/database.rs:24-37 | records read from a cursor on are non-empty, lie back to back from it, announce their own length, and leave fewer than 42 bytes over |
| Database.ConvertFacts | src/database.rs:17-40 | fewer than 42 bytes give no records; records read from the start form a prefix of the input and leave fewer than 42 bytes over |
| Database.ConvertFailures | src/database.rs:29-36 | with 42 bytes left, a zero length makes the loop run for ever and a length past the end panics |
| Database.ConvertRoundTrip | src/database.rs:17-40 | records of at least 42 bytes that announce their length as `b0 * 255 + b1`, followed by a short tail, are read back one by one |
| Database.RoundTripFrom | src/database.rs:24-37 | the same read-back from any cursor inside the input |
| Sorting.SortByFacts | src/bucket.rs:45-47 | the stable sort orders by key and is a permutation of its input |
| Sorting.DedupByFacts | src/bucket.rs:179-182 | `dedup_by` keeps the first element, takes elements from its input only and keeps every key |
| Sorting.DedupBySorted | src/bucket.rs:179-182 | `dedup_by` of a sequence sorted by key leaves no key twice |
| Sorting.FirstIndex | src/bucket.rs:126-132 | the index found is the first whose element satisfies the test; none means no element does |
| Sorting.Position | src/topic.rs:221-230 | the `position` scan returns the first matching index |
| Sorting.RemoveAt | src/bucket.rs:158-167 | `Vec::remove(i)` shifts the elements after `i` down by one and keeps those before |
| Buckets.FindNode | src/bucket.rs:126-132 | `find` returns a node exactly when one has the address, and it is that node of the bucket |
| Buckets.RemoveNode | src/bucket.rs:158-167 | an unknown address is `Unknown` and changes nothing; otherwise one node with the address is removed and the rest kept |
| Buckets.DedupNodesFacts | src/bucket.rs:179-196 | after dedup the nodes are ordered by address, no address occurs twice, every address is kept and no node is invented |
| Buckets.DedupNodesIdentity | src/bucket.rs:179-196 | dedup of a bucket already deduplicated changes nothing |
| Buckets.DedupedUnique | src/bucket.rs:179-196 | a deduplicated bucket holds no address twice |
| Buckets.TryAddFull | src/bucket.rs:56-59 | a full bucket refuses the node with `Full` and stays unchanged |
| Buckets.TryAddRoom | src/bucket.rs:60-63 | otherwise the node's address is present afterwards, no address is duplicated and every other address is kept |
| Buckets.TryAddBound | src/bucket.rs:56-64 | a bucket within its limit stays within it after `try_add` |
| Buckets.AddBound | src/bucket.rs:79-96 | a bucket within its limit stays within it after `add` and is deduplicated |
| Buckets.AddRoom | src/bucket.rs:79-84 | below the limit the node's address joins all the others |
| Buckets.AddFullReachable | src/bucket.rs:85-94 | at the limit with a reachable first node (in a valid bucket, the one with the smallest address) the set of addresses is unchanged |
| Buckets.AddFullUnreachable | src/bucket.rs:85-94 | at the limit with an unreachable first node (in a valid bucket, the one with the smallest address), that node is replaced by the new one |
| Buckets.FirstIsSmallestAddress | src/bucket.rs:86-94 | the first node of a deduplicated bucket, the one `add` may replace, has a smaller address than every other node |
| Buckets.FullAddDropsNewer | src/bucket.rs:71-94 | a full bucket of a newer node at the smaller address and an older one at the larger loses the newer node to `add` and keeps the older, unlike what the comment says |
| Buckets.AddFrom | src/bucket.rs:79-96 | every node left after `add` was in the bucket or is the new node |
| Buckets.GetNodesFacts | src/bucket.rs:148-156 | `get(n)` returns at most `n` nodes of the bucket, sorted by age |
| Buckets.GetNodesOldest | src/bucket.rs:148-156 | `get(n)` returns `min(n, len)` nodes, and no node left out is older than a node returned |
| Buckets.RemoveDeduped | src/bucket.rs:158-167 | removing from a deduplicated bucket removes exactly that address and keeps it deduplicated |
| Buckets.SplitSides | src/bucket.rs:107-121 | near receives exactly the nodes whose XOR byte 0 is below `ul / 2`, far the others, all from the bucket |
| Buckets.SplitKeys | src/bucket.rs:107-121 | both halves are deduplicated, their addresses are disjoint and together are the bucket's |
| Buckets.SplitLength | src/bucket.rs:107-121 | splitting a deduplicated bucket loses no node |
| Buckets.Bucket.constructor | src/bucket.rs:35-40 | a new bucket is empty with the given limit |
| Buckets.Bucket.Sort | src/bucket.rs:45-47 | the nodes are stably sorted by age |
| Buckets.Bucket.Dedup | src/bucket.rs:179-182 | the nodes become their deduplication, and a bucket within its limit comes out valid |
| Buckets.Bucket.TryAdd | src/bucket.rs:56-64 | performs `TryAddNodes` in place and keeps the bucket valid |
| Buckets.Bucket.Add | src/bucket.rs:79-96 | performs `AddNodes` in place and keeps the bucket valid |
| Buckets.Bucket.Find | src/bucket.rs:126-132 | returns `FindNode` of the nodes |
| Buckets.Bucket.Get | src/bucket.rs:148-156 | returns the `n` oldest nodes |
| Buckets.Bucket.Remove | src/bucket.rs:158-167 | performs `RemoveNode` in place and keeps the bucket valid |
| Buckets.Bucket.Capacity | src/bucket.rs:172-174 | the limit |
| Buckets.Bucket.Len | src/bucket.rs:185-187 | the number of nodes |
| Buckets.Bucket.Split | src/bucket.rs:107-121 | two fresh valid buckets with the same limit holding the two halves |
| Router.SplitProperty | src/router.rs:140-150 | `[l, u]` splits into `[l, u / 2]` and `[u / 2 + 1, u]` |
| Router.SplitPropertyNear | src/router.rs:140-154 | the lower half is near exactly when the parent is, the upper half never, and the root splits into `[0, 127]` and `[128, 255]` |
| Router.InRangeBounds | src/router.rs:135-138 | the range is strict, so neither bound is in range and the centre is outside the root range |
| Router.SplitRanges | src/router.rs:135-150 | the halves of a near range are disjoint and inside it, and `u / 2` and `u / 2 + 1` belong to neither |
| Router.TryAdd | src/router.rs:40-55 | a refused node leaves the tree unchanged |
| Router.TryAddOutOfRange | src/router.rs:40-55 | a node outside the element's range is refused with `Invalid` |
| Router.TryAddValid | src/router.rs:40-105 | `try_add` keeps every leaf within its limit and deduplicated, and an accepted node is in the tree |
| Router.AddRoutes | src/router.rs:107-113 | `add` on a split changes only the near child when the node is in its range, otherwise only the far child |
| Router.AddValid | src/router.rs:57-62 | `add` keeps every leaf valid and grows the tree by at most one node |
| Router.AddLength | src/bucket.rs:79-96 | `Bucket::add` grows a bucket by at most one node |
| Router.LenMembers | src/router.rs:83-88 | the length of a tree is the number of nodes it holds, the sum over both children of a split |
| Router.SplitElementNone | src/router.rs:64-70 | `split` gives nothing exactly for a split or a leaf whose range does not start at 0 |
| Router.SplitElementSome | src/router.rs:64-81 | a near leaf becomes a split with the same range, children with the halves of its range and its limit, nodes on their side; lengths add up |
| Records.NewRecord | src/record.rs:37-42 | a new record has the address and no subscribers |
| Records.Subscribe | src/record.rs:45-49 | the subscriber is contained afterwards; it is appended only when absent, so no duplicates arise |
| Records.Unsubscribe | src/record.rs:52-60 | an absent subscriber changes nothing; a present one loses exactly one occurrence |
| Records.UnsubscribeRemoves | src/record.rs:52-60 | on a duplicate-free record the subscriber is gone afterwards, every other subscriber stays, and the list is the old one with that one entry removed, in order |
| Records.SubscribeUnsubscribe | src/record.rs:45-60 | subscribing then unsubscribing a new subscriber gives the record back |
| Records.SubscribeInFacts | src/record.rs:154-169 | subscribing through the bucket ignores a missing record and otherwise changes only that record, which gains the subscriber |
| Records.UnsubscribeInFacts | src/record.rs:178-193 | unsubscribing through the bucket ignores a missing record and otherwise changes only that record, which loses the subscriber |
| Records.RecordBucket.constructor | src/record.rs:72-74 | a new bucket is empty |
| Records.RecordBucket.Add | src/record.rs:79-91 | the record is stored under its address, replacing any earlier one |
| Records.RecordBucket.Remove | src/record.rs:96-108 | only that key is deleted |
| Records.RecordBucket.Get | src/record.rs:131-145 | a copy is returned exactly when the bucket contains the address |
| Records.RecordBucket.SubscribeTo | src/record.rs:154-169 | performs `SubscribeIn` on the map |
| Records.RecordBucket.UnsubscribeFrom | src/record.rs:178-193 | performs `UnsubscribeIn` on the map |
| Topics.FindTopic | src/topic.rs:213-219 | a topic is found exactly when one has the address, and it is that topic |
| Topics.RemoveTopic | src/topic.rs:221-230 | an unknown address is `Unknown` and changes nothing |
| Topics.AddTopicFacts | src/topic.rs:207-211 | `add` appends exactly when the address is unknown, so addresses stay unique and the address is known afterwards |
| Topics.RemoveTopicFacts | src/topic.rs:221-230 | removing a known address drops one topic, keeps the others in order, and leaves the address unknown |
| Topics.TopicBucket.constructor | src/topic.rs:203-205 | a new bucket is empty |
| Topics.TopicBucket.Find | src/topic.rs:213-219 | returns `FindTopic` of the topics |
| Topics.TopicBucket.Add | src/topic.rs:207-211 | performs `AddTopic` and keeps addresses unique |
| Topics.TopicBucket.Remove | src/topic.rs:221-230 | performs `RemoveTopic` and keeps addresses unique |
| Topics.TopicBucket.Len | src/topic.rs:232-234 | the number of topics |
| Topics.RemoveSubscriber | src/topic.rs:181-190 | removes one occurrence of a present address; an absent one is `Unknown` |
| Topics.DedupAddressesFacts | src/topic.rs:192-195 | dedup leaves the subscribers sorted by address, with no address twice and the same set of addresses |
| Topics.SubscriberBucket.constructor | src/topic.rs:161-163 | the bucket holds the given subscribers |
| Topics.SubscriberBucket.Sort | src/topic.rs:165-167 | the subscribers are sorted by address |
| Topics.SubscriberBucket.Add | src/topic.rs:169-171 | the address is appended unconditionally |
| Topics.SubscriberBucket.Find | src/topic.rs:173-179 | the address is returned exactly when it is subscribed |
| Topics.SubscriberBucket.Remove | src/topic.rs:181-190 | performs `RemoveSubscriber` |
| Topics.SubscriberBucket.Dedup | src/topic.rs:192-195 | the subscribers become their deduplication |
| Topics.SubscriberBucket.Len | src/topic.rs:197-199 | the number of subscribers |
| Handler.CacheAdd | src/handler.rs:460-464 | after `add` the cache holds at most `limit` uuids: below the limit the uuid is appended, at the limit the old contents are kept |
| Handler.CacheAddFacts | src/handler.rs:457-464 | below the limit the uuid is cached afterwards; at the limit the cache is unchanged and a new uuid is not cached |
| Handler.Cache.constructor | src/handler.rs:450-455 | a new cache is empty with the given limit |
| Handler.Cache.Add | src/handler.rs:460-464 | performs `CacheAdd` on the shared cache |
| Handler.Cache.Find | src/handler.rs:477-487 | returns the uuid exactly when it is cached |
| Handler.Cache.Exists | src/handler.rs:467-472 | holds exactly when the uuid is cached |
| Handler.Receive | src/handler.rs:319-322 | a frame is forwarded exactly when its uuid is not cached or it is empty, and then its uuid is added to the cache |
| Handler.Spawn | src/handler.rs:310-350 | the receive loop forwards and caches what `Deliver` describes |
| Handler.Deliver | src/handler.rs:319-330 | no more frames are forwarded than were received |
| Handler.DeliverRoom | src/handler.rs:319-330 | while the cache has room it is the initial cache followed by the uuids forwarded |
| Handler.DeliverUnique | src/handler.rs:319-330 | while the cache has room duplicates are suppressed: a forwarded non-empty frame has a uuid not seen before |
| Handler.FullCacheRepeats | src/handler.rs:319-330 | with a full cache the same frame received twice is forwarded both times |
| Handler.GetConnection | src/handler.rs:421-427 | the first connection with the address, present exactly when one has it |
| Handler.RemoveConnection | src/handler.rs:431-439 | an unknown address changes nothing; for a known one exactly the first connection with the address is removed and the others are kept in order |
| Handler.AddConnection | src/handler.rs:410-415 | the connection is appended exactly when its address is unknown |
| Handler.ConnectionFacts | src/handler.rs:410-439 | adding keeps addresses unique and makes the address known; removing makes it unknown and keeps the rest unique |
| Handler.ConnectionBucket.constructor | src/handler.rs:403-408 | a new bucket is empty and stores the limit |
| Handler.ConnectionBucket.Get | src/handler.rs:421-427 | returns `GetConnection` |
| Handler.ConnectionBucket.Add | src/handler.rs:410-415 | performs `AddConnection` and keeps addresses unique |
| Handler.ConnectionBucket.Remove | src/handler.rs:431-439 | performs `RemoveConnection` and keeps addresses unique |
| Handler.ConnectionBucket.Len | src/handler.rs:441-443 | the number of connections |
| Signaling.PongAction | src/signaling.rs:101-108 | a pong action keeps the address and uuid |
| Signaling.DetailsAction | src/signaling.rs:110-117 | a details action keeps the address and uuid |
| Signaling.ToTransaction | src/signaling.rs:128-143 | a message of the action's class from the centre to the target, with the default topic and an empty body |
| Signaling.ClassOfFacts | src/signaling.rs:128-143 | each action type is sent as the class of the same name, and no two types share a class |
| Signaling.AnswerTransaction | src/signaling.rs:101-143 | a pong or details action becomes a transaction of that class to the address it names, from the centre |
| Signaling.AddAction | src/signaling.rs:157-162 | the action is appended exactly when no action has its uuid, so uuids stay unique |
| Signaling.RemoveActionFacts | src/signaling.rs:164-169 | `remove` never changes the bucket: a pending uuid passes and an unknown one panics |
| Signaling.ActionBucket.constructor | src/signaling.rs:147-151 | a new bucket is empty |
| Signaling.ActionBucket.Get | src/signaling.rs:153-155 | the oldest action, none exactly when the bucket is empty |
| Signaling.ActionBucket.Add | src/signaling.rs:157-162 | performs `AddAction` and keeps uuids unique |
| Signaling.ActionBucket.Remove | src/signaling.rs:164-169 | performs `RemoveAction` |
| Signaling.ActionBucket.Len | src/signaling.rs:171-173 | the number of actions |
| RouterAddress.FromMessage | src/router/address.rs:35-41 | the bytes are kept, with no public key and not verified |
| RouterAddress.Distance | src/router/address.rs:47-53 | the loop computes the bytewise XOR of all 32 bytes |
| RouterAddress.DistanceFacts | src/router/address.rs:47-53 | the distance is zero exactly between equal bytes, is symmetric and depends on the bytes only |
| RouterAddress.Bucket | src/router/address.rs:55-58 | the bucket is below 256 and is byte 0 of the distance from the centre |
| RouterAddress.BucketFacts | src/router/address.rs:55-58 | the centre's own bucket is 0, and the bucket is symmetric |
| RouterAddress.CmpFacts | src/router/address.rs:61-65 | `cmp` is Equal exactly on equal bytes, reverses when swapped, and is the numeric order of the distances |
| RouterBucket.AddNode | src/router/bucket.rs:20-27 | below the size the refreshed node is added and the list sorted; at the size the node is dropped; the size is never exceeded |
| RouterBucket.AddNodeValid | src/router/bucket.rs:20-27 | a bounded sorted bucket stays bounded and sorted, and grows by one exactly when there was room |
| RouterBucket.ReversedPop | src/router/bucket.rs:52-57 | reverse, pop, reverse removes the first node and pops it |
| RouterBucket.Bucket.constructor | src/router/bucket.rs:13-18 | a new bucket is empty with the given size |
| RouterBucket.Bucket.Add | src/router/bucket.rs:20-27 | performs `AddNode` in place and keeps the bucket valid |
| RouterBucket.Bucket.First | src/router/bucket.rs:29-34 | the prefix of length `min(n, len)` |
| RouterBucket.Bucket.Len | src/router/bucket.rs:36-38 | the number of nodes |
| RouterBucket.Bucket.All | src/router/bucket.rs:40-46 | a copy of the nodes in order |
| RouterBucket.Bucket.Next | src/router/bucket.rs:52-57 | removes and returns the first node, none when empty |
| RouterTable.SortNodes | src/router/table.rs:67-71 | `sort` is a permutation ordered by non-decreasing distance from the target |
| RouterTable.JoinedFacts | src/router/table.rs:59-65 | `join` holds every node of every bucket, each bucket's nodes at least as often as that bucket, and nothing else |
| RouterTable.JoinedMultiset | src/router/table.rs:59-65 | the multiset of `join` is exactly the sum of the buckets' multisets |
| RouterTable.GetAllFacts | src/router/table.rs:52-57 | `get_all` returns at most `count` known nodes, closest to the target first |
| RouterTable.GetFacts | src/router/table.rs:42-50 | `get` returns at most `count` nodes, all known |
| RouterTable.Table.constructor | src/router/table.rs:15-24 | 255 empty buckets, for the indices 0 to 254, each its own object |
| RouterTable.Table.Add | src/router/table.rs:26-29 | the node goes into the bucket of its index and no other bucket changes; index 255 or more panics |
| RouterTable.Table.Join | src/router/table.rs:59-65 | the buckets' nodes one after the other |
| RouterTable.Table.GetAll | src/router/table.rs:52-57 | returns `GetAllSpec` of the buckets |
| RouterTable.Table.Get | src/router/table.rs:42-50 | the first `count` nodes of the target's bucket when it has that many, otherwise `get_all`; a missing bucket panics |
| Switch.BulkBytes | src/switch.rs:388-392 | the subscriber list body is the concatenated keys, and reads back as the list |
| Switch.DispatchFacts | src/switch.rs:228-290 | for the centre, Subscribe and Unsubscribe change nothing; elsewhere every other class is re-sent unchanged and alone; only a remote Subscribe or Unsubscribe changes the records; the switch dies exactly on a Details message for the centre whose body makes `Node::from_bytes` panic, and stays dead |
| Switch.DispatchLocal | src/switch.rs:231-260 | a transaction for the centre only appends outputs, apart from ending the switch |
| Switch.DetailsShortLinkHalts | src/switch.rs:328-337 | a Details body of 33 bytes or of 35 to 41 bytes makes `Node::from_bytes` panic (its link part is shorter than eight bytes) and ends the switch |
| Switch.HaltedIsFinal | src/switch.rs:84-290 | once the switch thread has died no transaction, user action, signalling action or topic command has any effect |
| Switch.PingReplyFacts | src/switch.rs:295-326 | a ping or lookup is answered with one Details message to the source whose body decodes as the centre node |
| Switch.DetailsRoundTrip | src/switch.rs:328-337 | the asking node accepts that reply: it learns the centre node and reports a pong from it |
| Switch.ActionFacts | src/switch.rs:339-352 | an action goes to the topic's channel when the topic is local, otherwise to the user |
| Switch.SubscriberFacts | src/switch.rs:354-365 | one Subscriber command per body address other than the centre, in order, and nothing for a topic that is not local |
| Switch.SubscribeSendFacts | src/switch.rs:393-410 | one subscriber of the loop: others get one Subscriber message, the centre means the list on the local channel |
| Switch.SubscribeSendsEmits | src/switch.rs:393-410 | the loop sends one Subscriber message to every subscriber other than the centre, in order |
| Switch.SubscribeSendsNotified | src/switch.rs:393-410 | the local channel gets the list exactly once when the centre subscribes and the topic is local |
| Switch.SubscribeNewTopic | src/switch.rs:413-422 | an unknown topic gets a record whose only subscriber is the source, and the source alone gets an empty Subscriber message |
| Switch.SubscribeKnownTopic | src/switch.rs:384-411 | a known topic gains the source without duplicates, and every subscriber but the centre is sent the full list of subscriber keys |
| Switch.SubscribeRecords | src/switch.rs:384-387 | the records change through `RecordBucket::subscribe` of the source |
| Switch.UnsubscribeSendsFacts | src/switch.rs:436-468 | one Unsubscriber message per subscriber other than the source, listing those, and on a local topic the others than the centre on its channel |
| Switch.UnsubscribeRecords | src/switch.rs:434-438 | the records change through `RecordBucket::unsubscribe` of the source |
| Switch.UnsubscribeFacts | src/switch.rs:426-472 | no record means no effect; otherwise the source is removed and every other former subscriber is told the remaining list |
| Switch.EffectFrames | src/switch.rs:375-472 | neither handler changes the topics or loses an output |
| Switch.SubscribeThenUnsubscribe | src/switch.rs:375-472 | a new subscriber subscribing then unsubscribing leaves the records as they were |
| Switch.SubscribeUnsubscribeIn | src/switch.rs:375-472 | the same for the bucket operations the two handlers call |
| Switch.SignalingFacts | src/switch.rs:195-225 | a ping or lookup action is sent as the transaction `to_transaction` builds with its uuid; other actions are ignored |
| Switch.InterfaceSubscribeFacts | src/switch.rs:89-126 | a user subscription makes the topic local, and when it should be local its record lists the centre |
| Switch.PollOneFacts | src/switch.rs:128-193 | polling one topic leaves the topics alone and marks it exactly when its command is a drop |
| Switch.PollFoldFacts | src/switch.rs:128-193 | the polling loop marks the last topic whose command is a drop |
| Switch.PollRemovesOne | src/switch.rs:128-193 | one round of polling removes at most one topic, the last one dropped, keeping the others in order |
| Switch.Switch.constructor | src/switch.rs:59-77 | a new switch has no topics, has sent nothing and is running |
| Switch.Switch.HandlePing | src/switch.rs:295-307 | appends one Details reply |
| Switch.Switch.HandleLookup | src/switch.rs:314-326 | appends the same reply as a ping |
| Switch.Switch.HandlePong | src/switch.rs:309-312 | performs `PongEffect` |
| Switch.Switch.HandleDetails | src/switch.rs:328-337 | performs `DetailsEffect`: learn and report a pong, drop an invalid body, or end the switch on a panicking one |
| Switch.Switch.HandleAction | src/switch.rs:339-352 | performs `ActionEffect` |
| Switch.Switch.HandleSubscriber | src/switch.rs:354-365 | appends the `SubscriberOutputs` |
| Switch.Switch.NotifyOthers | src/switch.rs:358-363 | the loop sends every address but the centre to the channel |
| Switch.Switch.HandleUnsubscriber | src/switch.rs:367-373 | appends the `UnsubscriberOutputs` |
| Switch.Switch.NotifyAll | src/switch.rs:396-398 | the inner loop sends every subscriber to the channel |
| Switch.Switch.SendSubscribers | src/switch.rs:393-411 | the outer loop appends `SubscribeSends` |
| Switch.Switch.HandleSubscribe | src/switch.rs:375-424 | performs `SubscribeEffect` on the records and the outputs |
| Switch.Switch.OthersOf | src/switch.rs:440-444 | the subscribers other than the source |
| Switch.Switch.SendUnsubscribers | src/switch.rs:456-468 | one Unsubscriber message to each former subscriber other than the source |
| Switch.Switch.SendUnsubscribe | src/switch.rs:437-468 | appends `UnsubscribeSends` |
| Switch.Switch.HandleUnsubscribe | src/switch.rs:426-472 | performs `UnsubscribeEffect` on the records and the outputs |
| Switch.Switch.Dispatch | src/switch.rs:228-290 | performs `DispatchEffect`, and does nothing once the switch has died |
| Switch.Switch.Interface | src/switch.rs:89-126 | performs `InterfaceEffect`; false after a shutdown |
| Switch.Switch.FromSignaling | src/switch.rs:195-225 | performs `SignalingEffect` |
| Switch.Switch.PollTopics | src/switch.rs:128-193 | performs `PollEffect` and keeps topic addresses unique |

## Left out

- **Sockets.** Socket I/O is not modelled: `Listener`, `Handler::read_wire`/`read_node`/`write_node`, and the TCP modules. A received frame is an input of `Handler.Spawn`; a sent one is an output.
- **Threads and channels.** The threads, mpsc channels and their scheduling are not modelled: `Switch::start`'s `thread::spawn` and `try_recv` polling, `Signaling::start`, and `Topic::recv`/`broadcast`. Each step of the switch loop is one method, and the contents of the channels are parameters.
- **Mutexes.** Mutexes and their poisoned-lock `Err` branches are not modelled. The shared `Cache` is one object reached by reference.
- **Cryptography.** Keys are opaque 32-byte sequences. `Center::new`/`from_config`, `Address::new`/`generate`, `ToAddress for String` and `router/address.rs` `Address::new` are left out, because they call sodiumoxide and blake3.
- **Clock and randomness.** Uuids, creation times and clock readings are parameters: `Uuid::new_v4`, `SystemTime`, `Address::random`, `Transaction::new`/`age`. The dropper's random initial address in the topic poll is never read before a drop is seen, so it is not modelled.
- **Helpers without bodies.** The helpers whose bodies are not part of this model are function-typed parameters:
  - `util::compute_length` and `integer` (`Nodes.LengthCodec`; their round trip is the assumption `Inverse`);
  - `Message::len` and `Seed::as_bytes` (`Transactions.FrameHelpers`);
  - `Wire::is_empty`;
  - `Transaction::topic`, taken to return the fourth argument of `Message::new` (the field `Transactions.Message.topic`). The `Message::new` in `src/message.rs` takes a `Seed` in that place, so this reading is an assumption; `handle_action`, `handle_subscriber`, `handle_unsubscriber` and `handle_subscribe` branch on it;
  - `Safe::should_be_local` and `TopicBucket::is_local` (`Switch.Context`);
  - `Node::refresh`, the node order and `Node::bucket` of the older routing code (`RouterBucket.NodeOps`).
- Nodes.DecodeBulkRoundTrip: holds only when the length helpers are inverse, because their bodies are not part of this model.
- **Routing table handle.** `handle_details` learns a node through `table.add` of the shared routing table, which is recorded as the output `Learn(node)` rather than performed.
- **Wire conversion.** `Wire::convert` and `Transaction::from_bytes` are not modelled: they parse the body as a `Message` through helpers that are not part of this model. What a receiver reads back from a frame is stated by `Transactions.TransactionBytesRoundTrip`.
- **Mutable find.** `Bucket::find_mut` is not modelled: it returns a mutable reference, and no core operation uses it.
- **Table::run.** `Table::run` is not modelled: it calls a caller-supplied closure for each node.
- RouterTable.Table.Join: ascending bucket order stands for the unspecified `HashMap` iteration order of the source. The contracts (`RouterTable.JoinedFacts`, `RouterTable.JoinedMultiset`) speak only of membership and multiplicity, which do not depend on that order.
- Buckets.AddBound: assumes the bucket is within its limit beforehand, and so does Buckets.TryAddBound. The class invariant `Valid` guarantees this for every bucket built by `Bucket::new`.
- **Integer widths.** Ports are 64-bit (`usize` on the 64-bit targets), and the older code's ports are 16-bit. Attempt counters and timestamps are unbounded integers; the source's `u64` never wraps in practice.
