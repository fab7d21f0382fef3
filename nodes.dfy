/** Members of the network (`src/node.rs`): addresses and their XOR distance, the
    connection details of a node (its `Link`) and the byte codecs of links, nodes,
    bulk node lists and bulk address lists. */
module Nodes {
  import opened Wrappers
  import opened Bytes

  // ---------------------------------------------------------------
  // Address
  // ---------------------------------------------------------------

  /** A routing address: a 32-byte public key, treated as opaque bytes. */
  datatype Address = Address(key: Bytes32)

  /** The number an address denotes, most significant byte first. */
  function AddressKey(a: Address): int
  {
    BigEndian(a.key)
  }

  /** The derived order on addresses (lexicographic on the key bytes) is the order
      of their keys, and two addresses have one key only if they are equal. */
  lemma AddressKeyOrder(a: Address, b: Address)
    ensures LexCompare(a.key, b.key) == CompareInt(AddressKey(a), AddressKey(b))
    ensures AddressKey(a) == AddressKey(b) <==> a == b
  {
    LexCompareIsNumeric(a.key, b.key);
    if AddressKey(a) == AddressKey(b) {
      BigEndianInjective(a.key, b.key);
    }
  }

  /** `Address::from_slice`: a public key is built from exactly 32 bytes. */
  function AddressFromSlice(s: seq<Byte>): (r: Result<Address>)
    ensures r.Ok? <==> |s| == 32
    ensures r.Ok? ==> r.value.key == s
    ensures r.Err? ==> r.error == Invalid
  {
    if |s| == 32 then Ok(Address(s)) else Err(Invalid)
  }

  /** `Address::default`. */
  function DefaultAddress(): Address
  {
    Address(Zeros(32))
  }

  /** `Address::as_bytes` copies the 32 key bytes into a fresh array. */
  method AddressAsBytes(a: Address) returns (bytes: Bytes32)
    ensures AddressFromSlice(bytes) == Ok(a)
  {
    var buf := new Byte[32](_ => 0);
    for i := 0 to 32
      invariant forall k :: 0 <= k < i ==> buf[k] == a.key[k]
    {
      buf[i] := a.key[i];
    }
    assert buf[..] == a.key;
    bytes := buf[..];
  }

  /** The byte string of a list of addresses, one 32-byte key after the other (the
      Subscriber message bodies the switch builds). */
  function Concat(addrs: seq<Address>): (r: seq<Byte>)
    ensures |r| == 32 * |addrs|
  {
    if addrs == [] then [] else addrs[0].key + Concat(addrs[1..])
  }

  /** `chunks_exact(32)` turned into addresses: a trailing partial chunk is dropped. */
  function Chunks(data: seq<Byte>): seq<Address>
    decreases |data|
  {
    if |data| < 32 then [] else [Address(data[..32])] + Chunks(data[32..])
  }

  /** `Address::from_bulk` yields `|data| / 32` addresses, the i-th made of bytes
      `32 * i .. 32 * i + 32`. */
  lemma {:induction false} ChunksShape(data: seq<Byte>)
    ensures |Chunks(data)| == |data| / 32
    ensures forall i :: 0 <= i < |Chunks(data)| ==> Chunks(data)[i].key == data[32 * i .. 32 * i + 32]
    decreases |data|
  {
    if |data| >= 32 {
      ChunksShape(data[32..]);
      var c := Chunks(data);
      forall i | 0 <= i < |c| ensures c[i].key == data[32 * i .. 32 * i + 32] {
        if i > 0 {
          assert c[i] == Chunks(data[32..])[i - 1];
          assert data[32..][32 * (i - 1) .. 32 * (i - 1) + 32] == data[32 * i .. 32 * i + 32];
        }
      }
    }
  }

  /** Reading back the concatenation of a list of addresses gives the list. */
  lemma {:induction false} ChunksConcat(addrs: seq<Address>)
    ensures Chunks(Concat(addrs)) == addrs
  {
    if addrs != [] {
      var c := Concat(addrs);
      assert c[..32] == addrs[0].key;
      assert c[32..] == Concat(addrs[1..]);
      ChunksConcat(addrs[1..]);
      assert addrs == [addrs[0]] + addrs[1..];
    }
  }

  /** `Address::from_bulk`: walk the 32-byte chunks and push each address. */
  method FromBulk(data: seq<Byte>) returns (ret: seq<Address>)
    ensures ret == Chunks(data)
  {
    ret := [];
    var i := 0;
    while i + 32 <= |data|
      invariant 0 <= i <= |data|
      invariant Chunks(data) == ret + Chunks(data[i..])
      decreases |data| - i
    {
      assert data[i..][32..] == data[i + 32..];
      assert data[i..][..32] == data[i..i + 32];
      ret := ret + [Address(data[i..i + 32])];
      i := i + 32;
    }
  }

  // ---------------------------------------------------------------
  // XOR distance
  // ---------------------------------------------------------------

  /** `a ^ b`: bytes 0 to 30 XORed, byte 31 left at zero (the loop runs `0..31`). */
  function XorOf(a: Address, b: Address): (r: Bytes32)
  {
    seq(32, i requires 0 <= i < 32 => if i < 31 then Xor(a.key[i], b.key[i]) else 0)
  }

  /** `impl BitXor for Address`: fills a zeroed array in a loop over `0..31`. */
  method BitXor(a: Address, b: Address) returns (bytes: Bytes32)
    ensures bytes == XorOf(a, b)
  {
    var buf := new Byte[32](_ => 0);
    for i := 0 to 31
      invariant forall k :: 0 <= k < i ==> buf[k] == Xor(a.key[k], b.key[k])
      invariant forall k :: i <= k < 32 ==> buf[k] == 0
    {
      buf[i] := Xor(a.key[i], b.key[i]);
    }
    bytes := buf[..];
  }

  /** XOR of an address with itself is all zero, XOR is symmetric, and byte 31 of
      every XOR is zero. */
  lemma XorFacts(a: Address, b: Address)
    ensures XorOf(a, a) == Zeros(32)
    ensures XorOf(a, b) == XorOf(b, a)
    ensures XorOf(a, b)[31] == 0
  {
    forall i | 0 <= i < 31 ensures XorOf(a, a)[i] == 0 && XorOf(a, b)[i] == XorOf(b, a)[i] {
      XorProperties(a.key[i], b.key[i]);
      XorProperties(a.key[i], a.key[i]);
    }
  }

  /** The centre of the local overlay: its public address and its own link. */
  datatype Center = Center(public: Address, link: Link)

  /** `Address::bucket`: byte 0 of the XOR with the centre. */
  function BucketIndex(a: Address, center: Center): (r: nat)
    ensures r < 256
    ensures r == XorOf(a, center.public)[0]
  {
    Xor(a.key[0], center.public.key[0])
  }

  /** The centre's own address falls into bucket 0. */
  lemma BucketIndexCenter(center: Center)
    ensures BucketIndex(center.public, center) == 0
  {
    XorProperties(center.public.key[0], center.public.key[0]);
  }

  // ---------------------------------------------------------------
  // ToAddress for usize
  // ---------------------------------------------------------------

  /** `to_be_bytes`: the `k` low bytes of `n`, most significant first. */
  function BigEndianBytes(n: nat, k: nat): (r: seq<Byte>)
    ensures |r| == k
  {
    if k == 0 then [] else BigEndianBytes(n / 256, k - 1) + [n % 256]
  }

  lemma {:induction false} BigEndianSnoc(s: seq<Byte>, b: Byte)
    ensures BigEndian(s + [b]) == 256 * BigEndian(s) + b
  {
    if s != [] {
      assert (s + [b])[1..] == s[1..] + [b];
      BigEndianSnoc(s[1..], b);
      assert Pow256(|s|) == 256 * Pow256(|s| - 1);
    }
  }

  /** Reading the big-endian bytes of a number that fits gives it back. */
  lemma {:induction false} BigEndianBytesRoundTrip(n: nat, k: nat)
    requires n < Pow256(k)
    ensures BigEndian(BigEndianBytes(n, k)) == n
  {
    if k > 0 {
      assert n / 256 < Pow256(k - 1);
      BigEndianBytesRoundTrip(n / 256, k - 1);
      BigEndianSnoc(BigEndianBytes(n / 256, k - 1), n % 256);
    }
  }

  /** `ToAddress for usize`: the eight big-endian bytes, then zeros. */
  method UsizeToAddress(n: U64) returns (a: Address)
    ensures a.key[..8] == BigEndianBytes(n, 8)
    ensures a.key[8..] == Zeros(24)
  {
    var conv := BigEndianBytes(n, 8);
    var buf := new Byte[32](_ => 0);
    for i := 0 to 8
      invariant forall k :: 0 <= k < i ==> buf[k] == conv[k]
      invariant forall k :: 8 <= k < 32 ==> buf[k] == 0
    {
      buf[i] := conv[i];
    }
    a := Address(buf[..]);
  }

  /** Distinct numbers give distinct addresses: the first eight bytes read back as
      the number. */
  lemma UsizeAddressDecodes(n: U64, a: Address)
    requires a.key[..8] == BigEndianBytes(n, 8)
    ensures BigEndian(a.key[..8]) == n
  {
    assert Pow256(8) == 0x1_0000_0000_0000_0000;
    BigEndianBytesRoundTrip(n, 8);
  }

  // ---------------------------------------------------------------
  // Link
  // ---------------------------------------------------------------

  /** Connection details: an ip text, a port, whether the node was reached and how
      often that was attempted. */
  datatype Link = Link(ip: Utf8String, port: U64, reachable: bool, attempts: nat)

  /** `Link::new`: not reachable, no attempts yet. */
  function NewLink(ip: Utf8String, port: U64): (l: Link)
    ensures l.ip == ip && l.port == port && !l.reachable && l.attempts == 0
  {
    Link(ip, port, false, 0)
  }

  /** `Link::update`: one more attempt, reachability set to `status`, the address
      details untouched. */
  function UpdateLink(l: Link, status: bool): (r: Link)
    ensures r.attempts == l.attempts + 1
    ensures r.reachable == status
    ensures r.ip == l.ip && r.port == l.port
  {
    l.(attempts := l.attempts + 1, reachable := status)
  }

  /** `Link::to_string`: the ip, a colon, then the decimal port. */
  function LinkToString(l: Link): (r: seq<Byte>)
    ensures |r| > |l.ip| && r[..|l.ip|] == l.ip && r[|l.ip|] == Colon
  {
    DecimalRoundTrip(l.port);
    l.ip + [Colon] + Decimal(l.port)
  }

  /** The text after the colon that `to_string` places after the ip is the port,
      in decimal digits only. */
  lemma LinkToStringPort(l: Link)
    ensures var r := LinkToString(l);
      (forall i :: |l.ip| < i < |r| ==> IsDigit(r[i])) && ParseDecimal(r[|l.ip| + 1..]) == l.port
  {
    DecimalRoundTrip(l.port);
    var r := LinkToString(l);
    assert r[|l.ip| + 1..] == Decimal(l.port);
    forall i | |l.ip| < i < |r| ensures IsDigit(r[i]) {
      assert r[i] == Decimal(l.port)[i - |l.ip| - 1];
    }
  }

  /** `Link::as_bytes`: the ip bytes followed by the port, 8 bytes little-endian. */
  function LinkAsBytes(l: Link): (r: seq<Byte>)
    ensures |r| == |l.ip| + 8
  {
    l.ip + LittleEndian(l.port, 8)
  }

  /** What `Link::from_bytes` returns: the last eight bytes are the port and the rest
      must be UTF-8 text; fewer than eight bytes make `split_off` panic. */
  function DecodeLink(data: seq<Byte>): (r: Result<Link>)
    ensures r.Ok? ==> |data| >= 8 && r.value.ip == data[..|data| - 8]
  {
    if |data| < 8 then Err(Panicked)
    else if !ValidUtf8(data[..|data| - 8]) then Err(Invalid)
    else
      FromLittleEndianBound(data[|data| - 8..]);
      assert Pow256(8) == 0x1_0000_0000_0000_0000;
      Ok(NewLink(data[..|data| - 8], FromLittleEndian(data[|data| - 8..])))
  }

  /** `Link::from_bytes`: split off the last eight bytes, check the rest is UTF-8,
      copy the port bytes into a buffer and read them little-endian. */
  method LinkFromBytes(data: seq<Byte>) returns (r: Result<Link>)
    ensures r == DecodeLink(data)
  {
    if |data| < 8 {
      return Err(Panicked);
    }
    var address := data[..|data| - 8];
    var rest := data[|data| - 8..];
    if !ValidUtf8(address) {
      return Err(Invalid);
    }
    var portBytes := new Byte[8](_ => 0);
    for i := 0 to 8
      invariant forall k :: 0 <= k < i ==> portBytes[k] == rest[k]
    {
      portBytes[i] := rest[i];
    }
    assert portBytes[..] == rest;
    FromLittleEndianBound(rest);
    assert Pow256(8) == 0x1_0000_0000_0000_0000;
    r := Ok(NewLink(address, FromLittleEndian(portBytes[..])));
  }

  /** Decoding the bytes of a link gives back its ip and port, as a fresh link. */
  lemma LinkRoundTrip(l: Link)
    ensures DecodeLink(LinkAsBytes(l)) == Ok(NewLink(l.ip, l.port))
  {
    var b := LinkAsBytes(l);
    assert b[..|b| - 8] == l.ip;
    assert b[|b| - 8..] == LittleEndian(l.port, 8);
    assert Pow256(8) == 0x1_0000_0000_0000_0000;
    LittleEndianRoundTrip(l.port, 8);
  }

  /** For a link built by `Link::new` the round trip is exact. */
  lemma NewLinkRoundTrip(ip: Utf8String, port: U64)
    ensures DecodeLink(LinkAsBytes(NewLink(ip, port))) == Ok(NewLink(ip, port))
  {
    LinkRoundTrip(NewLink(ip, port));
  }

  // ---------------------------------------------------------------
  // Node
  // ---------------------------------------------------------------

  /** A known member: when it was created (an integer clock; smaller is older), its
      address and optionally its link. */
  datatype Node = Node(timestamp: int, address: Address, link: Option<Link>)

  /** `Ord for Node`: the older node (smaller timestamp) comes first. */
  function ByTime(n: Node): int
  {
    n.timestamp
  }

  /** The order of `sort_by_address`. */
  function ByAddress(n: Node): int
  {
    AddressKey(n.address)
  }

  /** Nodes compare equal when their addresses do. */
  predicate SameNode(a: Node, b: Node)
  {
    a.address == b.address
  }

  /** `Node::is_reachable`: a node without a link is never reachable. */
  function IsReachable(n: Node): (r: bool)
    ensures r <==> n.link.Some? && n.link.value.reachable
  {
    match n.link
    case Some(l) => l.reachable
    case None => false
  }

  /** `Node::update`: updates the link when there is one and is a no-op otherwise. */
  function UpdateNode(n: Node, status: bool): (r: Node)
    ensures r.address == n.address && r.timestamp == n.timestamp
    ensures n.link.None? ==> r == n
    ensures n.link.Some? ==> r.link == Some(UpdateLink(n.link.value, status))
  {
    match n.link
    case Some(l) => n.(link := Some(UpdateLink(l, status)))
    case None => n
  }

  /** A node with a link that was just updated is reachable iff the update said so. */
  lemma UpdateNodeReachable(n: Node, status: bool)
    ensures IsReachable(UpdateNode(n, status)) <==> n.link.Some? && status
  {
  }

  /** The length helpers the node codec calls (`util::compute_length` and
      `util::integer`), whose bodies are not part of this model. */
  datatype LengthCodec = LengthCodec(compute: seq<Byte> -> Bytes2, integer: Bytes2 -> nat)

  /** The assumption the node codec relies on: the two helpers are inverse for every
      byte string the two length bytes can describe. */
  ghost predicate Inverse(h: LengthCodec)
  {
    forall x: seq<Byte> {:trigger h.compute(x)} :: |x| < 0x1_0000 ==> h.integer(h.compute(x)) == |x|
  }

  /** `Node::as_bytes`: two length bytes, the 32 address bytes, then the link bytes;
      without a link the length bytes are zero. */
  function NodeAsBytes(n: Node, h: LengthCodec): (r: seq<Byte>)
    ensures n.link.None? ==> r == [0, 0] + n.address.key
    ensures n.link.Some? ==>
      r == h.compute(LinkAsBytes(n.link.value)) + n.address.key + LinkAsBytes(n.link.value)
  {
    match n.link
    case Some(l) => h.compute(LinkAsBytes(l)) + n.address.key + LinkAsBytes(l)
    case None => [0, 0] + n.address.key
  }

  /** What `Node::from_bytes` returns at clock `now`: fewer than 32 bytes are
      invalid; 32 bytes are a bare address; 34 bytes an address after two length
      bytes; any other input has the address at bytes 2..33 and the link after it
      (the two length bytes are ignored). */
  function DecodeNode(bytes: seq<Byte>, now: int): (r: Result<Node>)
    ensures |bytes| < 32 ==> r == Err(Invalid)
    ensures |bytes| == 32 ==> r == Ok(Node(now, Address(bytes), None))
    ensures |bytes| == 34 ==> r == Ok(Node(now, Address(bytes[2..]), None))
    ensures |bytes| != 32 && |bytes| != 34 && r.Ok? ==>
      |bytes| > 34 && DecodeLink(bytes[34..]).Ok? &&
      r.value == Node(now, Address(bytes[2..34]), Some(DecodeLink(bytes[34..]).value))
  {
    if |bytes| < 32 then Err(Invalid)
    else if |bytes| == 32 then Ok(Node(now, Address(bytes), None))
    else if |bytes| == 34 then Ok(Node(now, Address(bytes[2..]), None))
    else
      var link := if |bytes| > 34 then bytes[34..] else [];
      match DecodeLink(link)
      case Err(e) => Err(e)
      case Ok(l) => Ok(Node(now, Address(bytes[2..34]), Some(l)))
  }

  /** A node read back from its own bytes has the same address; its link, if any,
      comes back as a fresh link with the same ip and port. */
  lemma NodeRoundTrip(n: Node, h: LengthCodec, now: int)
    ensures DecodeNode(NodeAsBytes(n, h), now).Ok?
    ensures SameNode(DecodeNode(NodeAsBytes(n, h), now).value, n)
    ensures n.link.Some? ==>
      DecodeNode(NodeAsBytes(n, h), now).value.link == Some(NewLink(n.link.value.ip, n.link.value.port))
  {
    var b := NodeAsBytes(n, h);
    if n.link.Some? {
      var lb := LinkAsBytes(n.link.value);
      assert b[2..34] == n.address.key;
      assert b[34..] == lb;
      LinkRoundTrip(n.link.value);
    } else {
      assert b[2..] == n.address.key;
    }
  }

  /** `Node::from_bytes`: copy the bytes into the length buffer, the address buffer
      and the link vector, then decode the link. */
  method NodeFromBytes(bytes: seq<Byte>, now: int) returns (r: Result<Node>)
    ensures r == DecodeNode(bytes, now)
  {
    if |bytes| < 32 {
      return Err(Invalid);
    } else if |bytes| == 32 {
      return Ok(Node(now, Address(bytes), None));
    } else if |bytes| == 34 {
      return Ok(Node(now, Address(bytes[2..]), None));
    }
    var length := new Byte[2](_ => 0);
    var addr := new Byte[32](_ => 0);
    var link: seq<Byte> := [];
    for i := 0 to |bytes|
      invariant forall k :: 0 <= k < 32 && k + 2 < i ==> addr[k] == bytes[k + 2]
      invariant link == if i <= 34 then [] else bytes[34..i]
    {
      if i <= 1 {
        length[i] := bytes[i];
      } else if i <= 33 {
        addr[i - 2] := bytes[i];
      } else {
        link := link + [bytes[i]];
      }
    }
    assert link == if |bytes| > 34 then bytes[34..] else [];
    var l := LinkFromBytes(link);
    match l
    case Err(e) => return Err(e);
    case Ok(v) =>
      assert addr[..] == bytes[2..34];
      return Ok(Node(now, Address(addr[..]), Some(v)));
  }

  // ---------------------------------------------------------------
  // Bulk node lists
  // ---------------------------------------------------------------

  /** What `Node::recursive_parse` returns: each step takes two length bytes, 32
      address bytes, `integer(length)` link bytes, and parses the rest; a link that
      is not UTF-8 drops that node, a link of fewer than eight bytes panics. */
  function ParseNodes(data: seq<Byte>, h: LengthCodec, now: int): (r: Result<seq<Node>>)
    decreases |data|
  {
    if |data| == 0 then Ok([])
    else
      var n := h.integer(Slot(data, 0, 2));
      var rest := Span(data, 34 + n, |data|);
      assert |rest| < |data|;
      match DecodeLink(Span(data, 34, 34 + n))
      case Err(e) => if e == Panicked then Err(Panicked) else ParseNodes(rest, h, now)
      case Ok(l) =>
        match ParseNodes(rest, h, now)
        case Err(e) => Err(e)
        case Ok(tail) => Ok([Node(now, Address(Slot(data, 2, 32)), Some(l))] + tail)
  }

  /** The single pass of `Node::recursive_parse` over its input: the first two
      bytes go to the length buffer, the next 32 to the address buffer, the next
      `integer(length)` to the link and everything after to the rest. */
  method ScanRecord(data: seq<Byte>, h: LengthCodec)
      returns (len: Bytes2, address: Bytes32, link: seq<Byte>, rest: seq<Byte>)
    ensures len == Slot(data, 0, 2) && address == Slot(data, 2, 32)
    ensures link == Span(data, 34, 34 + h.integer(len))
    ensures rest == Span(data, 34 + h.integer(len), |data|)
  {
    var lenBuf := new Byte[2](_ => 0);
    var addrBuf := new Byte[32](_ => 0);
    link, rest := [], [];
    ghost var n := h.integer(Slot(data, 0, 2));
    var i := 0;
    while i < |data|
      invariant 0 <= i <= |data|
      invariant forall k :: 0 <= k < 2 ==> lenBuf[k] == if k < i then data[k] else 0
      invariant forall k :: 0 <= k < 32 ==> addrBuf[k] == if k + 2 < i then data[k + 2] else 0
      invariant link == data[Min(34, i)..Min(i, 34 + n)]
      invariant rest == data[Min(i, 34 + n)..i]
    {
      if i >= 2 {
        assert lenBuf[..] == Slot(data, 0, 2);
      }
      if i < 2 {
        lenBuf[i] := data[i];
      } else if i <= 33 {
        addrBuf[i - 2] := data[i];
      } else if i <= 34 + h.integer(lenBuf[..]) - 1 {
        link := link + [data[i]];
      } else {
        rest := rest + [data[i]];
      }
      i := i + 1;
    }
    len, address := lenBuf[..], addrBuf[..];
    assert len == Slot(data, 0, 2);
    assert address == Slot(data, 2, 32);
  }

  /** `Node::recursive_parse`: scan one record, decode its link, recurse on the rest. */
  method RecursiveParse(data: seq<Byte>, h: LengthCodec, now: int) returns (r: Result<seq<Node>>)
    ensures r == ParseNodes(data, h, now)
    decreases |data|
  {
    if |data| == 0 {
      return Ok([]);
    }
    var len, address, link, rest := ScanRecord(data, h);
    var decoded := LinkFromBytes(link);
    assert |rest| < |data|;
    match decoded
    case Err(e) =>
      if e == Panicked {
        return Err(Panicked);
      }
      r := RecursiveParse(rest, h, now);
    case Ok(l) =>
      var tail := RecursiveParse(rest, h, now);
      match tail
      case Err(e) => return Err(e);
      case Ok(t) => return Ok([Node(now, Address(address), Some(l))] + t);
  }

  /** What `Node::from_bulk` returns: nothing for fewer than 34 bytes, one node for
      exactly 34, otherwise the recursive parse. */
  function DecodeBulk(bytes: seq<Byte>, h: LengthCodec, now: int): (r: Result<seq<Node>>)
    ensures |bytes| < 34 ==> r == Ok([])
    ensures |bytes| == 34 ==> r == Ok([Node(now, Address(bytes[2..]), None)])
  {
    if |bytes| < 34 then Ok([])
    else if |bytes| == 34 then
      match DecodeNode(bytes, now)
      case Ok(n) => Ok([n])
      case Err(_) => ParseNodes(bytes, h, now)
    else ParseNodes(bytes, h, now)
  }

  /** `Node::from_bulk`. */
  method NodeFromBulk(bytes: seq<Byte>, h: LengthCodec, now: int) returns (r: Result<seq<Node>>)
    ensures r == DecodeBulk(bytes, h, now)
  {
    if |bytes| < 34 {
      return Ok([]);
    } else if |bytes| == 34 {
      var n := NodeFromBytes(bytes, now);
      if n.Ok? {
        return Ok([n.value]);
      }
    }
    r := RecursiveParse(bytes, h, now);
  }

  /** The serialisation of a list of nodes, one after the other. */
  function BulkAsBytes(nodes: seq<Node>, h: LengthCodec): seq<Byte>
  {
    if nodes == [] then [] else NodeAsBytes(nodes[0], h) + BulkAsBytes(nodes[1..], h)
  }

  /** A node the bulk codec can carry: it has a link whose bytes fit the two length
      bytes. */
  predicate Carried(n: Node)
  {
    n.link.Some? && |LinkAsBytes(n.link.value)| < 0x1_0000
  }

  /** What the bulk parse gives back for a list of nodes: same addresses, fresh
      links with the same ip and port, clock `now`. */
  function Reparsed(nodes: seq<Node>, now: int): (r: seq<Node>)
    requires forall i :: 0 <= i < |nodes| ==> Carried(nodes[i])
    ensures |r| == |nodes|
    ensures forall i :: 0 <= i < |nodes| ==> SameNode(r[i], nodes[i])
  {
    if nodes == [] then []
    else
      assert Carried(nodes[0]);
      var l := nodes[0].link.value;
      [Node(now, nodes[0].address, Some(NewLink(l.ip, l.port)))] + Reparsed(nodes[1..], now)
  }

  /** One step of the parse: the bytes of a linked node followed by anything parse
      as that node followed by what the rest parses as. */
  lemma ParseNodesCons(n: Node, tail: seq<Byte>, h: LengthCodec, now: int)
    requires Inverse(h) && Carried(n)
    ensures var l := n.link.value;
      ParseNodes(NodeAsBytes(n, h) + tail, h, now) ==
        match ParseNodes(tail, h, now)
        case Err(e) => Err(e)
        case Ok(t) => Ok([Node(now, n.address, Some(NewLink(l.ip, l.port)))] + t)
  {
    var lb := LinkAsBytes(n.link.value);
    var data := NodeAsBytes(n, h) + tail;
    assert data[0..2] == h.compute(lb);
    assert h.integer(h.compute(lb)) == |lb|;
    assert data[34..34 + |lb|] == lb;
    assert data[34 + |lb|..|data|] == tail;
    assert data[2..34] == n.address.key;
    LinkRoundTrip(n.link.value);
  }

  /** Parsing the concatenated bytes of linked nodes gives the nodes back in order,
      given that the length helpers are inverse. */
  lemma {:induction false} ParseNodesBulk(nodes: seq<Node>, h: LengthCodec, now: int)
    requires Inverse(h)
    requires forall i :: 0 <= i < |nodes| ==> Carried(nodes[i])
    ensures ParseNodes(BulkAsBytes(nodes, h), h, now) == Ok(Reparsed(nodes, now))
  {
    if nodes != [] {
      var tail := BulkAsBytes(nodes[1..], h);
      assert BulkAsBytes(nodes, h) == NodeAsBytes(nodes[0], h) + tail;
      ParseNodesBulk(nodes[1..], h, now);
      assert ParseNodes(tail, h, now) == Ok(Reparsed(nodes[1..], now));
      ParseNodesCons(nodes[0], tail, h, now);
      var l := nodes[0].link.value;
      assert Reparsed(nodes, now) == [Node(now, nodes[0].address, Some(NewLink(l.ip, l.port)))] + Reparsed(nodes[1..], now);
    }
  }

  lemma {:induction false} BulkAsBytesLength(nodes: seq<Node>, h: LengthCodec)
    requires forall i :: 0 <= i < |nodes| ==> nodes[i].link.Some?
    ensures |BulkAsBytes(nodes, h)| >= 42 * |nodes|
  {
    if nodes != [] {
      BulkAsBytesLength(nodes[1..], h);
    }
  }

  /** `Node::from_bulk` of the concatenated bytes of linked nodes returns those nodes
      (equal by address) in order. */
  lemma DecodeBulkRoundTrip(nodes: seq<Node>, h: LengthCodec, now: int)
    requires Inverse(h)
    requires forall i :: 0 <= i < |nodes| ==> Carried(nodes[i])
    ensures DecodeBulk(BulkAsBytes(nodes, h), h, now) == Ok(Reparsed(nodes, now))
  {
    BulkAsBytesLength(nodes, h);
    ParseNodesBulk(nodes, h, now);
  }
}
