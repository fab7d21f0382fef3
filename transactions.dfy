/** Transactions and their wire frame (`src/transaction.rs`): the class code table,
    the fixed-offset `Wire` frame and its byte codec, and the conversion of a
    transaction into a frame. */
module Transactions {
  import opened Wrappers
  import opened Bytes
  import opened Nodes

  /** The kind of a message. */
  datatype Class =
    Ping | Pong | Lookup | Details | Action | Subscribe | Unsubscribe | Subscriber | Unsubscriber

  /** `Class::as_bytes`: the four-byte code of each class. */
  function ClassAsBytes(c: Class): Bytes4
  {
    match c
    case Ping => [0, 0, 0, 1]
    case Pong => [0, 0, 0, 2]
    case Lookup => [0, 0, 1, 0]
    case Details => [0, 0, 1, 1]
    case Subscribe => [0, 1, 0, 0]
    case Unsubscribe => [0, 1, 0, 1]
    case Subscriber => [0, 1, 0, 2]
    case Unsubscriber => [0, 1, 0, 3]
    case Action => [1, 0, 0, 1]
  }

  /** `Class::from_bytes`: a code is accepted exactly when it is the code of some
      class, and then it names that class; every other code is `Invalid`. */
  function ClassFromBytes(raw: Bytes4): (r: Result<Class>)
    ensures r.Ok? ==> ClassAsBytes(r.value) == raw
    ensures r.Err? ==> r.error == Invalid && forall c: Class :: ClassAsBytes(c) != raw
  {
    if raw == [0, 0, 0, 1] then Ok(Ping)
    else if raw == [0, 0, 0, 2] then Ok(Pong)
    else if raw == [0, 0, 1, 0] then Ok(Lookup)
    else if raw == [0, 0, 1, 1] then Ok(Details)
    else if raw == [0, 1, 0, 0] then Ok(Subscribe)
    else if raw == [0, 1, 0, 1] then Ok(Unsubscribe)
    else if raw == [0, 1, 0, 2] then Ok(Subscriber)
    else if raw == [0, 1, 0, 3] then Ok(Unsubscriber)
    else if raw == [1, 0, 0, 1] then Ok(Action)
    else Err(Invalid)
  }

  /** Every class reads back from its code, and no two classes share a code. */
  lemma ClassRoundTrip(c: Class, d: Class)
    ensures ClassFromBytes(ClassAsBytes(c)) == Ok(c)
    ensures ClassAsBytes(c) == ClassAsBytes(d) ==> c == d
  {
  }

  // ---------------------------------------------------------------
  // Wire frame
  // ---------------------------------------------------------------

  /** The frame sent over a connection. On the wire the fields follow in the order
      length, class, source, target, uuid, nonce, body. */
  datatype Wire = Wire(length: Bytes2, uuid: Bytes16, classCode: Bytes4, source: Bytes32,
                       target: Bytes32, nonce: Bytes24, body: seq<Byte>)

  /** Size of the fixed part of a frame. */
  const Header: nat := 110

  /** `Wire::as_bytes`. */
  function WireAsBytes(w: Wire): (r: seq<Byte>)
    ensures |r| == Header + |w.body|
    ensures r[0..2] == w.length && r[2..6] == w.classCode && r[6..38] == w.source
    ensures r[38..70] == w.target && r[70..86] == w.uuid && r[86..110] == w.nonce
    ensures r[110..] == w.body
  {
    w.length + w.classCode + w.source + w.target + w.uuid + w.nonce + w.body
  }

  /** What `Wire::from_bytes` returns: 81 bytes or fewer are invalid; otherwise
      every field is read at its fixed offset, a field that runs past the end of
      the input keeps zeros there, and the body is whatever follows byte 109. */
  function ParseWire(raw: seq<Byte>): (r: Result<Wire>)
    ensures r.Err? <==> |raw| <= 81
    ensures r.Err? ==> r.error == Invalid
  {
    if |raw| <= 81 then Err(Invalid)
    else Ok(Wire(Slot(raw, 0, 2), Slot(raw, 70, 16), Slot(raw, 2, 4), Slot(raw, 6, 32),
                 Slot(raw, 38, 32), Slot(raw, 86, 24), Span(raw, Header, |raw|)))
  }

  /** The field buffer `a` at `offset` after the first `i` input bytes: the bytes
      read so far are in place and the rest are still zero. */
  ghost predicate Filled(a: array<Byte>, raw: seq<Byte>, offset: nat, i: nat)
    reads a
  {
    forall k :: 0 <= k < a.Length ==> a[k] == if offset + k < i && offset + k < |raw| then raw[offset + k] else 0
  }

  /** A zeroed buffer of `n` bytes for the field at `offset`. */
  method Zeroed(n: nat, ghost raw: seq<Byte>, ghost offset: nat) returns (a: array<Byte>)
    ensures fresh(a) && a.Length == n && Filled(a, raw, offset, 0)
  {
    a := new Byte[n](_ => 0);
  }

  /** A byte outside the buffer's field leaves the buffer as it is. */
  lemma FilledStep(a: array<Byte>, raw: seq<Byte>, offset: nat, i: nat)
    requires Filled(a, raw, offset, i) && !(offset <= i < offset + a.Length)
    ensures Filled(a, raw, offset, i + 1)
  {
  }

  /** A byte inside the buffer's field is copied to its place. */
  method Fill(a: array<Byte>, raw: seq<Byte>, offset: nat, i: nat)
    requires offset <= i < offset + a.Length && i < |raw| && Filled(a, raw, offset, i)
    modifies a
    ensures Filled(a, raw, offset, i + 1)
  {
    a[i - offset] := raw[i];
  }

  /** One byte of `Wire::from_bytes` for the buffers: a header byte is copied into
      the buffer whose field holds its position; a body byte changes none. */
  method Place(length: array<Byte>, classBuf: array<Byte>, source: array<Byte>, target: array<Byte>,
               uuid: array<Byte>, nonce: array<Byte>, raw: seq<Byte>, i: nat)
    requires i < |raw| && source != target
    requires length.Length == 2 && classBuf.Length == 4 && source.Length == 32
    requires target.Length == 32 && uuid.Length == 16 && nonce.Length == 24
    requires Filled(length, raw, 0, i) && Filled(classBuf, raw, 2, i) && Filled(source, raw, 6, i)
    requires Filled(target, raw, 38, i) && Filled(uuid, raw, 70, i) && Filled(nonce, raw, 86, i)
    modifies length, classBuf, source, target, uuid, nonce
    ensures Filled(length, raw, 0, i + 1) && Filled(classBuf, raw, 2, i + 1) && Filled(source, raw, 6, i + 1)
    ensures Filled(target, raw, 38, i + 1) && Filled(uuid, raw, 70, i + 1) && Filled(nonce, raw, 86, i + 1)
  {
    if !(i < 2) { FilledStep(length, raw, 0, i); }
    if !(2 <= i < 6) { FilledStep(classBuf, raw, 2, i); }
    if !(6 <= i < 38) { FilledStep(source, raw, 6, i); }
    if !(38 <= i < 70) { FilledStep(target, raw, 38, i); }
    if !(70 <= i < 86) { FilledStep(uuid, raw, 70, i); }
    if !(86 <= i < 110) { FilledStep(nonce, raw, 86, i); }
    if i <= 1 {
      Fill(length, raw, 0, i);
    } else if i <= 5 {
      Fill(classBuf, raw, 2, i);
    } else if i <= 37 {
      Fill(source, raw, 6, i);
    } else if i <= 69 {
      Fill(target, raw, 38, i);
    } else if i <= 85 {
      Fill(uuid, raw, 70, i);
    } else if i <= 109 {
      Fill(nonce, raw, 86, i);
    }
  }

  lemma FilledSlot(a: array<Byte>, raw: seq<Byte>, offset: nat)
    requires Filled(a, raw, offset, |raw|)
    ensures a[..] == Slot(raw, offset, a.Length)
  {
  }

  /** Buffers filled from the whole input hold the fields `ParseWire` reads. */
  lemma FilledWire(length: array<Byte>, classBuf: array<Byte>, source: array<Byte>, target: array<Byte>,
                   uuid: array<Byte>, nonce: array<Byte>, raw: seq<Byte>, body: seq<Byte>)
    requires |raw| > 81 && body == Span(raw, Header, |raw|)
    requires length.Length == 2 && classBuf.Length == 4 && source.Length == 32
    requires target.Length == 32 && uuid.Length == 16 && nonce.Length == 24
    requires Filled(length, raw, 0, |raw|) && Filled(classBuf, raw, 2, |raw|) && Filled(source, raw, 6, |raw|)
    requires Filled(target, raw, 38, |raw|) && Filled(uuid, raw, 70, |raw|) && Filled(nonce, raw, 86, |raw|)
    ensures ParseWire(raw) == Ok(Wire(length[..], uuid[..], classBuf[..], source[..], target[..], nonce[..], body))
  {
    FilledSlot(length, raw, 0);
    FilledSlot(classBuf, raw, 2);
    FilledSlot(source, raw, 6);
    FilledSlot(target, raw, 38);
    FilledSlot(uuid, raw, 70);
    FilledSlot(nonce, raw, 86);
  }

  /** `Wire::from_bytes`: one pass over the input fills the zeroed field buffers by
      position and pushes every byte from 110 on onto the body. */
  method WireFromBytes(raw: seq<Byte>) returns (r: Result<Wire>)
    ensures r == ParseWire(raw)
  {
    if |raw| <= 81 {
      return Err(Invalid);
    }
    var length := Zeroed(2, raw, 0);
    var classBuf := Zeroed(4, raw, 2);
    var source := Zeroed(32, raw, 6);
    var target := Zeroed(32, raw, 38);
    var uuid := Zeroed(16, raw, 70);
    var nonce := Zeroed(24, raw, 86);
    var body: seq<Byte> := [];
    for i := 0 to |raw|
      invariant Filled(length, raw, 0, i) && Filled(classBuf, raw, 2, i) && Filled(source, raw, 6, i)
      invariant Filled(target, raw, 38, i) && Filled(uuid, raw, 70, i) && Filled(nonce, raw, 86, i)
      invariant body == if i <= Header then [] else raw[Header..i]
    {
      Place(length, classBuf, source, target, uuid, nonce, raw, i);
      if i >= Header {
        body := body + [raw[i]];
      }
    }
    assert body == Span(raw, Header, |raw|);
    FilledWire(length, classBuf, source, target, uuid, nonce, raw, body);
    r := Ok(Wire(length[..], uuid[..], classBuf[..], source[..], target[..], nonce[..], body));
  }

  /** From 110 bytes on, every field sits at its documented offset and the body is
      the rest. */
  lemma WireOffsets(raw: seq<Byte>)
    requires |raw| >= Header
    ensures var w := ParseWire(raw).value;
      w.length == raw[0..2] && w.classCode == raw[2..6] && w.source == raw[6..38] &&
      w.target == raw[38..70] && w.uuid == raw[70..86] && w.nonce == raw[86..110] &&
      w.body == raw[110..]
  {
  }

  /** Between 82 and 109 bytes the frame is accepted: the body is empty and every
      field byte past the end of the input is zero. */
  lemma WireShort(raw: seq<Byte>)
    requires 81 < |raw| < Header
    ensures ParseWire(raw).Ok?
    ensures var w := ParseWire(raw).value;
      w.body == [] && w.length == raw[0..2] && w.classCode == raw[2..6] && w.source == raw[6..38] &&
      (forall k :: 0 <= k < 32 ==> w.target[k] == if 38 + k < |raw| then raw[38 + k] else 0) &&
      (forall k :: 0 <= k < 16 ==> w.uuid[k] == if 70 + k < |raw| then raw[70 + k] else 0) &&
      (forall k :: 0 <= k < 24 ==> w.nonce[k] == if 86 + k < |raw| then raw[86 + k] else 0)
  {
  }

  /** Parsing then serialising a frame of at least 110 bytes gives the input back. */
  lemma WireBytesRoundTrip(raw: seq<Byte>)
    requires |raw| >= Header
    ensures WireAsBytes(ParseWire(raw).value) == raw
  {
    var b := WireAsBytes(ParseWire(raw).value);
    assert b == raw[0..2] + raw[2..6] + raw[6..38] + raw[38..70] + raw[70..86] + raw[86..110] + raw[110..];
    assert raw == raw[0..2] + raw[2..6] + raw[6..38] + raw[38..70] + raw[70..86] + raw[86..110] + raw[110..];
  }

  /** Serialising then parsing a frame gives the frame back. */
  lemma WireRoundTrip(w: Wire)
    ensures ParseWire(WireAsBytes(w)) == Ok(w)
  {
    var b := WireAsBytes(w);
    assert Slot(b, 0, 2) == w.length;
    assert Slot(b, 2, 4) == w.classCode;
    assert Slot(b, 6, 32) == w.source;
    assert Slot(b, 38, 32) == w.target;
    assert Slot(b, 70, 16) == w.uuid;
    assert Slot(b, 86, 24) == w.nonce;
    assert Span(b, Header, |b|) == w.body;
  }

  // ---------------------------------------------------------------
  // Messages and transactions
  // ---------------------------------------------------------------

  /** A message as the switch builds it with `Message::new(class, source, target,
      topic, body)`; `Transaction::topic` returns the fourth argument. */
  datatype Message = Message(kind: Class, source: Address, target: Address, topic: Address, body: seq<Byte>)

  /** A transaction: a unique id, when it was created and its message. */
  datatype Transaction = Transaction(uuid: Bytes16, created: int, message: Message)

  /** The helpers the frame conversion calls whose bodies are not part of this
      model: `Message::len` and `Seed::as_bytes`. */
  datatype FrameHelpers = FrameHelpers(len: Message -> Bytes2, nonce: Message -> Bytes24)

  /** `Transaction::to_wire`. */
  function ToWire(t: Transaction, f: FrameHelpers): (w: Wire)
    ensures w.uuid == t.uuid && w.body == t.message.body
    ensures w.source == t.message.source.key && w.target == t.message.target.key
    ensures ClassFromBytes(w.classCode) == Ok(t.message.kind)
  {
    ClassRoundTrip(t.message.kind, t.message.kind);
    Wire(f.len(t.message), t.uuid, ClassAsBytes(t.message.kind), t.message.source.key,
         t.message.target.key, f.nonce(t.message), t.message.body)
  }

  /** `Transaction::as_bytes`. */
  function TransactionAsBytes(t: Transaction, f: FrameHelpers): (r: seq<Byte>)
    ensures |r| == Header + |t.message.body|
  {
    WireAsBytes(ToWire(t, f))
  }

  /** A receiver reads back the uuid, class, source, target and body of a sent
      transaction from its bytes. */
  lemma TransactionBytesRoundTrip(t: Transaction, f: FrameHelpers)
    ensures ParseWire(TransactionAsBytes(t, f)).Ok?
    ensures var w := ParseWire(TransactionAsBytes(t, f)).value;
      w.uuid == t.uuid && ClassFromBytes(w.classCode) == Ok(t.message.kind) &&
      AddressFromSlice(w.source) == Ok(t.message.source) &&
      AddressFromSlice(w.target) == Ok(t.message.target) && w.body == t.message.body
  {
    WireRoundTrip(ToWire(t, f));
  }

  /** Transactions are equal when their uuids are. */
  predicate SameTransaction(a: Transaction, b: Transaction)
  {
    a.uuid == b.uuid
  }

  /** `Transaction::redirect`: a copy with only the message target changed. */
  function Redirect(t: Transaction, target: Address): (r: Transaction)
    ensures r.message.target == target
    ensures r.uuid == t.uuid && r.created == t.created
    ensures r.message.kind == t.message.kind && r.message.source == t.message.source
    ensures r.message.topic == t.message.topic && r.message.body == t.message.body
  {
    t.(message := t.message.(target := target))
  }

  /** A redirected copy is the same transaction (same uuid), so duplicate filtering
      treats it as the original; redirecting to the old target changes nothing. */
  lemma RedirectSame(t: Transaction, target: Address)
    ensures SameTransaction(Redirect(t, target), t)
    ensures Redirect(t, t.message.target) == t
  {
  }
}
