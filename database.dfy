/** The record splitter of `src/database.rs`: `Database::convert` cuts a byte
    string into consecutive records, each announcing its own length in its first
    two bytes. */
module Database {
  import opened Wrappers
  import opened Bytes

  /** Records are only looked for while at least this many bytes remain. */
  const MinRecord: nat := 42

  /** The length a record announces at `i`: the first header byte counts 255, not
      256. */
  function Announced(bytes: seq<Byte>, i: nat): nat
    requires i + 1 < |bytes|
  {
    (bytes[i] as int) * 255 + (bytes[i + 1] as int)
  }

  /** The records from cursor `i` on. A zero length never moves the cursor, so the
      source loops forever (`Loops`); a length past the end makes the slice panic. */
  function ConvertFrom(bytes: seq<Byte>, i: nat): Result<seq<seq<Byte>>>
    decreases |bytes| - i
  {
    if i + MinRecord > |bytes| then Ok([])
    else
      var total := Announced(bytes, i);
      if total == 0 then Err(Loops)
      else if i + total > |bytes| then Err(Panicked)
      else
        match ConvertFrom(bytes, i + total)
        case Ok(rest) => Ok([bytes[i..i + total]] + rest)
        case Err(e) => Err(e)
  }

  /** `Database::convert`. */
  function Convert(bytes: seq<Byte>): Result<seq<seq<Byte>>>
  {
    if |bytes| < MinRecord then Ok([]) else ConvertFrom(bytes, 0)
  }

  /** The records one after the other. */
  function Flatten(chunks: seq<seq<Byte>>): seq<Byte>
  {
    if chunks == [] then [] else chunks[0] + Flatten(chunks[1..])
  }

  /** A record that says its own length (with the 255 factor). */
  predicate SelfDescribing(c: seq<Byte>)
  {
    |c| >= 2 && (c[0] as int) * 255 + (c[1] as int) == |c|
  }

  /** The records `raw` already pushed, before what the rest of the input gives. */
  function Prefixed(raw: seq<seq<Byte>>, r: Result<seq<seq<Byte>>>): Result<seq<seq<Byte>>>
  {
    match r
    case Ok(rest) => Ok(raw + rest)
    case Err(e) => Err(e)
  }

  /** `Database::convert` with its loop: the cursor moves by the announced length
      after pushing the slice. */
  method ConvertBytes(bytes: seq<Byte>) returns (r: Result<seq<seq<Byte>>>)
    ensures r == Convert(bytes)
  {
    if |bytes| < MinRecord {
      return Ok([]);
    }
    var raw: seq<seq<Byte>> := [];
    var i := 0;
    match ConvertFrom(bytes, 0) {
      case Ok(rest) => assert [] + rest == rest;
      case Err(_) =>
    }
    while i + MinRecord <= |bytes|
      invariant i <= |bytes|
      invariant Convert(bytes) == Prefixed(raw, ConvertFrom(bytes, i))
      decreases |bytes| - i
    {
      var total: nat := (bytes[i] as int) * 255 + (bytes[i + 1] as int);
      if total == 0 {
        return Err(Loops);
      }
      if i + total > |bytes| {
        return Err(Panicked);
      }
      var subset := bytes[i..i + total];
      match ConvertFrom(bytes, i + total) {
        case Ok(rest) => assert raw + ([subset] + rest) == (raw + [subset]) + rest;
        case Err(_) =>
      }
      raw := raw + [subset];
      i := i + total;
    }
    assert raw + [] == raw;
    return Ok(raw);
  }

  /** What a successful conversion returns from cursor `i`: records that are not
      empty, that lie back to back from `i` on and that start with their own length
      when they are long enough to hold it; fewer than 42 bytes are left over. */
  lemma {:induction false} ConvertFromFacts(bytes: seq<Byte>, i: nat)
    requires i <= |bytes|
    ensures ConvertFrom(bytes, i).Ok? ==>
      var chunks := ConvertFrom(bytes, i).value;
      i + |Flatten(chunks)| <= |bytes| &&
      bytes[i..i + |Flatten(chunks)|] == Flatten(chunks) &&
      |bytes| - (i + |Flatten(chunks)|) < MinRecord &&
      forall k :: 0 <= k < |chunks| ==> |chunks[k]| > 0 && (|chunks[k]| >= 2 ==> SelfDescribing(chunks[k]))
    decreases |bytes| - i
  {
    if i + MinRecord > |bytes| {
      assert ConvertFrom(bytes, i) == Ok([]);
      assert Flatten([]) == [];
    } else {
      var total := Announced(bytes, i);
      if total == 0 || i + total > |bytes| {
        assert ConvertFrom(bytes, i).Err?;
      } else {
        ConvertFromFacts(bytes, i + total);
        var r := ConvertFrom(bytes, i + total);
        if r.Err? {
          assert ConvertFrom(bytes, i).Err?;
        } else {
          assert ConvertFrom(bytes, i) == Ok([bytes[i..i + total]] + r.value);
          TileCons(bytes, i, total, r.value);
        }
      }
    }
  }

  /** The record at `i` before records that tile the input from `i + total` on. */
  lemma TileCons(bytes: seq<Byte>, i: nat, total: nat, rest: seq<seq<Byte>>)
    requires i + MinRecord <= |bytes| && total == Announced(bytes, i) && total != 0 && i + total <= |bytes|
    requires i + total + |Flatten(rest)| <= |bytes| &&
      bytes[i + total..i + total + |Flatten(rest)|] == Flatten(rest) &&
      |bytes| - (i + total + |Flatten(rest)|) < MinRecord &&
      forall k :: 0 <= k < |rest| ==> |rest[k]| > 0 && (|rest[k]| >= 2 ==> SelfDescribing(rest[k]))
    ensures var chunks := [bytes[i..i + total]] + rest;
      i + |Flatten(chunks)| <= |bytes| &&
      bytes[i..i + |Flatten(chunks)|] == Flatten(chunks) &&
      |bytes| - (i + |Flatten(chunks)|) < MinRecord &&
      forall k :: 0 <= k < |chunks| ==> |chunks[k]| > 0 && (|chunks[k]| >= 2 ==> SelfDescribing(chunks[k]))
  {
    var head := bytes[i..i + total];
    var chunks := [head] + rest;
    assert Flatten(chunks) == head + Flatten(rest) by { assert chunks[1..] == rest; }
    var end := i + total + |Flatten(rest)|;
    assert bytes[i..end] == head + bytes[i + total..end];
    assert |head| >= 2 ==> SelfDescribing(head) by {
      if |head| >= 2 { assert head[0] == bytes[i] && head[1] == bytes[i + 1]; }
    }
    ChunkCons(head, rest);
  }

  /** A record that is not empty and says its own length, before such records. */
  lemma ChunkCons(head: seq<Byte>, rest: seq<seq<Byte>>)
    requires |head| > 0 && (|head| >= 2 ==> SelfDescribing(head))
    requires forall k :: 0 <= k < |rest| ==> |rest[k]| > 0 && (|rest[k]| >= 2 ==> SelfDescribing(rest[k]))
    ensures var chunks := [head] + rest;
      forall k :: 0 <= k < |chunks| ==> |chunks[k]| > 0 && (|chunks[k]| >= 2 ==> SelfDescribing(chunks[k]))
  {
    var chunks := [head] + rest;
    forall k | 0 <= k < |chunks| ensures |chunks[k]| > 0 && (|chunks[k]| >= 2 ==> SelfDescribing(chunks[k])) {
      if k > 0 { assert chunks[k] == rest[k - 1]; }
    }
  }

  /** Short inputs give no records; a successful conversion returns records that
      are back to back from the start of the input, announce their own lengths and
      leave fewer than 42 bytes over. */
  lemma ConvertFacts(bytes: seq<Byte>)
    ensures |bytes| < MinRecord ==> Convert(bytes) == Ok([])
    ensures Convert(bytes).Ok? ==>
      var chunks := Convert(bytes).value;
      Flatten(chunks) <= bytes && |bytes| - |Flatten(chunks)| < MinRecord &&
      forall k :: 0 <= k < |chunks| ==> |chunks[k]| > 0 && (|chunks[k]| >= 2 ==> SelfDescribing(chunks[k]))
  {
    if |bytes| >= MinRecord {
      ConvertFromFacts(bytes, 0);
    }
  }

  /** The two ways the source fails: a zero length at a cursor with 42 bytes left
      never ends, and a length past the end panics. */
  lemma ConvertFailures(bytes: seq<Byte>, i: nat)
    requires i + MinRecord <= |bytes|
    ensures Announced(bytes, i) == 0 ==> ConvertFrom(bytes, i) == Err(Loops)
    ensures Announced(bytes, i) > 0 && i + Announced(bytes, i) > |bytes| ==> ConvertFrom(bytes, i) == Err(Panicked)
  {
  }

  /** Records of at least 42 bytes that announce their own lengths, followed by
      fewer than 42 other bytes, are read back one by one. */
  lemma {:induction false} ConvertRoundTrip(chunks: seq<seq<Byte>>, tail: seq<Byte>)
    requires forall c :: c in chunks ==> |c| >= MinRecord && SelfDescribing(c)
    requires |tail| < MinRecord
    ensures Convert(Flatten(chunks) + tail) == Ok(chunks)
  {
    if chunks != [] {
      assert |Flatten(chunks)| >= |chunks[0]| by { assert Flatten(chunks) == chunks[0] + Flatten(chunks[1..]); }
      RoundTripFrom(Flatten(chunks) + tail, 0, chunks, tail);
    } else {
      assert Flatten(chunks) + tail == tail;
    }
  }

  /** The induction behind `ConvertRoundTrip`: when the bytes from cursor `i` on
      are the records followed by a short tail, they are read back from `i`. */
  lemma {:induction false} RoundTripFrom(bytes: seq<Byte>, i: nat, chunks: seq<seq<Byte>>, tail: seq<Byte>)
    requires forall c :: c in chunks ==> |c| >= MinRecord && SelfDescribing(c)
    requires |tail| < MinRecord
    requires i <= |bytes| && bytes[i..] == Flatten(chunks) + tail
    ensures ConvertFrom(bytes, i) == Ok(chunks)
    decreases |chunks|
  {
    if chunks == [] {
      assert |bytes[i..]| == |tail|;
    } else {
      var c := chunks[0];
      var rest := chunks[1..];
      assert chunks == [c] + rest;
      assert forall x :: x in rest ==> |x| >= MinRecord && SelfDescribing(x) by {
        forall x | x in rest ensures |x| >= MinRecord && SelfDescribing(x) { assert x in chunks; }
      }
      assert |c| >= MinRecord && SelfDescribing(c) by { assert c in chunks; }
      var j := i + |c|;
      assert j <= |bytes| && bytes[i..j] == c && bytes[j..] == Flatten(rest) + tail by {
        assert Flatten(chunks) == c + Flatten(rest);
        Split(bytes, i, c, Flatten(rest), tail);
      }
      RoundTripFrom(bytes, j, rest, tail);
      ReadOne(bytes, i, j, c, rest);
    }
  }

  /** The bytes from `i` on that start with `c`: `c` sits at `i` and the rest follows. */
  lemma Split(bytes: seq<Byte>, i: nat, c: seq<Byte>, middle: seq<Byte>, tail: seq<Byte>)
    requires i <= |bytes| && bytes[i..] == (c + middle) + tail
    ensures i + |c| <= |bytes| && bytes[i..i + |c|] == c && bytes[i + |c|..] == middle + tail
  {
  }

  /** A record of at least 42 bytes that announces its own length is read at the
      cursor, and reading goes on after it. */
  lemma ReadOne(bytes: seq<Byte>, i: nat, j: nat, c: seq<Byte>, rest: seq<seq<Byte>>)
    requires |c| >= MinRecord && SelfDescribing(c)
    requires j == i + |c| <= |bytes| && bytes[i..j] == c
    requires ConvertFrom(bytes, j) == Ok(rest)
    ensures ConvertFrom(bytes, i) == Ok([c] + rest)
  {
    assert bytes[i] == c[0] && bytes[i + 1] == c[1];
    assert Announced(bytes, i) == |c|;
  }
}
