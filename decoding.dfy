/** The reader that the receiving contract pairs with the serialiser: it parses CompactSize
    lengths, length-prefixed byte strings, the five-field `bridgeIn` payload and the fixed
    layouts, and accepts only what the serialiser writes. */
module Decoding {
  import opened Wrappers
  import opened Bytes
  import opened Ethers
  import opened Utilities

  datatype DecodeError =
    | TruncatedPrefix  // the marker's value bytes run past the end of the buffer
    | MalformedLength  // a declared length or a fixed-width field runs past the end
    | NonCanonical     // a wider tier than the value needs
    | InvalidPayload   // bytes left over after the last field
    | EmptyPayload     // a payload of zero bytes
    | NotAnAddress     // a 32-byte word whose twelve high bytes are not all zero

  /** The number of value bytes after a marker byte of `0xfd`, `0xfe` or `0xff`. */
  function MarkerWidth(marker: byte): nat
    requires marker >= 0xfd
  {
    if marker == 0xfd then 2 else if marker == 0xfe then 4 else 8
  }

  /** The least value a marker may carry: anything smaller has a narrower tier. */
  function TierFloor(marker: byte): nat
    requires marker >= 0xfd
  {
    if marker == 0xfd then 0xfd else if marker == 0xfe then 0x1_0000 else 0x1_0000_0000
  }

  /** Reads a CompactSize integer at `off`; returns it and the offset just past it. */
  function ReadVarUint(buf: seq<byte>, off: nat): (r: Result<(nat, nat), DecodeError>)
    ensures r.Ok? ==> off < r.value.1 <= |buf|
  {
    if off >= |buf| then Err(TruncatedPrefix)
    else
      var marker := buf[off];
      if marker < 0xfd then Ok((marker, off + 1))
      else
        var width := MarkerWidth(marker);
        if |buf| - (off + 1) < width then Err(TruncatedPrefix)
        else
          var v := LeValue(buf[off + 1 .. off + 1 + width]);
          if v < TierFloor(marker) then Err(NonCanonical) else Ok((v, off + 1 + width))
  }

  /** A marker byte followed by `MarkerWidth(marker)` bytes holding a value at or above the
      tier's floor reads as that value. */
  lemma ReadPrefixed(buf: seq<byte>, off: nat, l: nat)
    requires off < |buf| && buf[off] >= 0xfd
    requires off + 1 + MarkerWidth(buf[off]) <= |buf|
    requires l < Pow256(MarkerWidth(buf[off])) && l >= TierFloor(buf[off])
    requires buf[off + 1 .. off + 1 + MarkerWidth(buf[off])] == LeBytes(l, MarkerWidth(buf[off]))
    ensures ReadVarUint(buf, off) == Ok((l, off + 1 + MarkerWidth(buf[off])))
  {
  }

  /** The wire form of `l`, wherever it sits, reads back as `l`. */
  lemma ReadVarUintWire(l: nat, pre: seq<byte>, post: seq<byte>)
    requires l < 0x1_0000_0000_0000_0000
    ensures var e := VarUintWire(l);
      ReadVarUint(pre + e + post, |pre|) == Ok((l, |pre| + |e|))
  {
    var e := VarUintWire(l);
    var buf := pre + e + post;
    assert buf[|pre| .. |pre| + |e|] == e;
    ReadVarUintAt(buf, |pre|, l);
  }

  /** The wire form of `l`, found at `off`, reads back as `l`. */
  lemma ReadVarUintAt(buf: seq<byte>, off: nat, l: nat)
    requires l < 0x1_0000_0000_0000_0000
    requires off + |VarUintWire(l)| <= |buf| && buf[off .. off + |VarUintWire(l)|] == VarUintWire(l)
    ensures ReadVarUint(buf, off) == Ok((l, off + |VarUintWire(l)|))
  {
    Pow256Values();
    var e := VarUintWire(l);
    var w := |e| - 1;
    assert buf[off] == e[0];
    if w > 0 {
      assert buf[off + 1 .. off + 1 + w] == e[1..];
      ReadPrefixed(buf, off, l);
    }
  }

  /** Round trip: whatever surrounds it, `WriteVarUint(l)` reads back as `l` and exactly its
      own bytes are consumed. */
  lemma ReadVarUintRoundTrip(l: nat, pre: seq<byte>, post: seq<byte>)
    requires WriteVarUint(l).Ok?
    ensures var e := WriteVarUint(l).value;
      ReadVarUint(pre + e + post, |pre|) == Ok((l, |pre| + |e|))
  {
    WriteVarUintWire(l);
    ReadVarUintWire(l, pre, post);
  }

  /** What the reader reads as `l` is `l`'s wire form. */
  lemma ReadVarUintIsWire(buf: seq<byte>, off: nat)
    requires ReadVarUint(buf, off).Ok?
    ensures var (l, end) := ReadVarUint(buf, off).value;
      l < 0x1_0000_0000_0000_0000 && VarUintWire(l) == buf[off..end]
  {
    var (l, end) := ReadVarUint(buf, off).value;
    var marker := buf[off];
    Pow256Values();
    if marker < 0xfd {
      assert buf[off..end] == [marker];
    } else {
      var s := buf[off + 1 .. end];
      LeBytesOfLeValue(s);
      Pow256Monotone(|s|, 8);
      assert buf[off..end] == [marker] + s;
    }
  }

  /** The reader accepts only canonical encodings: what it reads as `l` is exactly the bytes
      `WriteVarUint(l)` writes, so every value has one encoding. */
  lemma ReadVarUintCanonical(buf: seq<byte>, off: nat)
    requires ReadVarUint(buf, off).Ok?
    ensures var (l, end) := ReadVarUint(buf, off).value;
      WriteVarUint(l) == Ok(buf[off..end])
  {
    ReadVarUintIsWire(buf, off);
    WriteVarUintWire(ReadVarUint(buf, off).value.0);
  }

  /** The reader's errors at a CompactSize. It reports `TruncatedPrefix` exactly when the
      marker, or the value bytes the marker announces, run past the end of the buffer, and
      `NonCanonical` exactly when those bytes are present but hold a value that a narrower
      tier carries. It fails in no other way. */
  lemma ReadVarUintErrors(buf: seq<byte>, off: nat)
    ensures ReadVarUint(buf, off) == Err(TruncatedPrefix) <==>
      off >= |buf| || (buf[off] >= 0xfd && |buf| - off - 1 < MarkerWidth(buf[off]))
    ensures ReadVarUint(buf, off) == Err(NonCanonical) <==>
      off < |buf| && buf[off] >= 0xfd && off + 1 + MarkerWidth(buf[off]) <= |buf|
      && VarUintSize(LeValue(buf[off + 1 .. off + 1 + MarkerWidth(buf[off])])) < 1 + MarkerWidth(buf[off])
    ensures ReadVarUint(buf, off).Err? ==> ReadVarUint(buf, off).error in {TruncatedPrefix, NonCanonical}
  {
    if off < |buf| && buf[off] >= 0xfd && off + 1 + MarkerWidth(buf[off]) <= |buf| {
      var s := buf[off + 1 .. off + 1 + MarkerWidth(buf[off])];
      LeValueBound(s);
      Pow256Values();
    }
  }

  /** Reads a length-prefixed byte string at `off`; returns it and the offset just past it. */
  function ReadVarBytes(buf: seq<byte>, off: nat): (r: Result<(seq<byte>, nat), DecodeError>)
    ensures r.Ok? ==> off < r.value.1 <= |buf|
  {
    var length :- ReadVarUint(buf, off);
    var (n, start) := length;
    if n > |buf| - start then Err(MalformedLength)
    else Ok((buf[start .. start + n], start + n))
  }

  /** The reader's errors at a byte string: a failure to read the length is passed on
      unchanged, and `MalformedLength` comes back exactly when the declared length runs past
      the end of the buffer. */
  lemma ReadVarBytesErrors(buf: seq<byte>, off: nat)
    ensures ReadVarUint(buf, off).Err? ==> ReadVarBytes(buf, off) == Err(ReadVarUint(buf, off).error)
    ensures ReadVarBytes(buf, off) == Err(MalformedLength) <==>
      ReadVarUint(buf, off).Ok? && ReadVarUint(buf, off).value.0 > |buf| - ReadVarUint(buf, off).value.1
  {
    ReadVarUintErrors(buf, off);
  }

  lemma ReadVarBytesWire(d: seq<byte>, pre: seq<byte>, post: seq<byte>)
    requires |d| < 0x1_0000_0000_0000_0000
    ensures var e := VarBytesWire(d);
      ReadVarBytes(pre + e + post, |pre|) == Ok((d, |pre| + |e|))
  {
    var e := VarBytesWire(d);
    var buf := pre + e + post;
    assert buf[|pre| .. |pre| + |e|] == e;
    ReadVarBytesAt(buf, |pre|, d);
  }

  /** The wire form of `d`, found at `off`, reads back as `d`. */
  lemma ReadVarBytesAt(buf: seq<byte>, off: nat, d: seq<byte>)
    requires |d| < 0x1_0000_0000_0000_0000
    requires off + |VarBytesWire(d)| <= |buf| && buf[off .. off + |VarBytesWire(d)|] == VarBytesWire(d)
    ensures ReadVarBytes(buf, off) == Ok((d, off + |VarBytesWire(d)|))
  {
    var prefix := VarUintWire(|d|);
    assert VarBytesWire(d) == prefix + d;
    SliceSplit(buf, off, prefix, d);
    ReadVarUintAt(buf, off, |d|);
    ReadVarBytesAfter(buf, off, off + |prefix|, d);
  }

  /** Where the wire form of `d` sits between `lo` and `hi`, reading at `lo` gives `d` and
      stops at `hi`: the converse of `ReadVarBytesIsWire`. */
  lemma ReadVarBytesBetween(buf: seq<byte>, d: seq<byte>, lo: nat, hi: nat)
    requires WireBetween(buf, d, lo, hi)
    ensures ReadVarBytes(buf, lo) == Ok((d, hi))
  {
    ReadVarBytesAt(buf, lo, d);
  }

  /** A length prefix read up to `start`, followed by that many bytes, reads as those bytes. */
  lemma ReadVarBytesAfter(buf: seq<byte>, off: nat, start: nat, d: seq<byte>)
    requires ReadVarUint(buf, off) == Ok((|d|, start))
    requires start + |d| <= |buf| && buf[start .. start + |d|] == d
    ensures ReadVarBytes(buf, off) == Ok((d, start + |d|))
  {
  }

  /** Round trip: `writeVarBytes(d)` reads back as `d`, consuming `|prefix| + |d|` bytes. */
  lemma ReadVarBytesRoundTrip(d: seq<byte>, pre: seq<byte>, post: seq<byte>)
    requires WriteVarBytes(d).Ok?
    ensures var e := WriteVarBytes(d).value;
      ReadVarBytes(pre + e + post, |pre|) == Ok((d, |pre| + |e|))
  {
    WriteVarBytesWire(d);
    ReadVarBytesWire(d, pre, post);
  }

  lemma ReadVarBytesIsWire(buf: seq<byte>, off: nat)
    requires ReadVarBytes(buf, off).Ok?
    ensures var (d, end) := ReadVarBytes(buf, off).value;
      |d| < 0x1_0000_0000_0000_0000 && VarBytesWire(d) == buf[off..end]
  {
    var (n, start) := ReadVarUint(buf, off).value;
    var (d, end) := ReadVarBytes(buf, off).value;
    ReadVarUintIsWire(buf, off);
    assert buf[off..end] == buf[off..start] + d;
  }

  /** Every string the reader accepts is one the serialiser writes. */
  lemma ReadVarBytesCanonical(buf: seq<byte>, off: nat)
    requires ReadVarBytes(buf, off).Ok?
    ensures var (d, end) := ReadVarBytes(buf, off).value;
      WriteVarBytes(d) == Ok(buf[off..end])
  {
    ReadVarBytesIsWire(buf, off);
    WriteVarBytesWire(ReadVarBytes(buf, off).value.0);
  }

  /** Var-bytes fields one after another: `solidityPack` of `bytes` items, each the
      `writeVarBytes` of one field. */
  function PackVarBytesFields(fields: seq<seq<byte>>): Result<seq<byte>, EncodeError>
  {
    var items :- VarBytesItems(fields);
    SolidityPack(items)
  }

  /** `writeVarBytes` of each field, as a `bytes` item of `solidityPack`. */
  function VarBytesItems(fields: seq<seq<byte>>): Result<seq<PackItem>, EncodeError>
  {
    if |fields| == 0 then Ok([])
    else
      var head :- WriteVarBytes(fields[0]);
      var tail :- VarBytesItems(fields[1..]);
      Ok([BytesItem(head)] + tail)
  }

  /** Reads `k` var-bytes fields starting at `off`. */
  function ReadFields(buf: seq<byte>, off: nat, k: nat): (r: Result<(seq<seq<byte>>, nat), DecodeError>)
    requires off <= |buf|
    ensures r.Ok? ==> |r.value.0| == k && off <= r.value.1 <= |buf|
    decreases k
  {
    if k == 0 then Ok(([], off))
    else
      var first :- ReadVarBytes(buf, off);
      var rest :- ReadFields(buf, first.1, k - 1);
      Ok(([first.0] + rest.0, rest.1))
  }

  /** Every field has a length the CompactSize prefix can carry. */
  predicate FieldsInRange(fields: seq<seq<byte>>)
  {
    forall i :: 0 <= i < |fields| ==> |fields[i]| < 0x1_0000_0000_0000_0000
  }

  /** The fields' wire forms, one after another. */
  function FieldsWire(fields: seq<seq<byte>>): (r: seq<byte>)
    requires FieldsInRange(fields)
    ensures |r| >= |fields|
  {
    if |fields| == 0 then [] else VarBytesWire(fields[0]) + FieldsWire(fields[1..])
  }

  /** Writing the fields succeeds exactly when every field is in range, and `solidityPack`
      of the items then gives the fields' wire forms one after another. */
  lemma {:induction false} VarBytesItemsWire(fields: seq<seq<byte>>)
    ensures VarBytesItems(fields).Ok? <==> FieldsInRange(fields)
    ensures FieldsInRange(fields) ==> SolidityPack(VarBytesItems(fields).value) == Ok(FieldsWire(fields))
    decreases |fields|
  {
    if |fields| > 0 {
      FieldsInRangeCons(fields);
      WriteVarBytesWire(fields[0]);
      VarBytesItemsWire(fields[1..]);
      if FieldsInRange(fields) {
        var tail := VarBytesItems(fields[1..]).value;
        var items := [BytesItem(VarBytesWire(fields[0]))] + tail;
        assert VarBytesItems(fields) == Ok(items);
        assert items[1..] == tail;
        SolidityPackCons(items);
      }
    }
  }

  /** Packing succeeds exactly when every field is in range, and then writes the wire form. */
  lemma PackVarBytesFieldsWire(fields: seq<seq<byte>>)
    ensures PackVarBytesFields(fields).Ok? <==> FieldsInRange(fields)
    ensures FieldsInRange(fields) ==> PackVarBytesFields(fields) == Ok(FieldsWire(fields))
  {
    VarBytesItemsWire(fields);
  }

  /** The offsets where each field's wire form starts, followed by the offset where the
      last one ends. */
  function WireEnds(off: nat, fields: seq<seq<byte>>): (r: seq<nat>)
    requires FieldsInRange(fields)
    ensures |r| == |fields| + 1 && r[0] == off
    decreases |fields|
  {
    if |fields| == 0 then [off]
    else
      assert FieldsInRange(fields[1..]) by {
        forall i | 0 <= i < |fields[1..]| ensures |fields[1..][i]| < 0x1_0000_0000_0000_0000 {
          assert fields[1..][i] == fields[i + 1];
        }
      }
      [off] + WireEnds(off + |VarBytesWire(fields[0])|, fields[1..])
  }

  /** Field `i` of the wire form sits between consecutive offsets of `WireEnds`. */
  lemma {:induction false} WireEndsLayout(buf: seq<byte>, off: nat, fields: seq<seq<byte>>, i: nat)
    requires FieldsInRange(fields) && i < |fields|
    requires off + |FieldsWire(fields)| <= |buf| && buf[off .. off + |FieldsWire(fields)|] == FieldsWire(fields)
    ensures var ends := WireEnds(off, fields);
      WireBetween(buf, fields[i], ends[i], ends[i + 1])
    decreases |fields|
  {
    FieldsInRangeCons(fields);
    var head := VarBytesWire(fields[0]);
    var tail := FieldsWire(fields[1..]);
    assert FieldsWire(fields) == head + tail;
    SliceSplit(buf, off, head, tail);
    var ends := WireEnds(off, fields);
    var rest := WireEnds(off + |head|, fields[1..]);
    assert ends == [off] + rest;
    if i > 0 {
      WireEndsLayout(buf, off + |head|, fields[1..], i - 1);
      assert fields[1..][i - 1] == fields[i];
      assert ends[i] == rest[i - 1] && ends[i + 1] == rest[i];
    }
  }

  /** The last offset of `WireEnds` is where the wire form ends. */
  lemma {:induction false} WireEndsLast(off: nat, fields: seq<seq<byte>>)
    requires FieldsInRange(fields)
    ensures WireEnds(off, fields)[|fields|] == off + |FieldsWire(fields)|
    decreases |fields|
  {
    if |fields| > 0 {
      WireEndsLast(off + |VarBytesWire(fields[0])|, fields[1..]);
    }
  }

  /** The wire form of the fields, found at `off`, reads back as the same fields, consuming
      exactly those bytes. */
  lemma ReadFieldsAt(buf: seq<byte>, off: nat, fields: seq<seq<byte>>)
    requires FieldsInRange(fields)
    requires off + |FieldsWire(fields)| <= |buf| && buf[off .. off + |FieldsWire(fields)|] == FieldsWire(fields)
    ensures ReadFields(buf, off, |fields|) == Ok((fields, off + |FieldsWire(fields)|))
  {
    var ends := WireEnds(off, fields);
    forall i | 0 <= i < |fields| ensures ReadVarBytes(buf, ends[i]) == Ok((fields[i], ends[i + 1])) {
      WireEndsLayout(buf, off, fields, i);
      ReadVarBytesBetween(buf, fields[i], ends[i], ends[i + 1]);
    }
    WireEndsLast(off, fields);
    ReadFieldsFrom(buf, fields, ends);
  }

  /** Fields that read one after another, from the offsets `ends`, read as a whole. */
  lemma {:induction false} ReadFieldsFrom(buf: seq<byte>, fields: seq<seq<byte>>, ends: seq<nat>)
    requires |ends| == |fields| + 1 && ends[0] <= |buf|
    requires forall i :: 0 <= i < |fields| ==> ReadVarBytes(buf, ends[i]) == Ok((fields[i], ends[i + 1]))
    ensures ReadFields(buf, ends[0], |fields|) == Ok((fields, ends[|fields|]))
    decreases |fields|
  {
    if |fields| > 0 {
      assert ReadVarBytes(buf, ends[0]) == Ok((fields[0], ends[1]));
      forall i | 0 <= i < |fields[1..]|
        ensures ReadVarBytes(buf, ends[1..][i]) == Ok((fields[1..][i], ends[1..][i + 1]))
      {
        assert ReadVarBytes(buf, ends[i + 1]) == Ok((fields[i + 1], ends[i + 2]));
      }
      ReadFieldsFrom(buf, fields[1..], ends[1..]);
      ReadFieldsCombine(buf, ends[0], fields, ends[1] - ends[0], ends[|fields|] - ends[1]);
    }
  }

  /** One field of `h` bytes, then the remaining fields in `t` bytes. */
  lemma ReadFieldsCombine(buf: seq<byte>, off: nat, fields: seq<seq<byte>>, h: nat, t: nat)
    requires |fields| > 0 && off + h + t <= |buf|
    requires ReadVarBytes(buf, off) == Ok((fields[0], off + h))
    requires ReadFields(buf, off + h, |fields[1..]|) == Ok((fields[1..], off + h + t))
    ensures ReadFields(buf, off, |fields|) == Ok((fields, off + h + t))
  {
    assert [fields[0]] + fields[1..] == fields;
  }

  /** Where `head + tail` sits in a buffer, `head` and then `tail` sit. */
  lemma SliceSplit(buf: seq<byte>, off: nat, head: seq<byte>, tail: seq<byte>)
    requires off + |head + tail| <= |buf| && buf[off .. off + |head + tail|] == head + tail
    ensures buf[off .. off + |head|] == head
    ensures buf[off + |head| .. off + |head| + |tail|] == tail
  {
    assert buf[off .. off + |head|] == (head + tail)[..|head|];
    assert buf[off + |head| .. off + |head| + |tail|] == (head + tail)[|head|..];
  }

  /** Every run of fields the reader accepts is the wire form of the fields it returns. */
  lemma ReadFieldsIsWire(buf: seq<byte>, off: nat, k: nat)
    requires off <= |buf| && ReadFields(buf, off, k).Ok?
    ensures var (fields, end) := ReadFields(buf, off, k).value;
      FieldsInRange(fields) && FieldsWire(fields) == buf[off..end]
  {
    var (fields, end) := ReadFields(buf, off, k).value;
    var ends := ReadFieldsEnds(buf, off, k);
    forall i | 0 <= i < k ensures WireBetween(buf, fields[i], ends[i], ends[i + 1]) {
      assert ReadVarBytes(buf, ends[i]) == Ok((fields[i], ends[i + 1]));
      ReadVarBytesIsWire(buf, ends[i]);
    }
    FieldsWireOfSlices(buf, fields, ends);
  }

  /** Where the reader found each of the fields it returns. */
  lemma {:induction false} ReadFieldsEnds(buf: seq<byte>, off: nat, k: nat) returns (ends: seq<nat>)
    requires off <= |buf| && ReadFields(buf, off, k).Ok?
    ensures |ends| == k + 1 && ends[0] == off && ends[k] == ReadFields(buf, off, k).value.1
    ensures forall i :: 0 <= i < k ==>
      ReadVarBytes(buf, ends[i]) == Ok((ReadFields(buf, off, k).value.0[i], ends[i + 1]))
    decreases k
  {
    if k == 0 {
      ends := [off];
    } else {
      var (first, mid) := ReadVarBytes(buf, off).value;
      var rest := ReadFieldsEnds(buf, mid, k - 1);
      var fields := ReadFields(buf, off, k).value.0;
      var later := ReadFields(buf, mid, k - 1).value.0;
      assert fields == [first] + later;
      ends := [off] + rest;
      forall i | 0 <= i < k ensures ReadVarBytes(buf, ends[i]) == Ok((fields[i], ends[i + 1])) {
        if i > 0 {
          assert ReadVarBytes(buf, rest[i - 1]) == Ok((later[i - 1], rest[i]));
        }
      }
    }
  }

  /** The wire form of `d` sits in `buf` between `lo` and `hi`. */
  predicate WireBetween(buf: seq<byte>, d: seq<byte>, lo: nat, hi: nat)
  {
    lo <= hi <= |buf| && |d| < 0x1_0000_0000_0000_0000 && VarBytesWire(d) == buf[lo..hi]
  }

  /** Fields whose wire forms sit one after another, between the offsets `ends`, make up the
      wire form of the whole run. */
  lemma {:induction false} FieldsWireOfSlices(buf: seq<byte>, fields: seq<seq<byte>>, ends: seq<nat>)
    requires |ends| == |fields| + 1 && ends[0] <= |buf|
    requires forall i :: 0 <= i < |fields| ==> WireBetween(buf, fields[i], ends[i], ends[i + 1])
    ensures FieldsInRange(fields) && ends[0] <= ends[|fields|] <= |buf|
    ensures FieldsWire(fields) == buf[ends[0] .. ends[|fields|]]
    decreases |fields|
  {
    if |fields| > 0 {
      var fields', ends' := fields[1..], ends[1..];
      forall i | 0 <= i < |fields'| ensures WireBetween(buf, fields'[i], ends'[i], ends'[i + 1]) {
        assert WireBetween(buf, fields[i + 1], ends[i + 1], ends[i + 2]);
      }
      FieldsWireOfSlices(buf, fields', ends');
      assert WireBetween(buf, fields[0], ends[0], ends[1]);
      FieldsInRangeCons(fields);
      assert buf[ends[0] .. ends[|fields|]] == buf[ends[0] .. ends[1]] + buf[ends[1] .. ends[|fields|]];
    }
  }

  /** A run of fields is in range when its first field and the rest are. */
  lemma FieldsInRangeCons(fields: seq<seq<byte>>)
    requires |fields| > 0
    ensures FieldsInRange(fields) <==> |fields[0]| < 0x1_0000_0000_0000_0000 && FieldsInRange(fields[1..])
  {
    if |fields[0]| < 0x1_0000_0000_0000_0000 && FieldsInRange(fields[1..]) {
      forall i | 0 <= i < |fields| ensures |fields[i]| < 0x1_0000_0000_0000_0000 {
        if i > 0 { assert fields[i] == fields[1..][i - 1]; }
      }
    }
  }

  /** A payload of exactly `k` var-bytes fields, with nothing left over; zero bytes where a
      field is required are refused as well. */
  function DecodeFields(buf: seq<byte>, k: nat): (r: Result<seq<seq<byte>>, DecodeError>)
    ensures r.Ok? ==> |r.value| == k
  {
    if k > 0 && |buf| == 0 then Err(InvalidPayload)
    else
      var read :- ReadFields(buf, 0, k);
      if read.1 != |buf| then Err(InvalidPayload) else Ok(read.0)
  }

  /** A run of fields fails only as one of its fields does. */
  lemma {:induction false} ReadFieldsErrors(buf: seq<byte>, off: nat, k: nat)
    requires off <= |buf|
    ensures ReadFields(buf, off, k).Err? ==>
      ReadFields(buf, off, k).error in {TruncatedPrefix, NonCanonical, MalformedLength}
    decreases k
  {
    if k > 0 {
      ReadVarBytesErrors(buf, off);
      ReadVarUintErrors(buf, off);
      if ReadVarBytes(buf, off).Ok? {
        ReadFieldsErrors(buf, ReadVarBytes(buf, off).value.1, k - 1);
      }
    }
  }

  /** The payload's errors: `InvalidPayload` for an empty payload where a field is required
      and for bytes left over after the last field; otherwise the first failing field's error. */
  lemma DecodeFieldsErrors(buf: seq<byte>, k: nat)
    ensures k > 0 && |buf| == 0 ==> DecodeFields(buf, k) == Err(InvalidPayload)
    ensures ReadFields(buf, 0, k).Ok? && ReadFields(buf, 0, k).value.1 != |buf| ==>
      DecodeFields(buf, k) == Err(InvalidPayload)
    ensures (k == 0 || |buf| > 0) && ReadFields(buf, 0, k).Err? ==>
      DecodeFields(buf, k) == Err(ReadFields(buf, 0, k).error)
    ensures DecodeFields(buf, k).Err? ==>
      DecodeFields(buf, k).error in {InvalidPayload, TruncatedPrefix, NonCanonical, MalformedLength}
  {
    ReadFieldsErrors(buf, 0, k);
  }

  /** In wire terms: the payload decodes to `fields` exactly when it is their wire form. */
  lemma DecodeFieldsWire(buf: seq<byte>, k: nat, fields: seq<seq<byte>>)
    ensures DecodeFields(buf, k) == Ok(fields) <==>
      (|fields| == k && FieldsInRange(fields) && FieldsWire(fields) == buf)
  {
    if |fields| == k && FieldsInRange(fields) && FieldsWire(fields) == buf {
      assert buf[0 .. |buf|] == buf;
      ReadFieldsAt(buf, 0, fields);
    }
    if DecodeFields(buf, k) == Ok(fields) {
      ReadFieldsIsWire(buf, 0, k);
      assert buf[0 .. |buf|] == buf;
    }
  }

  /** The payload splits uniquely: it decodes to `fields` exactly when packing `fields` gives
      back these bytes. */
  lemma DecodeFieldsExact(buf: seq<byte>, k: nat, fields: seq<seq<byte>>)
    ensures DecodeFields(buf, k) == Ok(fields) <==> (|fields| == k && PackVarBytesFields(fields) == Ok(buf))
  {
    PackVarBytesFieldsWire(fields);
    DecodeFieldsWire(buf, k, fields);
  }

  /** The five fields of a `bridgeIn` payload, in wire order. */
  datatype BridgeInArgs = BridgeInArgs(
    token: seq<byte>, attestedSender: seq<byte>, attestation: seq<byte>,
    recipient: seq<byte>, callData: seq<byte>)

  function BridgeInFields(a: BridgeInArgs): seq<seq<byte>>
  {
    [a.token, a.attestedSender, a.attestation, a.recipient, a.callData]
  }

  /** The payload the bridge tests build: `solidityPack` of five `bytes` items, each the
      `writeVarBytes` of one field. */
  function BridgeInPayload(a: BridgeInArgs): Result<seq<byte>, EncodeError>
  {
    PackVarBytesFields(BridgeInFields(a))
  }

  /** Splits a `bridgeIn` payload into its five fields; an empty payload is refused first. */
  function DecodeBridgeInArgs(payload: seq<byte>): Result<BridgeInArgs, DecodeError>
  {
    if |payload| == 0 then Err(EmptyPayload)
    else
      var fields :- DecodeFields(payload, 5);
      Ok(BridgeInArgs(fields[0], fields[1], fields[2], fields[3], fields[4]))
  }

  lemma PackedFieldsNonEmpty(fields: seq<seq<byte>>)
    requires |fields| > 0 && PackVarBytesFields(fields).Ok?
    ensures |PackVarBytesFields(fields).value| > 0
  {
    WriteVarBytesLayout(fields[0]);
  }

  /** The five-field payload decodes to exactly the five fields it was built from, with no
      bytes left over, and no other payload decodes to them. */
  lemma BridgeInRoundTrip(payload: seq<byte>, a: BridgeInArgs)
    ensures DecodeBridgeInArgs(payload) == Ok(a) <==> BridgeInPayload(a) == Ok(payload)
  {
    var fields := BridgeInFields(a);
    DecodeFieldsExact(payload, 5, fields);
    if BridgeInPayload(a) == Ok(payload) {
      PackedFieldsNonEmpty(fields);
    }
    if DecodeBridgeInArgs(payload) == Ok(a) {
      var decoded := DecodeFields(payload, 5).value;
      assert decoded == fields;
    }
  }

  /** Reads the `serializeCallData` layout: var-bytes address, then an 8-byte little-endian
      chain id ending the buffer. */
  function DeserializeCallData(buf: seq<byte>): Result<(seq<byte>, nat), DecodeError>
  {
    var address :- ReadVarBytes(buf, 0);
    var rest := |buf| - address.1;
    if rest < 8 then Err(MalformedLength)
    else if rest > 8 then Err(InvalidPayload)
    else Ok((address.0, LeValue(buf[address.1..])))
  }

  /** The call-data layout reads back as the address and chain id it was written from. */
  lemma ReadCallDataWire(toAddress: seq<byte>, toChainId: nat)
    requires |toAddress| < 0x1_0000_0000_0000_0000 && toChainId < 0x1_0000_0000_0000_0000
    ensures DeserializeCallData(VarBytesWire(toAddress) + LeBytes(toChainId, 8)) == Ok((toAddress, toChainId))
  {
    Pow256Values();
    var e := VarBytesWire(toAddress);
    var buf := e + LeBytes(toChainId, 8);
    assert buf[0 .. |e|] == e;
    ReadVarBytesAt(buf, 0, toAddress);
    assert buf[|e|..] == LeBytes(toChainId, 8);
    DeserializeCallDataSteps(buf, toAddress, |e|);
  }

  /** The reader's steps: the address field, then exactly eight bytes. */
  lemma DeserializeCallDataSteps(buf: seq<byte>, toAddress: seq<byte>, p: nat)
    requires ReadVarBytes(buf, 0) == Ok((toAddress, p)) && p + 8 == |buf|
    ensures DeserializeCallData(buf) == Ok((toAddress, LeValue(buf[p..])))
  {
  }

  /** Whatever the call-data reader accepts is the wire form of what it returns. */
  lemma CallDataIsWire(buf: seq<byte>)
    requires DeserializeCallData(buf).Ok?
    ensures var (toAddress, toChainId) := DeserializeCallData(buf).value;
      |toAddress| < 0x1_0000_0000_0000_0000 && toChainId < 0x1_0000_0000_0000_0000
      && buf == VarBytesWire(toAddress) + LeBytes(toChainId, 8)
  {
    var (d, p) := ReadVarBytes(buf, 0).value;
    ReadVarBytesIsWire(buf, 0);
    assert WireBetween(buf, d, 0, p);
    CallDataJoin(buf, p, d);
  }

  /** A var-bytes field followed by exactly eight bytes is the call-data layout of the field
      and the little-endian value of those bytes. */
  lemma CallDataJoin(buf: seq<byte>, p: nat, d: seq<byte>)
    requires WireBetween(buf, d, 0, p) && p + 8 == |buf|
    ensures LeValue(buf[p..]) < 0x1_0000_0000_0000_0000
    ensures buf == VarBytesWire(d) + LeBytes(LeValue(buf[p..]), 8)
  {
    var s := buf[p..];
    LeBytesOfLeValue(s);
    Pow256Values();
    JoinAt(buf, p, VarBytesWire(d), LeBytes(LeValue(s), 8));
  }

  lemma JoinAt(buf: seq<byte>, p: nat, a: seq<byte>, b: seq<byte>)
    requires p <= |buf| && buf[..p] == a && buf[p..] == b
    ensures buf == a + b
  {
    assert buf == buf[..p] + buf[p..];
  }

  /** The call data decodes to `(toAddress, toChainId)` exactly when serialising them gives
      these bytes. */
  lemma CallDataRoundTrip(buf: seq<byte>, toAddress: seq<byte>, toChainId: nat)
    ensures DeserializeCallData(buf) == Ok((toAddress, toChainId)) <==> SerializeCallData(toAddress, toChainId) == Ok(buf)
  {
    SerializeCallDataWire(toAddress, toChainId);
    if SerializeCallData(toAddress, toChainId) == Ok(buf) {
      ReadCallDataWire(toAddress, toChainId);
    }
    if DeserializeCallData(buf) == Ok((toAddress, toChainId)) {
      CallDataIsWire(buf);
    }
  }

  /** Reads the `serializeTxArgs` layout: var-bytes asset, var-bytes address, a 32-byte
      little-endian token id, var-bytes URI, and nothing after it. */
  function DeserializeTxArgs(buf: seq<byte>): Result<TxArgs, DecodeError>
  {
    var asset :- ReadVarBytes(buf, 0);
    var address :- ReadVarBytes(buf, asset.1);
    if |buf| - address.1 < 32 then Err(MalformedLength)
    else
      var tokenId := LeValue(buf[address.1 .. address.1 + 32]);
      var uri :- ReadVarBytes(buf, address.1 + 32);
      if uri.1 != |buf| then Err(InvalidPayload)
      else Ok(TxArgs(asset.0, address.0, tokenId, uri.0))
  }

  /** The serialised arguments decode to exactly these arguments, and every buffer that
      decodes is the serialisation of what it decodes to. */
  lemma TxArgsRoundTrip(buf: seq<byte>, args: TxArgs)
    ensures DeserializeTxArgs(buf) == Ok(args) <==> SerializeTxArgs(args) == Ok(buf)
  {
    SerializeTxArgsWire(args);
    if SerializeTxArgs(args) == Ok(buf) {
      ReadTxArgsWire(args);
    }
    if DeserializeTxArgs(buf) == Ok(args) {
      TxArgsIsWire(buf);
    }
  }

  lemma ReadTxArgsWire(args: TxArgs)
    requires TxArgsInRange(args)
    ensures DeserializeTxArgs(TxArgsWire(args)) == Ok(args)
  {
    var p1, p2 := TxArgsWireAt(args);
    ReadTxArgsAt(TxArgsWire(args), p1, p2, args);
  }

  /** Where each part of `TxArgsWire(args)` sits. */
  lemma TxArgsWireAt(args: TxArgs) returns (p1: nat, p2: nat)
    requires TxArgsInRange(args)
    ensures var buf := TxArgsWire(args);
      WireBetween(buf, args.toAssetHash, 0, p1) && WireBetween(buf, args.toAddress, p1, p2)
      && p2 + 32 <= |buf| && args.tokenId == LeValue(buf[p2 .. p2 + 32])
      && WireBetween(buf, args.tokenURI, p2 + 32, |buf|)
  {
    p1, p2 := WireAroundWord(TxArgsWire(args), args.toAssetHash, args.toAddress, LeBytes(args.tokenId, 32), args.tokenURI);
  }

  /** Two var-bytes fields, a 32-byte word and a third field, one after another. */
  lemma WireAroundWord(buf: seq<byte>, x: seq<byte>, y: seq<byte>, word: seq<byte>, z: seq<byte>) returns (p1: nat, p2: nat)
    requires |x| < 0x1_0000_0000_0000_0000 && |y| < 0x1_0000_0000_0000_0000
    requires |z| < 0x1_0000_0000_0000_0000 && |word| == 32
    requires buf == VarBytesWire(x) + VarBytesWire(y) + word + VarBytesWire(z)
    ensures WireBetween(buf, x, 0, p1) && WireBetween(buf, y, p1, p2)
    ensures p2 + 32 <= |buf| && buf[p2 .. p2 + 32] == word && WireBetween(buf, z, p2 + 32, |buf|)
  {
    var a, b, c := VarBytesWire(x), VarBytesWire(y), VarBytesWire(z);
    PartsOfFour(a, b, word, c);
    p1, p2 := |a|, |a| + |b|;
  }

  /** The reader walks four consecutive parts: three var-bytes fields around a 32-byte word. */
  lemma ReadTxArgsAt(buf: seq<byte>, p1: nat, p2: nat, args: TxArgs)
    requires WireBetween(buf, args.toAssetHash, 0, p1) && WireBetween(buf, args.toAddress, p1, p2)
    requires p2 + 32 <= |buf| && args.tokenId == LeValue(buf[p2 .. p2 + 32])
    requires WireBetween(buf, args.tokenURI, p2 + 32, |buf|)
    ensures DeserializeTxArgs(buf) == Ok(args)
  {
    ReadVarBytesBetween(buf, args.toAssetHash, 0, p1);
    ReadVarBytesBetween(buf, args.toAddress, p1, p2);
    ReadVarBytesBetween(buf, args.tokenURI, p2 + 32, |buf|);
    DeserializeTxArgsSteps(buf, args.toAssetHash, p1, args.toAddress, p2, args.tokenURI);
  }

  /** Each of four concatenated parts is found at its offset. */
  lemma PartsOfFour(a: seq<byte>, b: seq<byte>, c: seq<byte>, d: seq<byte>)
    ensures var buf := a + b + c + d;
      buf[0 .. |a|] == a && buf[|a| .. |a| + |b|] == b
      && buf[|a| + |b| .. |a| + |b| + |c|] == c && buf[|a| + |b| + |c| .. |buf|] == d
  {
    var buf := a + b + c + d;
    assert buf[0 .. |a|] == a;
    assert buf[|a| .. |a| + |b|] == b;
    assert buf[|a| + |b| .. |a| + |b| + |c|] == c;
    assert buf[|a| + |b| + |c| .. |buf|] == d;
  }

  /** The reader's steps, one field at a time. */
  lemma DeserializeTxArgsSteps(buf: seq<byte>, a: seq<byte>, p1: nat, b: seq<byte>, p2: nat, c: seq<byte>)
    requires ReadVarBytes(buf, 0) == Ok((a, p1))
    requires ReadVarBytes(buf, p1) == Ok((b, p2))
    requires p2 + 32 <= |buf|
    requires ReadVarBytes(buf, p2 + 32) == Ok((c, |buf|))
    ensures DeserializeTxArgs(buf) == Ok(TxArgs(a, b, LeValue(buf[p2 .. p2 + 32]), c))
  {
  }

  lemma TxArgsIsWire(buf: seq<byte>)
    requires DeserializeTxArgs(buf).Ok?
    ensures TxArgsInRange(DeserializeTxArgs(buf).value)
    ensures buf == TxArgsWire(DeserializeTxArgs(buf).value)
  {
    var args := DeserializeTxArgs(buf).value;
    var p1, p2 := TxArgsReadOffsets(buf);
    ReadVarBytesIsWire(buf, 0);
    assert WireBetween(buf, args.toAssetHash, 0, p1);
    ReadVarBytesIsWire(buf, p1);
    assert WireBetween(buf, args.toAddress, p1, p2);
    ReadVarBytesIsWire(buf, p2 + 32);
    assert WireBetween(buf, args.tokenURI, p2 + 32, |buf|);
    TxArgsJoin(buf, p1, p2, args);
  }

  /** Four consecutive parts in the layout's order, each the wire form of its field, make up
      the layout of those arguments. */
  lemma TxArgsJoin(buf: seq<byte>, p1: nat, p2: nat, args: TxArgs)
    requires WireBetween(buf, args.toAssetHash, 0, p1) && WireBetween(buf, args.toAddress, p1, p2)
    requires p2 + 32 <= |buf| && args.tokenId == LeValue(buf[p2 .. p2 + 32])
    requires WireBetween(buf, args.tokenURI, p2 + 32, |buf|)
    ensures TxArgsInRange(args) && buf == TxArgsWire(args)
  {
    var s := buf[p2 .. p2 + 32];
    LeBytesOfLeValue(s);
    TxArgsPartsJoin(buf, p1, p2, args.toAssetHash, args.toAddress, s, args.tokenURI);
  }

  /** Where the reader found each field of the arguments it returns. */
  lemma TxArgsReadOffsets(buf: seq<byte>) returns (p1: nat, p2: nat)
    requires DeserializeTxArgs(buf).Ok?
    ensures var args := DeserializeTxArgs(buf).value;
      ReadVarBytes(buf, 0) == Ok((args.toAssetHash, p1))
      && ReadVarBytes(buf, p1) == Ok((args.toAddress, p2))
      && p2 + 32 <= |buf| && args.tokenId == LeValue(buf[p2 .. p2 + 32])
      && ReadVarBytes(buf, p2 + 32) == Ok((args.tokenURI, |buf|))
  {
    p1 := ReadVarBytes(buf, 0).value.1;
    p2 := ReadVarBytes(buf, p1).value.1;
  }

  /** A buffer cut into four consecutive parts is the concatenation of those parts. */
  lemma TxArgsPartsJoin(buf: seq<byte>, p1: nat, p2: nat, a: seq<byte>, b: seq<byte>, s: seq<byte>, c: seq<byte>)
    requires p1 <= p2 && p2 + 32 <= |buf| && |s| == 32
    requires |a| < 0x1_0000_0000_0000_0000 && |b| < 0x1_0000_0000_0000_0000 && |c| < 0x1_0000_0000_0000_0000
    requires VarBytesWire(a) == buf[0..p1] && VarBytesWire(b) == buf[p1..p2]
    requires s == buf[p2 .. p2 + 32] && VarBytesWire(c) == buf[p2 + 32 ..]
    ensures buf == VarBytesWire(a) + VarBytesWire(b) + s + VarBytesWire(c)
  {
    assert buf == buf[0..p1] + buf[p1..p2] + buf[p2 .. p2 + 32] + buf[p2 + 32 ..];
  }

  /** The inverse of `addressToBytes32` for a 20-byte address: the word must be 32 bytes
      whose first twelve are zero. */
  function Bytes32ToAddress(word: seq<byte>): Result<seq<byte>, DecodeError>
  {
    if |word| != 32 then Err(MalformedLength)
    else if word[..12] != Zeros(12) then Err(NotAnAddress)
    else Ok(word[12..])
  }

  lemma AddressWordRoundTrip(word: seq<byte>, address: seq<byte>)
    ensures Bytes32ToAddress(word) == Ok(address) <==> (|address| == 20 && AddressToBytes32(address) == Ok(word))
  {
    if |address| == 20 && AddressToBytes32(address) == Ok(word) {
      assert word[..12] == Zeros(12);
    }
    if Bytes32ToAddress(word) == Ok(address) {
      var padded := AddressToBytes32(address).value;
      assert padded == padded[..12] + padded[12..];
      assert word == word[..12] + word[12..];
    }
  }
}
