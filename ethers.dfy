/** The behaviour of the ethers v5 helpers that the serialiser relies on: `BigNumber`'s
    hex rendering and byte view, `zeroPad`/`hexZeroPad`, and `solidityPack` restricted to
    the `uintN` and `bytes` types the serialiser packs. */
module Ethers {
  import opened Wrappers
  import opened Bytes

  /** What the helpers throw. */
  datatype EncodeError =
    | RangeError       // `TypedArray.prototype.set` with a source longer than the target
    | ValueOutOfRange  // ethers `zeroPad`/`hexZeroPad`: the value has more bytes than the width

  /** The big-endian bytes of `v` with no leading zero byte, and `[0]` for zero:
      `arrayify` of a `BigNumber`. */
  function MinimalBytes(v: nat): (r: seq<byte>)
    ensures 1 <= |r|
  {
    if v < 256 then [v] else MinimalBytes(v / 256) + [v % 256]
  }

  /** `MinimalBytes(v)` fits `n` bytes exactly when `n` is at least one and `v < 256^n`;
      it is then `v`'s `n`-byte big-endian form with its leading zeros removed. */
  lemma {:induction false} MinimalBytesFits(v: nat, n: nat)
    ensures |MinimalBytes(v)| <= n <==> 1 <= n && v < Pow256(n)
    ensures |MinimalBytes(v)| <= n ==> Zeros(n - |MinimalBytes(v)|) + MinimalBytes(v) == BeBytes(v, n)
  {
    var m := MinimalBytes(v);
    if v < 256 {
      if 1 <= n {
        Pow256Monotone(1, n);
        BeBytesZero(n - 1);
        assert BeBytes(v, n) == BeBytes(0, n - 1) + [v];
      }
    } else {
      MinimalBytesFits(v / 256, if n == 0 then 0 else n - 1);
      if n >= 1 {
        if |m| <= n {
          assert BeBytes(v, n) == BeBytes(v / 256, n - 1) + [v % 256];
          assert Zeros(n - |m|) + m == (Zeros(n - 1 - |MinimalBytes(v / 256)|) + MinimalBytes(v / 256)) + [v % 256];
        }
      } else {
        assert |m| > n;
      }
    }
  }

  /** Digits of `BN.toString(16)`. */
  const HexChars: string := "0123456789abcdef"

  function HexDigit(d: nat): char
    requires d < 16
  {
    HexChars[d]
  }

  /** `v` in base 16, most significant digit first, no leading zeros ("0" for zero). */
  function Base16(v: nat): (s: string)
    ensures 1 <= |s|
  {
    if v < 16 then [HexDigit(v)] else Base16(v / 16) + [HexDigit(v % 16)]
  }

  /** `BigNumber.from(v).toHexString()`: "0x" and the base-16 digits, left-padded with one
      "0" to an even count. */
  function ToHexString(v: nat): (s: string)
  {
    "0x" + EvenPad(Base16(v))
  }

  function EvenPad(h: string): string
  {
    if |h| % 2 == 1 then "0" + h else h
  }

  /** Two lower-case hex digits per byte. */
  function HexOfBytes(bs: seq<byte>): (s: string)
    ensures |s| == 2 * |bs|
  {
    if |bs| == 0 then [] else
      var b := bs[|bs| - 1];
      HexOfBytes(bs[..|bs| - 1]) + [HexDigit(b / 16), HexDigit(b % 16)]
  }

  predicate IsHexDigit(c: char)
  {
    '0' <= c <= '9' || 'a' <= c <= 'f'
  }

  function HexValue(c: char): (d: nat)
    requires IsHexDigit(c)
  {
    if '0' <= c <= '9' then c as nat - '0' as nat else c as nat - 'a' as nat + 10
  }

  predicate IsHexPair(s: string)
  {
    |s| == 2 && IsHexDigit(s[0]) && IsHexDigit(s[1])
  }

  /** Digits `2k` and `2k + 1` of `h`. */
  function HexPair(h: string, k: nat): string
    requires 2 * k + 2 <= |h|
  {
    h[2 * k .. 2 * k + 2]
  }

  /** `parseInt(s, 16)` for a two-digit hex string. */
  function ParseHexByte(s: string): (b: byte)
    requires IsHexPair(s)
  {
    16 * HexValue(s[0]) + HexValue(s[1])
  }

  lemma HexDigitValue(d: nat)
    requires d < 16
    ensures IsHexDigit(HexDigit(d)) && HexValue(HexDigit(d)) == d
  {
  }

  /** Pair `k` of `HexOfBytes(bs)` spells byte `k` of `bs`, so parsing it gives that byte back. */
  lemma {:induction false} HexOfBytesAt(bs: seq<byte>, k: nat)
    requires k < |bs|
    ensures IsHexPair(HexPair(HexOfBytes(bs), k)) && ParseHexByte(HexPair(HexOfBytes(bs), k)) == bs[k]
  {
    var b := bs[|bs| - 1];
    if k < |bs| - 1 {
      HexOfBytesAt(bs[..|bs| - 1], k);
      assert HexPair(HexOfBytes(bs), k) == HexPair(HexOfBytes(bs[..|bs| - 1]), k);
    } else {
      var h := HexOfBytes(bs[..|bs| - 1]);
      assert HexOfBytes(bs) == h + [HexDigit(b / 16), HexDigit(b % 16)];
      assert HexPair(HexOfBytes(bs), k) == [HexDigit(b / 16), HexDigit(b % 16)];
      HexDigitValue(b / 16);
      HexDigitValue(b % 16);
    }
  }

  lemma DigitSplit(v: nat)
    ensures v / 16 / 16 == v / 256
    ensures (v % 256) / 16 == (v / 16) % 16 && (v % 256) % 16 == v % 16
  {
    DivDiv(v, 16, 16);
    var q, r := v / 256, v % 256;
    assert v == 256 * q + r;
    DivUnique(v, 16, 16 * q + r / 16, r % 16);
    DivUnique(v / 16, 16, q, r / 16);
  }

  lemma Base16Step(v: nat)
    requires v >= 256
    ensures Base16(v) == Base16(v / 256) + [HexDigit((v / 16) % 16), HexDigit(v % 16)]
  {
    DigitSplit(v);
  }

  lemma HexOfMinimalStep(v: nat)
    requires v >= 256
    ensures HexOfBytes(MinimalBytes(v)) == HexOfBytes(MinimalBytes(v / 256)) + [HexDigit((v / 16) % 16), HexDigit(v % 16)]
  {
    DigitSplit(v);
    var m := MinimalBytes(v);
    assert m[..|m| - 1] == MinimalBytes(v / 256);
  }

  /** The hex string BigNumber renders is the minimal big-endian bytes of `v`, two digits each. */
  lemma HexStringBytes(v: nat)
    ensures ToHexString(v)[2..] == HexOfBytes(MinimalBytes(v))
  {
    PaddedBase16(v);
  }

  /** So parsing the rendered hex string two digits at a time yields `MinimalBytes(v)`. */
  lemma HexStringPairs(v: nat)
    ensures var h, m := ToHexString(v)[2..], MinimalBytes(v);
      |h| == 2 * |m| &&
      forall k {:trigger HexPair(h, k)} :: 0 <= k < |m| ==>
        IsHexPair(HexPair(h, k)) && ParseHexByte(HexPair(h, k)) == m[k]
  {
    HexStringBytes(v);
    forall k | 0 <= k < |MinimalBytes(v)|
      ensures IsHexPair(HexPair(HexOfBytes(MinimalBytes(v)), k))
      ensures ParseHexByte(HexPair(HexOfBytes(MinimalBytes(v)), k)) == MinimalBytes(v)[k]
    {
      HexOfBytesAt(MinimalBytes(v), k);
    }
  }

  lemma {:induction false} PaddedBase16(v: nat)
    ensures EvenPad(Base16(v)) == HexOfBytes(MinimalBytes(v))
  {
    if v < 256 {
      PaddedBase16Byte(v);
    } else {
      PaddedBase16(v / 256);
      Base16Step(v);
      HexOfMinimalStep(v);
      PadAppend(Base16(v / 256), [HexDigit((v / 16) % 16), HexDigit(v % 16)]);
    }
  }

  /** One byte renders as two digits, the first a padding "0" below 16. */
  lemma PaddedBase16Byte(v: nat)
    requires v < 256
    ensures EvenPad(Base16(v)) == HexOfBytes(MinimalBytes(v))
  {
    var m := MinimalBytes(v);
    assert m == [v];
    assert HexOfBytes(m) == HexOfBytes([]) + [HexDigit(v / 16), HexDigit(v % 16)];
    if v < 16 {
      assert HexDigit(0) == '0';
      assert Base16(v) == [HexDigit(v % 16)];
    } else {
      assert Base16(v) == [HexDigit(v / 16), HexDigit(v % 16)];
    }
  }

  lemma PadAppend(h: string, t: string)
    requires |t| == 2
    ensures EvenPad(h + t) == EvenPad(h) + t
  {
    if |h| % 2 == 1 {
      assert "0" + (h + t) == ("0" + h) + t;
    }
  }

  /** ethers `zeroPad(value, length)`: left-pad with zero bytes; longer values are refused. */
  function ZeroPad(value: seq<byte>, length: nat): (r: Result<seq<byte>, EncodeError>)
    ensures r.Ok? <==> |value| <= length
    ensures r.Ok? ==> |r.value| == length
    ensures r.Ok? ==> r.value[length - |value|..] == value
    ensures r.Ok? ==> r.value[..length - |value|] == Zeros(length - |value|)
  {
    if |value| > length then Err(ValueOutOfRange) else Ok(Zeros(length - |value|) + value)
  }

  /** `BigNumber.from(bytes)` for a byte array: its big-endian value. */
  function BigNumberFromBytes(bs: seq<byte>): nat
  {
    BeValue(bs)
  }

  /** `solidityPack` of one `uint<bits>` value: `zeroPad(arrayify(value), bits / 8)`. */
  function PackUint(bits: nat, value: nat): (r: Result<seq<byte>, EncodeError>)
    ensures r.Ok? <==> 1 <= bits / 8 && value < Pow256(bits / 8)
    ensures r.Ok? ==> r.value == BeBytes(value, bits / 8)
  {
    MinimalBytesFits(value, bits / 8);
    ZeroPad(MinimalBytes(value), bits / 8)
  }

  /** Handing `solidityPack` a `uint<8 * |bs|>` given as the byte array `bs` writes `bs` back
      unchanged: BigNumber reads the array big-endian and the packer writes it big-endian. */
  lemma PackUintOfBytes(bs: seq<byte>)
    requires 1 <= |bs|
    ensures PackUint(8 * |bs|, BigNumberFromBytes(bs)) == Ok(bs)
  {
    BeBytesOfBeValue(bs);
  }

  /** One argument of `solidityPack`, with the type it is packed as. */
  datatype PackItem = UintItem(bits: nat, value: nat) | BytesItem(data: seq<byte>)

  function PackOne(item: PackItem): Result<seq<byte>, EncodeError>
  {
    match item
    case UintItem(bits, value) => PackUint(bits, value)
    case BytesItem(data) => Ok(data)
  }

  /** `solidityPack(types, values)`: the packed items, one after another, with no padding. */
  function SolidityPack(items: seq<PackItem>): Result<seq<byte>, EncodeError>
  {
    if |items| == 0 then Ok([]) else
      var head :- PackOne(items[0]);
      var tail :- SolidityPack(items[1..]);
      Ok(head + tail)
  }

  /** Packing succeeds exactly when every item packs on its own. */
  lemma {:induction false} SolidityPackAccepts(items: seq<PackItem>)
    ensures SolidityPack(items).Ok? <==> forall i :: 0 <= i < |items| ==> PackOne(items[i]).Ok?
  {
    if |items| > 0 {
      SolidityPackAccepts(items[1..]);
      assert forall i :: 1 <= i < |items| ==> items[i] == items[1..][i - 1];
    }
  }

  lemma SolidityPackCons(items: seq<PackItem>)
    requires |items| > 0 && PackOne(items[0]).Ok? && SolidityPack(items[1..]).Ok?
    ensures SolidityPack(items) == Ok(PackOne(items[0]).value + SolidityPack(items[1..]).value)
  {
  }

  lemma SolidityPackTwo(a: PackItem, b: PackItem)
    requires PackOne(a).Ok? && PackOne(b).Ok?
    ensures SolidityPack([a, b]) == Ok(PackOne(a).value + PackOne(b).value)
  {
    assert [b][1..] == [];
    SolidityPackCons([b]);
    assert PackOne(b).value + [] == PackOne(b).value;
    assert [a, b][1..] == [b];
    SolidityPackCons([a, b]);
  }

  /** Packing two lists one after the other packs each and concatenates the results. */
  lemma {:induction false} SolidityPackAppend(xs: seq<PackItem>, ys: seq<PackItem>)
    requires SolidityPack(xs).Ok? && SolidityPack(ys).Ok?
    ensures SolidityPack(xs + ys) == Ok(SolidityPack(xs).value + SolidityPack(ys).value)
  {
    if |xs| == 0 {
      assert xs + ys == ys;
      assert SolidityPack(xs).value == [];
      assert [] + SolidityPack(ys).value == SolidityPack(ys).value;
    } else {
      var head := PackOne(xs[0]).value;
      SolidityPackAppend(xs[1..], ys);
      assert (xs + ys)[1..] == xs[1..] + ys;
      SolidityPackCons(xs + ys);
      var rest, tail := SolidityPack(xs[1..]).value, SolidityPack(ys).value;
      assert SolidityPack(xs).value == head + rest;
      assert head + (rest + tail) == (head + rest) + tail;
    }
  }

  /** `hexZeroPad(value, length)`: the same padding as `zeroPad`, on hex strings. */
  function HexZeroPad(value: seq<byte>, length: nat): Result<seq<byte>, EncodeError>
  {
    ZeroPad(value, length)
  }
}
