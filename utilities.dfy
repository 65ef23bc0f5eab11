/** The payload serialiser of the bridge tests: fixed-width little-endian integers, the
    Bitcoin-style CompactSize length prefix, length-prefixed byte strings, and the fixed
    layouts built from them. */
module Utilities {
  import opened Wrappers
  import opened Bytes
  import opened Ethers

  /** What `writeUint(v, length)` returns: the minimal big-endian bytes of `v` reversed and
      copied to the front of a zeroed buffer of `length / 8` bytes; the copy throws when the
      reversed bytes do not fit. */
  function WriteUintOf(v: nat, length: nat): Result<seq<byte>, EncodeError>
  {
    var reversed := Reverse(MinimalBytes(v));
    if |reversed| > length / 8 then Err(RangeError)
    else Ok(reversed + Zeros(length / 8 - |reversed|))
  }

  /** `writeUint` succeeds exactly when the buffer has room for at least one byte and `v`
      fits it, and then returns the `length / 8`-byte little-endian form of `v`. */
  lemma WriteUintLittleEndian(v: nat, length: nat)
    ensures WriteUintOf(v, length).Ok? <==> 1 <= length / 8 && v < Pow256(length / 8)
    ensures WriteUintOf(v, length).Ok? ==> WriteUintOf(v, length).value == LeBytes(v, length / 8)
  {
    var n := length / 8;
    var m := MinimalBytes(v);
    MinimalBytesFits(v, n);
    if |m| <= n {
      ReverseAppend(Zeros(n - |m|), m);
      ReverseZeros(n - |m|);
      ReverseBeBytes(v, n);
    }
  }

  /** Byte `i` of a successful `writeUint(v, length)` is `(v / 256^i) % 256`; the result has
      exactly `length / 8` bytes and reads back little-endian as `v`. */
  lemma WriteUintBytes(v: nat, length: nat)
    requires WriteUintOf(v, length).Ok?
    ensures var r := WriteUintOf(v, length).value;
      |r| == length / 8 && LeValue(r) == v
      && forall i :: 0 <= i < |r| ==> r[i] == (v / Pow256(i)) % 256
  {
    WriteUintLittleEndian(v, length);
    forall i | 0 <= i < length / 8
      ensures LeBytes(v, length / 8)[i] == (v / Pow256(i)) % 256
    {
      LeBytesAt(v, length / 8, i);
    }
  }

  /** `uint8Array.reverse()`: reverses the array in place. */
  method ReverseInPlace(a: array<byte>)
    modifies a
    ensures a[..] == Reverse(old(a[..]))
  {
    ghost var was := a[..];
    var n := a.Length;
    var i := 0;
    while i < n / 2
      invariant 0 <= i <= n / 2
      invariant forall k :: 0 <= k < i ==> a[k] == was[n - 1 - k] && a[n - 1 - k] == was[k]
      invariant forall k :: i <= k < n - i ==> a[k] == was[k]
    {
      a[i], a[n - 1 - i] := a[n - 1 - i], a[i];
      i := i + 1;
    }
    forall k | 0 <= k < n
      ensures a[..][k] == Reverse(was)[k]
    {
      ReverseAt(was, k);
    }
  }

  /** The loop of `writeUint`: byte `c / 2` of a fresh array is `parseInt` of hex digits
      `c` and `c + 1`, for every even `c`. */
  method ParseHexPairs(hexString: string) returns (bytes: array<byte>)
    requires |hexString| % 2 == 0
    requires forall k :: 0 <= k < |hexString| / 2 ==> IsHexPair(HexPair(hexString, k))
    ensures fresh(bytes) && bytes.Length == |hexString| / 2
    ensures forall k :: 0 <= k < bytes.Length ==> bytes[k] == ParseHexByte(HexPair(hexString, k))
  {
    bytes := new byte[|hexString| / 2];
    var c := 0;
    while c < |hexString|
      invariant c % 2 == 0 && 0 <= c <= |hexString|
      invariant forall k :: 0 <= k < c / 2 ==> bytes[k] == ParseHexByte(HexPair(hexString, k))
    {
      assert hexString[c..c + 2] == HexPair(hexString, c / 2);
      bytes[c / 2] := ParseHexByte(hexString[c..c + 2]);
      c := c + 2;
    }
  }

  /** `target.set(source, 0)`: copy `source` over the front of `target`, or throw a
      `RangeError` (leaving `target` untouched) when it does not fit. */
  method SetFromStart(target: array<byte>, source: array<byte>) returns (ok: bool)
    modifies target
    ensures ok <==> source.Length <= target.Length
    ensures ok ==> target[..] == old(source[..]) + old(target[source.Length..])
    ensures !ok ==> target[..] == old(target[..])
  {
    if source.Length > target.Length {
      return false;
    }
    ghost var src := source[..];
    ghost var dst := target[..];
    for i := 0 to source.Length
      invariant forall k :: 0 <= k < i ==> target[k] == src[k]
      invariant forall k :: i <= k < target.Length ==> target[k] == dst[k]
      invariant forall k :: i <= k < source.Length ==> source[k] == src[k]
    {
      target[i] := source[i];
    }
    assert target[..] == src + dst[source.Length..];
    return true;
  }

  /** The first half of `writeUint`: `v.toHexString()` without its `0x`, parsed two digits at
      a time into a fresh array, which holds the minimal big-endian bytes of `v`. */
  method HexBytes(v: nat) returns (bytes: array<byte>)
    ensures fresh(bytes) && bytes[..] == MinimalBytes(v)
  {
    var hexString := ToHexString(v)[2..];
    HexStringPairs(v);
    bytes := ParseHexPairs(hexString);
  }

  /** `writeUint(v, length)`: render `v` in hex, parse it two digits at a time into a byte
      array, reverse that array, and copy it into a zeroed `length / 8`-byte buffer. */
  method WriteUint(v: nat, length: nat) returns (r: Result<seq<byte>, EncodeError>)
    ensures r == WriteUintOf(v, length)
    ensures r.Ok? <==> 1 <= length / 8 && v < Pow256(length / 8)
    ensures r.Ok? ==> r.value == LeBytes(v, length / 8)
  {
    var uint8Array := HexBytes(v);
    var uint256 := new byte[length / 8](_ => 0);
    assert uint256[..] == Zeros(length / 8);
    ReverseInPlace(uint8Array);
    ghost var reversed := uint8Array[..];
    var fits := SetFromStart(uint256, uint8Array);
    if !fits {
      r := Err(RangeError);
    } else {
      assert Zeros(length / 8)[uint8Array.Length..] == Zeros(length / 8 - uint8Array.Length);
      r := Ok(uint256[..]);
    }
    WriteUintLittleEndian(v, length);
  }

  /** `WriteVarUint(l)`: the CompactSize encoding of `l`; the smallest tier that holds `l`. */
  function WriteVarUint(l: nat): Result<seq<byte>, EncodeError>
  {
    if l < 0xfd then
      WriteUintOf(l, 8)
    else if l <= 0xffff then
      var le :- WriteUintOf(l, 16);
      SolidityPack([UintItem(8, 0xfd), UintItem(16, BigNumberFromBytes(le))])
    else if l <= 0xffff_ffff then
      var le :- WriteUintOf(l, 32);
      SolidityPack([UintItem(8, 0xfe), UintItem(32, BigNumberFromBytes(le))])
    else
      var le :- WriteUintOf(l, 64);
      SolidityPack([UintItem(8, 0xff), UintItem(64, BigNumberFromBytes(le))])
  }

  /** A marker byte followed by the little-endian value in `width` bytes. */
  lemma PrefixedTier(l: nat, marker: byte, width: nat, le: seq<byte>)
    requires 1 <= width && l < Pow256(width) && le == LeBytes(l, width)
    ensures SolidityPack([UintItem(8, marker), UintItem(8 * width, BigNumberFromBytes(le))])
      == Ok([marker] + le)
  {
    PackUintOfBytes(le);
    PackUintOfBytes([marker]);
    assert BigNumberFromBytes([marker]) == marker by {
      assert [marker][..0] == [];
    }
    SolidityPackTwo(UintItem(8, marker), UintItem(8 * width, BigNumberFromBytes(le)));
  }

  /** The four tiers, and the error once `l` needs more than eight bytes. */
  lemma WriteVarUintTiers(l: nat)
    ensures l < 0xfd ==> WriteVarUint(l) == Ok([l])
    ensures 0xfd <= l <= 0xffff ==> WriteVarUint(l) == Ok([0xfd] + LeBytes(l, 2))
    ensures 0x1_0000 <= l <= 0xffff_ffff ==> WriteVarUint(l) == Ok([0xfe] + LeBytes(l, 4))
    ensures 0x1_0000_0000 <= l < 0x1_0000_0000_0000_0000 ==> WriteVarUint(l) == Ok([0xff] + LeBytes(l, 8))
    ensures l >= 0x1_0000_0000_0000_0000 ==> WriteVarUint(l) == Err(RangeError)
  {
    WriteVarUintWire(l);
  }

  lemma SingleByteTier(l: nat)
    requires l < 0xfd
    ensures WriteVarUint(l) == Ok([l])
  {
    Pow256Values();
    WriteUintLittleEndian(l, 8);
    assert LeBytes(l / 256, 0) == [];
  }

  lemma TwoByteTier(l: nat)
    requires 0xfd <= l <= 0xffff
    ensures WriteVarUint(l) == Ok([0xfd] + LeBytes(l, 2))
  {
    Pow256Values();
    WriteUintLittleEndian(l, 16);
    PrefixedTier(l, 0xfd, 2, LeBytes(l, 2));
  }

  lemma FourByteTier(l: nat)
    requires 0x1_0000 <= l <= 0xffff_ffff
    ensures WriteVarUint(l) == Ok([0xfe] + LeBytes(l, 4))
  {
    Pow256Values();
    WriteUintLittleEndian(l, 32);
    PrefixedTier(l, 0xfe, 4, LeBytes(l, 4));
  }

  lemma EightByteTier(l: nat)
    requires 0x1_0000_0000 <= l < 0x1_0000_0000_0000_0000
    ensures WriteVarUint(l) == Ok([0xff] + LeBytes(l, 8))
  {
    Pow256Values();
    WriteUintLittleEndian(l, 64);
    PrefixedTier(l, 0xff, 8, LeBytes(l, 8));
  }

  lemma TooLargeTier(l: nat)
    requires l >= 0x1_0000_0000_0000_0000
    ensures WriteVarUint(l) == Err(RangeError)
  {
    Pow256Values();
    WriteUintLittleEndian(l, 64);
  }

  /** The CompactSize wire form of a value below `2^64`: the value itself when it is below
      `0xfd`, otherwise a marker byte and the value little-endian in 2, 4 or 8 bytes. */
  function VarUintWire(l: nat): (r: seq<byte>)
    requires l < 0x1_0000_0000_0000_0000
    ensures 1 <= |r|
  {
    Pow256Values();
    if l < 0xfd then [l]
    else if l <= 0xffff then [0xfd] + LeBytes(l, 2)
    else if l <= 0xffff_ffff then [0xfe] + LeBytes(l, 4)
    else [0xff] + LeBytes(l, 8)
  }

  /** `WriteVarUint` writes the wire form, and throws for values of 64 bits or more. */
  lemma WriteVarUintWire(l: nat)
    ensures l < 0x1_0000_0000_0000_0000 ==> WriteVarUint(l) == Ok(VarUintWire(l))
    ensures l >= 0x1_0000_0000_0000_0000 ==> WriteVarUint(l) == Err(RangeError)
  {
    if l < 0xfd {
      SingleByteTier(l);
    } else if l <= 0xffff {
      TwoByteTier(l);
    } else if l <= 0xffff_ffff {
      FourByteTier(l);
    } else if l < 0x1_0000_0000_0000_0000 {
      EightByteTier(l);
    } else {
      TooLargeTier(l);
    }
  }

  /** The encoded size of a length that the encoder accepts. */
  function VarUintSize(l: nat): nat
  {
    if l < 0xfd then 1 else if l <= 0xffff then 3 else if l <= 0xffff_ffff then 5 else 9
  }

  /** Canonicity: the marker byte says which tier was used, and the branch order makes that
      the smallest tier that holds `l`, so a wider marker implies a value too large for every
      narrower tier. */
  lemma WriteVarUintCanonical(l: nat)
    requires WriteVarUint(l).Ok?
    ensures var e := WriteVarUint(l).value;
      |e| == VarUintSize(l)
      && (e[0] < 0xfd <==> l < 0xfd) && (e[0] < 0xfd ==> e[0] == l)
      && (e[0] == 0xfd <==> 0xfd <= l <= 0xffff)
      && (e[0] == 0xfe <==> 0x1_0000 <= l <= 0xffff_ffff)
      && (e[0] == 0xff <==> 0x1_0000_0000 <= l)
  {
    WriteVarUintWire(l);
  }

  /** `writeVarBytes(data)`: the CompactSize length of `data` followed by `data`. */
  function WriteVarBytes(data: seq<byte>): Result<seq<byte>, EncodeError>
  {
    var prefix :- WriteVarUint(|data|);
    SolidityPack([BytesItem(prefix), BytesItem(data)])
  }

  /** `writeVarBytes(d)` is `WriteVarUint(|d|)` followed by `d` itself; it fails only for a
      length beyond 64 bits, and an empty `d` encodes as the single byte `0x00`. */
  lemma WriteVarBytesLayout(data: seq<byte>)
    ensures WriteVarBytes(data).Ok? <==> |data| < 0x1_0000_0000_0000_0000
    ensures WriteVarBytes(data).Ok? ==> WriteVarUint(|data|).Ok?
    ensures WriteVarBytes(data).Ok? ==> WriteVarBytes(data).value == WriteVarUint(|data|).value + data
    ensures |data| == 0 ==> WriteVarBytes(data) == Ok([0x00])
  {
    WriteVarUintWire(|data|);
    if WriteVarUint(|data|).Ok? {
      SolidityPackTwo(BytesItem(WriteVarUint(|data|).value), BytesItem(data));
      assert [0x00] + [] == [0x00];
    }
  }

  lemma WriteVarBytesAccepts(data: seq<byte>)
    ensures WriteVarBytes(data).Ok? <==> |data| < 0x1_0000_0000_0000_0000
  {
    WriteVarBytesLayout(data);
  }

  /** The wire form of a byte string shorter than `2^64`: its length's wire form, then itself. */
  function VarBytesWire(data: seq<byte>): (r: seq<byte>)
    requires |data| < 0x1_0000_0000_0000_0000
    ensures |r| > |data|
  {
    VarUintWire(|data|) + data
  }

  lemma WriteVarBytesWire(data: seq<byte>)
    ensures |data| < 0x1_0000_0000_0000_0000 ==> WriteVarBytes(data) == Ok(VarBytesWire(data))
    ensures |data| >= 0x1_0000_0000_0000_0000 ==> WriteVarBytes(data).Err?
  {
    WriteVarBytesLayout(data);
    WriteVarUintWire(|data|);
  }

  /** `serializeCallData(toAddress, toChainId)`: the address as var-bytes, then the chain id
      as `writeUint(toChainId, 64)` packed as a `uint64`. */
  function SerializeCallData(toAddress: seq<byte>, toChainId: nat): Result<seq<byte>, EncodeError>
  {
    var address :- WriteVarBytes(toAddress);
    var chainId :- WriteUintOf(toChainId, 64);
    SolidityPack([BytesItem(address), UintItem(64, BigNumberFromBytes(chainId))])
  }

  /** On the wire: var-bytes(toAddress) and the chain id in 8 little-endian bytes. */
  lemma SerializeCallDataLayout(toAddress: seq<byte>, toChainId: nat)
    ensures SerializeCallData(toAddress, toChainId).Ok? <==>
      |toAddress| < 0x1_0000_0000_0000_0000 && toChainId < 0x1_0000_0000_0000_0000
    ensures SerializeCallData(toAddress, toChainId).Ok? ==>
      SerializeCallData(toAddress, toChainId).value
        == WriteVarBytes(toAddress).value + LeBytes(toChainId, 8)
  {
    Pow256Values();
    WriteVarBytesLayout(toAddress);
    WriteUintLittleEndian(toChainId, 64);
    if WriteVarBytes(toAddress).Ok? && toChainId < Pow256(8) {
      var le := LeBytes(toChainId, 8);
      PackUintOfBytes(le);
      SolidityPackTwo(BytesItem(WriteVarBytes(toAddress).value), UintItem(64, BigNumberFromBytes(le)));
    }
  }

  /** `serializeCallData` in wire terms: `VarBytesWire(toAddress)` and then the chain id in
      eight little-endian bytes, or a failure when either is out of range. */
  lemma SerializeCallDataWire(toAddress: seq<byte>, toChainId: nat)
    ensures |toAddress| < 0x1_0000_0000_0000_0000 && toChainId < 0x1_0000_0000_0000_0000 ==>
      SerializeCallData(toAddress, toChainId) == Ok(VarBytesWire(toAddress) + LeBytes(toChainId, 8))
    ensures !(|toAddress| < 0x1_0000_0000_0000_0000 && toChainId < 0x1_0000_0000_0000_0000) ==>
      SerializeCallData(toAddress, toChainId).Err?
  {
    Pow256Values();
    SerializeCallDataLayout(toAddress, toChainId);
    WriteVarBytesWire(toAddress);
  }

  /** The fields `serializeTxArgs` reads from its argument. */
  datatype TxArgs = TxArgs(toAssetHash: seq<byte>, toAddress: seq<byte>, tokenId: nat, tokenURI: seq<byte>)

  /** `serializeTxArgs(args)`: asset and address as var-bytes, the token id as
      `writeUint(tokenId, 256)` packed as a `uint256`, then the URI as var-bytes. */
  function SerializeTxArgs(args: TxArgs): Result<seq<byte>, EncodeError>
  {
    var asset :- WriteVarBytes(args.toAssetHash);
    var address :- WriteVarBytes(args.toAddress);
    var tokenId :- WriteUintOf(args.tokenId, 256);
    var uri :- WriteVarBytes(args.tokenURI);
    SolidityPack([BytesItem(asset), BytesItem(address), UintItem(256, BigNumberFromBytes(tokenId)), BytesItem(uri)])
  }

  /** Four fields, one after another, when each packs. */
  lemma SolidityPackFour(a: PackItem, b: PackItem, c: PackItem, d: PackItem)
    requires PackOne(a).Ok? && PackOne(b).Ok? && PackOne(c).Ok? && PackOne(d).Ok?
    ensures SolidityPack([a, b, c, d])
      == Ok(PackOne(a).value + PackOne(b).value + PackOne(c).value + PackOne(d).value)
  {
    SolidityPackTwo(a, b);
    SolidityPackTwo(c, d);
    SolidityPackAppend([a, b], [c, d]);
    assert [a, b] + [c, d] == [a, b, c, d];
    var va, vb, vc, vd := PackOne(a).value, PackOne(b).value, PackOne(c).value, PackOne(d).value;
    assert (va + vb) + (vc + vd) == va + vb + vc + vd;
  }

  /** On the wire: var-bytes(asset), var-bytes(address), the token id in 32 little-endian
      bytes, var-bytes(URI). */
  lemma SerializeTxArgsLayout(args: TxArgs)
    ensures SerializeTxArgs(args).Ok? <==>
      |args.toAssetHash| < 0x1_0000_0000_0000_0000 && |args.toAddress| < 0x1_0000_0000_0000_0000
      && args.tokenId < Pow256(32) && |args.tokenURI| < 0x1_0000_0000_0000_0000
    ensures SerializeTxArgs(args).Ok? ==>
      SerializeTxArgs(args).value
        == WriteVarBytes(args.toAssetHash).value + WriteVarBytes(args.toAddress).value
           + LeBytes(args.tokenId, 32) + WriteVarBytes(args.tokenURI).value
  {
    TxArgsFieldsPack(args);
    TxArgsFieldsBounds(args);
    if SerializeTxArgs(args).Ok? {
      TxArgsValue(args);
    }
  }

  lemma TxArgsFieldsBounds(args: TxArgs)
    ensures (WriteVarBytes(args.toAssetHash).Ok? && WriteVarBytes(args.toAddress).Ok?
             && WriteUintOf(args.tokenId, 256).Ok? && WriteVarBytes(args.tokenURI).Ok?) <==>
      (|args.toAssetHash| < 0x1_0000_0000_0000_0000 && |args.toAddress| < 0x1_0000_0000_0000_0000
       && args.tokenId < Pow256(32) && |args.tokenURI| < 0x1_0000_0000_0000_0000)
  {
    VarBytesFieldsAccept(args.toAssetHash, args.toAddress, args.tokenURI);
    TokenIdAccepts(args.tokenId);
  }

  lemma VarBytesFieldsAccept(a: seq<byte>, b: seq<byte>, c: seq<byte>)
    ensures (WriteVarBytes(a).Ok? && WriteVarBytes(b).Ok? && WriteVarBytes(c).Ok?) <==>
      (|a| < 0x1_0000_0000_0000_0000 && |b| < 0x1_0000_0000_0000_0000 && |c| < 0x1_0000_0000_0000_0000)
  {
    WriteVarBytesAccepts(a);
    WriteVarBytesAccepts(b);
    WriteVarBytesAccepts(c);
  }

  lemma TokenIdAccepts(tokenId: nat)
    ensures WriteUintOf(tokenId, 256).Ok? <==> tokenId < Pow256(32)
  {
    var length := 256;
    WriteUintLittleEndian(tokenId, length);
    assert length / 8 == 32;
  }

  lemma TxArgsValue(args: TxArgs)
    requires SerializeTxArgs(args).Ok?
    ensures args.tokenId < Pow256(32)
    ensures SerializeTxArgs(args).value
        == WriteVarBytes(args.toAssetHash).value + WriteVarBytes(args.toAddress).value
           + LeBytes(args.tokenId, 32) + WriteVarBytes(args.tokenURI).value
  {
    TxArgsFieldsPack(args);
    WriteUintLittleEndian(args.tokenId, 256);
    TxArgsPacked(args, WriteVarBytes(args.toAssetHash).value, WriteVarBytes(args.toAddress).value,
                 WriteUintOf(args.tokenId, 256).value, WriteVarBytes(args.tokenURI).value);
  }

  lemma TxArgsFieldsPack(args: TxArgs)
    ensures SerializeTxArgs(args).Ok? <==>
      (WriteVarBytes(args.toAssetHash).Ok? && WriteVarBytes(args.toAddress).Ok?
       && WriteUintOf(args.tokenId, 256).Ok? && WriteVarBytes(args.tokenURI).Ok?)
  {
    var asset, address, uri := WriteVarBytes(args.toAssetHash), WriteVarBytes(args.toAddress), WriteVarBytes(args.tokenURI);
    var tokenId := WriteUintOf(args.tokenId, 256);
    if asset.Ok? && address.Ok? && tokenId.Ok? && uri.Ok? {
      WriteUintLittleEndian(args.tokenId, 256);
      TxArgsPacked(args, asset.value, address.value, tokenId.value, uri.value);
    }
  }

  lemma TxArgsPacked(args: TxArgs, asset: seq<byte>, address: seq<byte>, le: seq<byte>, uri: seq<byte>)
    requires WriteVarBytes(args.toAssetHash) == Ok(asset) && WriteVarBytes(args.toAddress) == Ok(address)
    requires WriteUintOf(args.tokenId, 256) == Ok(le) && WriteVarBytes(args.tokenURI) == Ok(uri)
    requires |le| == 32
    ensures SerializeTxArgs(args) == Ok(asset + address + le + uri)
  {
    PackUintOfBytes(le);
    var items := [BytesItem(asset), BytesItem(address), UintItem(256, BigNumberFromBytes(le)), BytesItem(uri)];
    assert SerializeTxArgs(args) == SolidityPack(items);
    SolidityPackFour(items[0], items[1], items[2], items[3]);
  }

  /** The ranges `serializeTxArgs` accepts: lengths below 2^64 and a token id below 2^256. */
  predicate TxArgsInRange(args: TxArgs)
  {
    |args.toAssetHash| < 0x1_0000_0000_0000_0000 && |args.toAddress| < 0x1_0000_0000_0000_0000
    && args.tokenId < Pow256(32) && |args.tokenURI| < 0x1_0000_0000_0000_0000
  }

  /** The `serializeTxArgs` layout on the wire. */
  function TxArgsWire(args: TxArgs): (r: seq<byte>)
    requires TxArgsInRange(args)
    ensures |r| > 32
  {
    VarBytesWire(args.toAssetHash) + VarBytesWire(args.toAddress)
    + LeBytes(args.tokenId, 32) + VarBytesWire(args.tokenURI)
  }

  /** `serializeTxArgs` writes `TxArgsWire(args)` exactly when the arguments are in range. */
  lemma SerializeTxArgsWire(args: TxArgs)
    ensures TxArgsInRange(args) ==> SerializeTxArgs(args) == Ok(TxArgsWire(args))
    ensures !TxArgsInRange(args) ==> SerializeTxArgs(args).Err?
  {
    SerializeTxArgsLayout(args);
    WriteVarBytesWire(args.toAssetHash);
    WriteVarBytesWire(args.toAddress);
    WriteVarBytesWire(args.tokenURI);
  }

  /** `addressToBytes32(address)`: 32 bytes, zero bytes on the left and the address as the
      suffix; an address longer than 32 bytes is refused. */
  function AddressToBytes32(address: seq<byte>): (r: Result<seq<byte>, EncodeError>)
    ensures r.Ok? <==> |address| <= 32
    ensures r.Ok? ==> |r.value| == 32 && r.value[32 - |address|..] == address
    ensures r.Ok? ==> forall i :: 0 <= i < 32 - |address| ==> r.value[i] == 0
  {
    HexZeroPad(address, 32)
  }
}
