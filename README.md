# Bridge payload serialiser

The bridge tests build every `bridgeIn` payload, every call-data blob and every
token-transfer argument blob with a small serialiser, `test/utils/utilities.ts`. It has
four layers:

- `writeUint(v, length)`: `v` as exactly `length / 8` bytes, little-endian, zero-padded at
  the high end. It throws a `RangeError` when `v` does not fit.
- `WriteVarUint(l)`: the Bitcoin "CompactSize" integer.
  - `l < 0xfd` gives one byte.
  - Up to `0xffff` gives `0xfd` and two bytes.
  - Up to `0xffff_ffff` gives `0xfe` and four bytes.
  - Anything larger gives `0xff` and eight bytes.
- `writeVarBytes(data)`: the CompactSize length of `data`, then `data`.
- `serializeCallData`, `serializeTxArgs` and `addressToBytes32`: fixed layouts built from
  the layers above.

This project models that serialiser in Dafny, together with the reader the receiving
contract pairs with it, and proves the laws that make the format usable:

- each writer's output, byte by byte;
- the tier choice and its canonicity;
- round trips of every layer;
- unique splitting of a concatenation of var-bytes fields, such as the five-field
  `bridgeIn` payload.

The files are:

- `wrappers.dfy`: the `Result` type.
- `bytes.dfy`: bytes, powers of 256, and little- and big-endian readings and writings.
- `ethers.dfy`: the parts of ethers v5 the serialiser calls.
  - `BigNumber.toHexString`,
  - `arrayify`,
  - `zeroPad`/`hexZeroPad`,
  - `solidityPack` for the `uintN` and `bytes` types.
- `utilities.dfy`: the serialiser.
  - `writeUint` is an imperative method that follows the source step by step: a hex-parsing
    loop, an in-place reverse, and a copying `set`. It is proved equal to the function
    `WriteUintOf`.
  - The other writers are functions.
- `decoding.dfy`: the reader.
  - `ReadVarUint` and `ReadVarBytes`.
  - A reader for `k` consecutive fields.
  - The `bridgeIn` payload split.
  - Inverses of the call-data, tx-args and address-word layouts.

The reader is not in the repository: the contract that decodes these payloads is not part
of this model. Its errors are these:

- A declared length running past the buffer is `MalformedLength`.
- A marker whose value bytes are missing is `TruncatedPrefix`.
- Bytes left over after the last field, or zero bytes where a field is required, are
  `InvalidPayload`.
- An empty `bridgeIn` payload is refused before decoding, as the bridge test at
  `test/Bridge.spec.ts:345-350` expects.

`ReadVarUintErrors`, `ReadVarBytesErrors` and `DecodeFieldsErrors` state these cases. The reader is
also strict, like Bitcoin's own `ReadCompactSize`: a value written in a wider tier than it
needs is `NonCanonical`. That makes every value's encoding unique, so each round trip goes
both ways: the reader accepts a buffer exactly when the writer produces it.

The writer's double reversal cancels out. `writeUint` returns the value's bytes already
reversed, and `solidityPack` then writes those bytes big-endian as a `uintN`. What reaches
the wire is therefore the marker followed by the little-endian value (`Utilities.PrefixedTier`).

## Model

| member | source | states |
|---|---|---|
| Utilities.WriteUintOf | test/utils/utilities.ts:30-39 | No ensures of its own; behaviour stated by `Utilities.WriteUintLittleEndian` and `Utilities.WriteUintBytes`, and `Utilities.WriteUint` is proved equal to it |
| Utilities.WriteUint | test/utils/utilities.ts:30-39 | The method (hex rendering, parse loop, in-place reverse, `set` into a zeroed `length / 8`-byte buffer) returns `WriteUintOf(v, length)`. It succeeds exactly when `1 <= length / 8` and `v < 256^(length / 8)`, and then returns the `length / 8`-byte little-endian form of `v`; otherwise it returns the `RangeError` that `set` throws |
| Utilities.HexBytes | test/utils/utilities.ts:31-33 | `v.toHexString()` without `0x`, parsed two digits at a time, gives a fresh array holding the minimal big-endian bytes of `v` |
| Utilities.ParseHexPairs | test/utils/utilities.ts:32-33 | The loop fills a fresh array of half the string's length; byte `c / 2` is `parseInt` of digits `c` and `c + 1` |
| Utilities.ReverseInPlace | test/utils/utilities.ts:36 | `uint8Array.reverse()` leaves the array holding its old contents back to front |
| Utilities.SetFromStart | test/utils/utilities.ts:35-36 | `set(source, 0)` succeeds exactly when the source fits. The buffer then holds the source followed by the rest of its old contents; otherwise it is unchanged and the call throws |
| Utilities.WriteUintLittleEndian | test/utils/utilities.ts:30-39 | `writeUint` succeeds exactly when the buffer has at least one byte and `v < 256^(length / 8)`, and then returns `LeBytes(v, length / 8)` |
| Utilities.WriteUintBytes | test/utils/utilities.ts:30-39 | A successful result has exactly `length / 8` bytes, byte `i` is `(v / 256^i) % 256`, and reading it back little-endian gives `v` |
| Utilities.WriteVarUint | test/utils/utilities.ts:41-51 | No ensures of its own; behaviour stated by `Utilities.WriteVarUintTiers`, `Utilities.WriteVarUintWire` and `Utilities.WriteVarUintCanonical` |
| Utilities.PrefixedTier | test/utils/utilities.ts:45-49 | Packing `uint8` marker and `uintN` of the little-endian bytes writes the marker followed by those same bytes: the two reversals cancel |
| Utilities.SingleByteTier | test/utils/utilities.ts:42-43 | `l < 0xfd` encodes as the single byte `l` |
| Utilities.TwoByteTier | test/utils/utilities.ts:44-45 | `0xfd <= l <= 0xffff` encodes as `0xfd` and two little-endian bytes |
| Utilities.FourByteTier | test/utils/utilities.ts:46-47 | `0x1_0000 <= l <= 0xffff_ffff` encodes as `0xfe` and four little-endian bytes |
| Utilities.EightByteTier | test/utils/utilities.ts:48-49 | `0x1_0000_0000 <= l < 2^64` encodes as `0xff` and eight little-endian bytes |
| Utilities.TooLargeTier | test/utils/utilities.ts:48-49 | `l >= 2^64` makes `writeUint(l, 64)` throw a `RangeError` |
| Utilities.WriteVarUintTiers | test/utils/utilities.ts:41-51 | All five cases of `WriteVarUint`: the four tiers and the error |
| Utilities.WriteVarUintWire | test/utils/utilities.ts:41-51 | `WriteVarUint(l)` is the CompactSize wire form `VarUintWire(l)` for `l < 2^64` and an error otherwise |
| Utilities.WriteVarUintCanonical | test/utils/utilities.ts:42-49 | The size is 1, 3, 5 or 9 by tier. The marker identifies the tier in both directions: `0xfd` exactly for `0xfd..0xffff`, `0xfe` exactly for `0x1_0000..0xffff_ffff`, `0xff` exactly from `2^32` up, and a byte below `0xfd` exactly when the value is that byte. So the smallest tier that holds `l` is always the one used |
| Utilities.WriteVarBytes | test/utils/utilities.ts:53-56 | No ensures of its own; behaviour stated by `Utilities.WriteVarBytesLayout` and `Utilities.WriteVarBytesWire` |
| Utilities.WriteVarBytesLayout | test/utils/utilities.ts:53-56 | `writeVarBytes(d)` succeeds exactly when `d` is shorter than `2^64` bytes, equals `WriteVarUint` of the length of `d` followed by `d` unchanged, and is the single byte `0x00` for empty `d` |
| Utilities.WriteVarBytesWire | test/utils/utilities.ts:53-56 | `writeVarBytes(d)` is `VarBytesWire(d)`, the length's wire form then `d`, when `d` is shorter than `2^64` bytes, and an error otherwise |
| Utilities.SerializeCallData | test/utils/utilities.ts:58-60 | No ensures of its own; behaviour stated by `Utilities.SerializeCallDataLayout` and `Utilities.SerializeCallDataWire` |
| Utilities.SerializeCallDataLayout | test/utils/utilities.ts:58-60 | Succeeds exactly when the address length and the chain id are below `2^64`; the output is `writeVarBytes(toAddress)` followed by the chain id in eight little-endian bytes |
| Utilities.SerializeCallDataWire | test/utils/utilities.ts:58-60 | The same layout in wire terms: `VarBytesWire(toAddress) + LeBytes(toChainId, 8)` in range, an error out of range |
| Utilities.SerializeTxArgs | test/utils/utilities.ts:62-72 | No ensures of its own; behaviour stated by `Utilities.SerializeTxArgsLayout`, `Utilities.TxArgsFieldsPack` and `Utilities.SerializeTxArgsWire` |
| Utilities.SolidityPackFour | test/utils/utilities.ts:63-71 | Packing four items that each pack is their encodings one after another |
| Utilities.SerializeTxArgsLayout | test/utils/utilities.ts:62-72 | Succeeds exactly when the three byte lengths are below `2^64` and the token id is below `2^256`. The output is var-bytes(asset), var-bytes(address), the token id in 32 little-endian bytes, var-bytes(URI) |
| Utilities.TokenIdAccepts | test/utils/utilities.ts:68 | `writeUint(tokenId, 256)` succeeds exactly when `tokenId < 2^256` |
| Utilities.TxArgsFieldsPack | test/utils/utilities.ts:62-72 | `serializeTxArgs` succeeds exactly when each of its four field writers succeeds |
| Utilities.SerializeTxArgsWire | test/utils/utilities.ts:62-72 | `serializeTxArgs(args)` is `TxArgsWire(args)` when the arguments are in range, an error otherwise |
| Utilities.AddressToBytes32 | test/utils/utilities.ts:74-76 | Succeeds exactly for addresses of at most 32 bytes: 32 bytes of output, the address as the suffix, and zero bytes before it |
| Ethers.ToHexString | test/utils/utilities.ts:31 | No ensures of its own; behaviour stated by `Ethers.HexStringBytes` and `Ethers.HexStringPairs` |
| Ethers.MinimalBytes | test/utils/utilities.ts:31-33 | The bytes `arrayify` gives for `BigNumber.from(v)`: at least one byte. The rest is stated by `Ethers.MinimalBytesFits` and `Ethers.HexStringBytes` |
| Ethers.HexStringBytes | test/utils/utilities.ts:31 | `BigNumber.from(v).toHexString().slice(2)` is the minimal big-endian bytes of `v`, two lower-case digits each |
| Ethers.HexStringPairs | test/utils/utilities.ts:31-33 | That string has two digits per minimal byte, and every digit pair parses back to its byte |
| Ethers.MinimalBytesFits | test/utils/utilities.ts:35-36 | The minimal bytes of `v` fit `n` bytes exactly when `n >= 1` and `v < 256^n`. They are then the `n`-byte big-endian form with its leading zeros removed |
| Ethers.PackUint | test/utils/utilities.ts:45 | `solidityPack` of a `uint<bits>` value succeeds exactly when the value fits `bits / 8 >= 1` bytes, and writes its big-endian form in that width |
| Ethers.PackUintOfBytes | test/utils/utilities.ts:45-49 | A `uint<8n>` passed as an `n`-byte array is packed back unchanged |
| Ethers.SolidityPack | test/utils/utilities.ts:45-71 | No ensures of its own; behaviour stated by `Ethers.SolidityPackAccepts`, `Ethers.SolidityPackTwo` and `Ethers.SolidityPackAppend` |
| Ethers.SolidityPackAccepts | test/utils/utilities.ts:55 | `solidityPack` succeeds exactly when every item packs on its own |
| Ethers.SolidityPackTwo | test/utils/utilities.ts:55 | Two items that pack are written one after the other |
| Ethers.SolidityPackAppend | test/utils/utilities.ts:63-71 | Packing two lists one after the other is the concatenation of packing each |
| Ethers.ZeroPad | test/utils/utilities.ts:75 | `zeroPad` succeeds exactly when the value fits; the value becomes the suffix and zero bytes the prefix |
| Ethers.HexZeroPad | test/utils/utilities.ts:75 | No ensures of its own; it is `Ethers.ZeroPad` on bytes, whose contract states the padding |
| Bytes.ReverseBeBytes | test/utils/utilities.ts:36 | Reversing the big-endian form of `v` gives its little-endian form |
| Decoding.ReadVarUintErrors | test/utils/utilities.ts:41-51 | The reader of a CompactSize fails with `TruncatedPrefix` exactly when the marker, or the value bytes it announces, run past the buffer. It fails with `NonCanonical` exactly when those bytes hold a value that a narrower tier carries, and in no other way |
| Decoding.ReadVarUintAt | test/utils/utilities.ts:41-51 | The wire form of `l`, found at offset `off` of any buffer, reads back as `l` and stops right after it |
| Decoding.ReadVarUintRoundTrip | test/utils/utilities.ts:41-51 | Whatever surrounds it, `WriteVarUint(l)` reads back as `l` and exactly its own bytes are consumed |
| Decoding.ReadVarUintIsWire | test/utils/utilities.ts:41-51 | Whatever the reader reads as `l` is `l`'s wire form, and `l < 2^64` |
| Decoding.ReadVarUintCanonical | test/utils/utilities.ts:42-49 | Whatever the reader reads as `l` is exactly what `WriteVarUint(l)` writes, so each value has one encoding |
| Decoding.ReadVarBytesErrors | test/utils/utilities.ts:53-56 | A failure to read the length passes through unchanged, and `MalformedLength` comes back exactly when the declared length runs past the end of the buffer |
| Decoding.ReadVarBytesAt | test/utils/utilities.ts:53-56 | The wire form of `d`, found at `off`, reads back as `d` and stops right after it |
| Decoding.ReadVarBytesBetween | test/utils/utilities.ts:53-56 | Where `d`'s wire form sits between two offsets, the reader at the first returns `d` and the second |
| Decoding.ReadVarBytesRoundTrip | test/utils/utilities.ts:53-56 | Whatever surrounds it, `writeVarBytes(d)` reads back as `d`, consuming the prefix and the bytes of `d` |
| Decoding.ReadVarBytesIsWire | test/utils/utilities.ts:53-56 | Whatever the reader reads as `d` is `d`'s wire form |
| Decoding.ReadVarBytesCanonical | test/utils/utilities.ts:53-56 | Whatever the reader reads as `d` is exactly what `writeVarBytes(d)` writes |
| Decoding.PackVarBytesFields | test/Bridge.spec.ts:334-343 | No ensures of its own: `solidityPack` of `bytes` items, each the `writeVarBytes` of one field. Behaviour stated by `Decoding.PackVarBytesFieldsWire` |
| Decoding.VarBytesItems | test/Bridge.spec.ts:336-342 | No ensures of its own; behaviour stated by `Decoding.VarBytesItemsWire` |
| Decoding.VarBytesItemsWire | test/Bridge.spec.ts:334-343 | Writing every field with `writeVarBytes` succeeds exactly when every field is shorter than `2^64` bytes, and `solidityPack` of the resulting items is the fields' wire forms one after another |
| Decoding.BridgeInPayload | test/Bridge.spec.ts:334-343 | No ensures of its own: the test's five-item `solidityPack`. Behaviour stated by `Decoding.BridgeInRoundTrip` |
| Decoding.PackVarBytesFieldsWire | test/Bridge.spec.ts:334-343 | Packing var-bytes fields succeeds exactly when every field length is below `2^64`, and then writes their wire forms one after another |
| Decoding.ReadFieldsAt | test/Bridge.spec.ts:334-343 | The wire form of a run of fields, found at `off`, reads back as those fields and consumes exactly those bytes |
| Decoding.ReadFieldsIsWire | test/Bridge.spec.ts:334-343 | Every run of fields the reader accepts is the wire form of the fields it returns |
| Decoding.ReadFieldsErrors | test/Bridge.spec.ts:334-343 | A run of fields fails only with an error of one of its fields: `TruncatedPrefix`, `NonCanonical` or `MalformedLength` |
| Decoding.DecodeFieldsErrors | test/Bridge.spec.ts:334-343 | A multi-field payload fails with `InvalidPayload` when it is empty and a field is required, and when bytes are left over after the last field; otherwise it fails with the error of the field that fails, and with no other error |
| Decoding.DecodeFieldsWire | test/Bridge.spec.ts:334-343 | A payload decodes to `k` fields with nothing left over exactly when it is their wire form |
| Decoding.DecodeFieldsExact | test/Bridge.spec.ts:334-343 | Unique splitting: a payload decodes to `fields` exactly when packing those fields gives these bytes |
| Decoding.BridgeInRoundTrip | test/Bridge.spec.ts:334-350 | The `bridgeIn` payload decodes to five given fields exactly when it is the packing of those fields. The empty payload, which no packing gives, is refused |
| Decoding.ReadCallDataWire | test/utils/utilities.ts:58-60 | The call-data layout reads back as its address and chain id |
| Decoding.CallDataIsWire | test/utils/utilities.ts:58-60 | Every buffer the call-data reader accepts is the layout of what it returns, with both values in range |
| Decoding.CallDataRoundTrip | test/utils/utilities.ts:58-60 | `buf` decodes to `(toAddress, toChainId)` exactly when `serializeCallData(toAddress, toChainId)` is `buf` |
| Decoding.ReadTxArgsWire | test/utils/utilities.ts:62-72 | The tx-args layout reads back as its arguments |
| Decoding.TxArgsIsWire | test/utils/utilities.ts:62-72 | Every buffer the tx-args reader accepts is the layout of what it returns, with every field in range |
| Decoding.TxArgsRoundTrip | test/utils/utilities.ts:62-72 | `buf` decodes to `args` exactly when `serializeTxArgs(args)` is `buf` |
| Decoding.AddressWordRoundTrip | test/utils/utilities.ts:74-76 | A 32-byte word decodes to a 20-byte address exactly when `addressToBytes32` of that address is the word |

## Left out

- The Bridge, CallProxy and aggregator contracts (quorum checks, route policy, call forwarding, swaps): their source is not part of this model. Only their tests are, and those run against a chain.
- `signMessage` (test/utils/utilities.ts:78-83): keccak256 hashing and secp256k1 signing are cryptographic library calls. In the `bridgeIn` payload the signature is an arbitrary byte string.
- `getContractAccount` and `getWalletByIndex` (test/utils/utilities.ts:17-28): Hardhat account impersonation, balances and mnemonic derivation, all network I/O.
- The constants at test/utils/utilities.ts:6-15 are aliases and data with no behaviour. `emptyString` appears only as the empty byte string in the `bridgeIn` payload.
- Utilities.WriteUint: `v` is an unbounded natural. `BigNumber.from` refusing a JavaScript `number` beyond the safe-integer range, and negative or fractional numbers, are not modelled.
- Utilities.WriteVarBytes: `data` is a byte sequence, not a hex string. For a malformed or odd-length hex string, `hexDataLength` returns `null`, and the call then throws from `BigNumber.from(null)` inside `writeUint`; that path is not modelled.
- Ethers.SolidityPack: only the `uintN` and `bytes` types the serialiser uses are modelled. ethers' validation of the type strings is left out, because the serialiser always passes fixed, valid ones.
- Utilities.AddressToBytes32: the address is a byte sequence, and the result is its bytes rather than a `0x`-prefixed hex string.
- The `for`/`reverse`/`set` steps of `writeUint` are modelled on fresh arrays; `WriteUint` itself returns the buffer's contents as a sequence.
- The reader (module `Decoding`) is written for this model, because the decoding contract's source is not part of it. Its strictness about non-minimal tiers is a design choice that makes the round trips two-way.
