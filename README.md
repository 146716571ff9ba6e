# Stage-1 vanity-hash solver, modelled in Dafny

The solver (`rs/stage1_solver/src/main.rs`) searches for a 64-bit nonce `i`
such that the Keccak-256 hash of a 32-byte buffer has chosen values in four
places. The buffer is built as hex text, `format!("{:08x}{}{:016x}",
DISPATCH_IDX, address, i)`, and then decoded to bytes. In the buffer:

- bytes 0–3 hold the dispatch index, which is 3;
- bytes 4–23 hold the 20-byte address;
- bytes 24–31 hold the nonce, big-endian.

A digest matches when its bytes 0 and 1 equal the two jumpdest bytes given
on the command line, and its bytes 30 and 31 are `0xD0` and `0x73`. `main`
checks its two arguments first. It turns the address into its checksum
spelling and keeps characters 2..42 of it. It removes every `"0x"` from the
jumpdest, hex-decodes it and requires exactly two bytes. Then it runs a
parallel `find_any` over the nonces `0..u64::MAX` and reports the match with
its recomputed hash, or reports failure.

The project has three files:

- `wrappers.dfy`: `Option` and `Result`.
- `hex_codec.dfy` (module `HexCodec`): Rust's `{:0Nx}` formatting, the `hex`
  crate's `decode` and `encode`, and big-endian byte strings.
- `solver.dfy` (module `Stage1Solver`): `hash`, the match closure, the
  search, and `main`'s checks and report.

Keccak-256 is not specified. Every operation takes it as a parameter `keccak`
of type `seq<uint8> -> Digest`, so every property holds for any hash
function. The address parser and checksum (`H160::from_str`, `to_checksum`)
are a parameter `toChecksum: string -> Option<string>`. `None` stands for the
parse failure. The only thing assumed of a `Some` result is the form
`to_checksum` always produces: `"0x"` followed by 40 hex digits.

A call to `expect` that panics is modelled as an error value. In `hash` this
is `Err(HexError)`. In `main` it is the `InvalidAddress` or `InvalidJumpdest`
report.

Three details of the code are worth knowing:

- The search covers `0..u64::MAX`, so nonce `u64::MAX` is never examined
  (`LastNonceNeverExamined`).
- The address passed to `hash` is the mixed-case checksum slice. Decoding
  ignores case, so the buffer is the same as for the lower-case spelling
  (`HashIgnoresAddressCase`).
- `replace` removes every `"0x"` in one pass, wherever it stands
  (`RemoveAll0xEveryOccurrence`, `RemoveAll0xIsSinglePass`).

## Model

| member | source | states |
|---|---|---|
| `HexCodec.LowerHex` | rs/stage1_solver/src/main.rs:13 | `{:x}` digits are lower-case hex, at least one, with a leading '0' only for the number 0 |
| `HexCodec.FixedWidth` | rs/stage1_solver/src/main.rs:13 | reference for a fixed-width field: always exactly `width` lower-case hex digits |
| `HexCodec.LowerHexFits` | rs/stage1_solver/src/main.rs:13 | the digits of n fit in `width` places if and only if n < 16^width |
| `HexCodec.ZeroPadded` | rs/stage1_solver/src/main.rs:13 | `{:0Nx}` is lower-case hex, never shorter than N, and for every n below 16^N equals the fixed-width reference (the N low digits of n) |
| `HexCodec.ZeroPaddedLength` | rs/stage1_solver/src/main.rs:13 | `{:0Nx}` is never shorter than N, and is exactly N characters if and only if n < 16^N |
| `HexCodec.FixedWidthOfMax` | rs/stage1_solver/src/main.rs:13 | the largest number of N digits is written as N 'f's |
| `HexCodec.DecodePairs` | rs/stage1_solver/src/main.rs:13 | an even-length text decodes if and only if it is all hex digits, one byte per pair, high digit first; otherwise the error names the first non-hex character and its index |
| `HexCodec.Decode` | rs/stage1_solver/src/main.rs:13 | `hex::decode` succeeds if and only if the length is even and every character is a hex digit; odd length is reported as `OddLength` before any character is checked |
| `HexCodec.DecodeConcat` | rs/stage1_solver/src/main.rs:13 | decoding the concatenation of two valid even-length texts gives the concatenation of their bytes |
| `HexCodec.DecodeIgnoresCase` | rs/stage1_solver/src/main.rs:13 | a text and its lower-case form are both valid or both invalid, and when valid decode to the same bytes |
| `HexCodec.Encode` | rs/stage1_solver/src/main.rs:44 | `hex::encode` writes two lower-case hex digits per byte |
| `HexCodec.DecodeEncode` | rs/stage1_solver/src/main.rs:44 | decoding the encoded hash gives the hash back |
| `HexCodec.EncodeDecode` | rs/stage1_solver/src/main.rs:44 | encoding decoded bytes gives the original text, lower-cased |
| `HexCodec.BigEndian` | rs/stage1_solver/src/main.rs:11 | the k-byte big-endian field has exactly k bytes |
| `HexCodec.FromBigEndian` | rs/stage1_solver/src/main.rs:11 | the number read from k big-endian bytes is below 256^k |
| `HexCodec.BigEndianRoundTrip` | rs/stage1_solver/src/main.rs:11 | a number below 256^k is recovered from its k big-endian bytes |
| `HexCodec.FromBigEndianRoundTrip` | rs/stage1_solver/src/main.rs:11 | any byte string is the big-endian encoding of the number it spells |
| `HexCodec.DecodeFixedWidth` | rs/stage1_solver/src/main.rs:13 | 2k fixed-width hex digits of n decode to the k big-endian bytes of n |
| `Stage1Solver.DispatchIndexText` | rs/stage1_solver/src/main.rs:6-13 | `{:08x}` of `DISPATCH_IDX` is "00000003" |
| `Stage1Solver.NonceTextBounds` | rs/stage1_solver/src/main.rs:13 | `{:016x}` writes nonce 0 as sixteen '0's and `u64::MAX` as sixteen 'f's |
| `Stage1Solver.HashInput` | rs/stage1_solver/src/main.rs:13 | the hex text is 8 fixed-width digits of the dispatch index, then the address, then 16 fixed-width digits of the nonce; it has 64 characters exactly when the address has 40 |
| `Stage1Solver.HashInputIsHex` | rs/stage1_solver/src/main.rs:13 | the hex text is all hex digits, or of even length, exactly when the address is |
| `Stage1Solver.Hash` | rs/stage1_solver/src/main.rs:12-14 | `hash` panics ("Invalid hex") if and only if the address is not an even number of hex digits, for any dispatch index and nonce; for a 40-digit address it returns the hash function applied to the documented buffer |
| `Stage1Solver.DecodedInputLayout` | rs/stage1_solver/src/main.rs:8-13 | for a 40-digit address the text decodes to exactly the documented buffer: `[0,0,0,idx]`, the address bytes, the nonce big-endian |
| `Stage1Solver.Preimage` | rs/stage1_solver/src/main.rs:8-11 | the documented buffer: 12 bytes plus the address (32 for a 20-byte address); bytes 0–3 are `[0,0,0,idx]`, then the address bytes, then the nonce big-endian, which reads back from the last eight bytes |
| `Stage1Solver.PreimageInjective` | rs/stage1_solver/src/main.rs:8-13 | different dispatch indices, addresses or nonces always give different buffers |
| `Stage1Solver.HashIgnoresAddressCase` | rs/stage1_solver/src/main.rs:13 | hashing the mixed-case address and its lower-case form panic alike and otherwise give the same digest |
| `Stage1Solver.Matches` | rs/stage1_solver/src/main.rs:36-39 | a digest matches if and only if it fits the 32-place pattern that fixes bytes 0, 1 (the jumpdest), 30 (0xD0) and 31 (0x73) and leaves every other byte free |
| `Stage1Solver.MatchesIgnoresOtherBytes` | rs/stage1_solver/src/main.rs:36-39 | changing any of bytes 2–29 of a digest never changes whether it matches |
| `Stage1Solver.NonceDigest` | rs/stage1_solver/src/main.rs:34 | the digest for nonce i is what `hash(DISPATCH_IDX, address, i)` returns without panicking: the hash of the documented buffer |
| `Stage1Solver.NonceMatches` | rs/stage1_solver/src/main.rs:33-40 | the closure holds for nonce i if and only if the hash of the documented buffer for i matches the jumpdest and tail bytes |
| `Stage1Solver.FindAny` | rs/stage1_solver/src/main.rs:33-40 | for any closure, returns `Some(i)` only for an i in `lo..hi` that satisfies it, and `None` only when no element of `lo..hi` does |
| `Stage1Solver.IsFindAnyResult` | rs/stage1_solver/src/main.rs:33-40 | a result allowed by `find_any`'s contract is `Some` if and only if some element of the range satisfies the closure |
| `Stage1Solver.FindAnyUniqueMatch` | rs/stage1_solver/src/main.rs:33-40 | when exactly one element of the range satisfies the closure, `find_any` returns that element |
| `Stage1Solver.LastNonceNeverExamined` | rs/stage1_solver/src/main.rs:33 | over `0..u64::MAX` the result is never `u64::MAX`, and a closure that only `u64::MAX` satisfies gives `None` |
| `Stage1Solver.RemoveAll0x` | rs/stage1_solver/src/main.rs:23 | removing "0x" never lengthens the jumpdest text |
| `Stage1Solver.RemoveAll0xKeepsPlainText` | rs/stage1_solver/src/main.rs:23 | text without "0x" is unchanged |
| `Stage1Solver.RemoveAll0xConcat` | rs/stage1_solver/src/main.rs:23 | removal applies piecewise to two texts when no "0x" straddles the join |
| `Stage1Solver.RemoveAll0xEveryOccurrence` | rs/stage1_solver/src/main.rs:23 | an "0x" anywhere in the text is removed, not only a leading one |
| `Stage1Solver.RemoveAll0xIsSinglePass` | rs/stage1_solver/src/main.rs:23 | the removal is one pass: "00xx" becomes "0x"; "0x1234" becomes "1234", which decodes to `[0x12, 0x34]` |
| `Stage1Solver.Prepare` | rs/stage1_solver/src/main.rs:19-28 | an `args` with fewer than 2 entries (entry 0 is the program name) gives `NoAddressProvided`, one with exactly 2 gives `NoJumpdestProvided`; an address that does not parse gives `InvalidAddress` whatever the jumpdest, since the address is checked first; a jumpdest that does not decode gives `InvalidJumpdest` with the decoder's error; when the checks pass, the address is characters 2..42 of the checksum form (40 hex digits) and the jumpdest is the 2 bytes decoded from the argument with every "0x" removed |
| `Stage1Solver.JumpdestLengthChecked` | rs/stage1_solver/src/main.rs:23-28 | a jumpdest that decodes is accepted if and only if it is 2 bytes; any other length stops the run with that length |
| `Stage1Solver.Run` | rs/stage1_solver/src/main.rs:16-55 | a failed check ends the run with that check's report; otherwise the run reports a nonce below `u64::MAX` with its recomputed hash, which matches, or reports failure only when no nonce in `0..u64::MAX` matches |

## Left out

- `keccak256` is a foreign cryptographic primitive. It is a parameter, not a definition.
- `H160::from_str` and `to_checksum` (EIP-55 checksum casing) are foreign calls. They are the parameter `toChecksum`, assumed to produce `"0x"` and 40 hex digits whenever parsing succeeds.
- Rayon's parallel `find_any` is modelled only through its result. Work splitting, the shared stop signal and cancellation are concurrency and are not modelled. `FindAny` scans sequentially, so it returns the smallest match. Its contract promises only "some match", as `find_any` does.
- `env::args` is the sequence `args`, whose element 0 is the program name. `println!`/`eprintln!` output and message texts are I/O.
- Run: the contract states the values `main` prints (address, jumpdest bytes, hash, nonce), not the printed lines or their formatting.
- Panics of `expect` are error values. Process termination is not modelled.
- Strings are sequences of characters, while the `hex` crate counts bytes. For non-ASCII text the model may report `InvalidHexCharacter` where the crate reports `OddLength`, or the other way round. The character inside `InvalidHexCharacter` also differs: the crate reports the first UTF-8 byte read as a char (`'Ã'` for `"éé"`), the model the character itself (`'é'`), and this reaches the `InvalidJumpdest` report. Both are failures for exactly the same inputs, since a non-ASCII character is never a hex digit.
- `hex::decode` is modelled after the `hex` crate, which does not strip a prefix. Some `ethers` releases re-export the `const-hex` crate, which drops a leading `"0x"` before decoding. With that crate, a jumpdest such as `"00xx1234"` (which becomes `"0x1234"` after the removal) would be accepted.
- Integer widths: `uint8` and `uint64` are subset types of `int`. Nothing in the core wraps around.
