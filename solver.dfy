/** The stage-1 solver: a brute-force search for a nonce whose Keccak-256
    hash, over a 32-byte buffer built from a dispatch index, an address and
    the nonce, has two caller-chosen leading bytes and the trailing bytes
    0xD0 0x73.

    Keccak-256 is not specified: every operation takes the hash function as
    a parameter `keccak`, and every property below holds whatever it is. */
module Stage1Solver {
  import opened Wrappers
  import opened HexCodec

  type uint64 = x: int | 0 <= x < 0x1_0000_0000_0000_0000

  const U64_MAX: uint64 := 0xFFFF_FFFF_FFFF_FFFF

  /** Dispatch index written into the first four bytes of every buffer. */
  const DISPATCH_IDX: uint8 := 3

  /** The fixed last two bytes a matching digest must have. */
  const TAIL_BYTE_30: uint8 := 0xD0
  const TAIL_BYTE_31: uint8 := 0x73

  type Digest = d: seq<uint8> | |d| == 32 witness seq(32, _ => 0)

  /** The hash function, `keccak256` over any byte string. */
  type Keccak256 = seq<uint8> -> Digest

  /** An address as the search receives it: 40 hex digits of either case,
      without the "0x" prefix. */
  predicate IsAddressHex(addr: string) {
    |addr| == 40 && IsHexString(addr)
  }

  // ---------------------------------------------------------------------
  // Input assembler: `hash(dispatch_idx, addr, i)`.
  // ---------------------------------------------------------------------

  /** `format!("{:08x}{}{:016x}", dispatch_idx, addr, i)`: always 8 and 16
      lower-case digits around the address, so the text is 64 characters
      exactly when the address is 40. */
  function HashInput(dispatchIdx: uint8, addr: string, i: uint64): (s: string)
    ensures s == FixedWidth(dispatchIdx, 8) + addr + FixedWidth(i, 16)
    ensures |s| == 24 + |addr|
    ensures |s| == 64 <==> |addr| == 40
  {
    assert dispatchIdx < Pow(16, 8);
    U64MaxIsAllHexDigits();
    ZeroPadded(dispatchIdx, 8) + addr + ZeroPadded(i, 16)
  }

  /** `keccak256(hex::decode(HashInput(..)).expect("Invalid hex"))`; the
      `Err` case is the panic, carrying the decoder's error. It panics
      exactly when the address is not an even number of hex digits, and for
      a 40-digit address it hashes the documented buffer. */
  function Hash(keccak: Keccak256, dispatchIdx: uint8, addr: string, i: uint64): (r: Result<Digest, HexError>)
    ensures r.Err? <==> !(|addr| % 2 == 0 && IsHexString(addr))
    ensures IsAddressHex(addr) ==>
              Decode(addr).Ok? && r == Ok(keccak(Preimage(dispatchIdx, Decode(addr).value, i)))
  {
    HashInputIsHex(dispatchIdx, addr, i);
    DecodedInputLayout(dispatchIdx, addr, i);
    match Decode(HashInput(dispatchIdx, addr, i))
    case Err(e) => Err(e)
    case Ok(bytes) => Ok(keccak(bytes))
  }

  /** The documented buffer: [0:4] the dispatch index, [4:24] the address,
      [24:32] the nonce, big-endian, which reads back from the last eight
      bytes. */
  function Preimage(dispatchIdx: uint8, addrBytes: seq<uint8>, i: uint64): (p: seq<uint8>)
    ensures |p| == 12 + |addrBytes|
    ensures p[..4] == [0, 0, 0, dispatchIdx] && p[4..4 + |addrBytes|] == addrBytes
    ensures p[4 + |addrBytes|..] == BigEndian(i, 8)
    ensures FromBigEndian(p[4 + |addrBytes|..]) == i
  {
    U64MaxIsAllHexDigits();
    BigEndianRoundTrip(i, 8);
    var p := [0, 0, 0, dispatchIdx] + addrBytes + BigEndian(i, 8);
    assert p[4 + |addrBytes|..] == BigEndian(i, 8);
    p
  }

  lemma U64MaxIsAllHexDigits()
    ensures Pow(16, 16) - 1 == U64_MAX
    ensures Pow(256, 8) - 1 == U64_MAX
  {
    Pow16IsPow256(8);
    assert Pow(256, 2) == 0x1_0000;
    assert Pow(256, 4) == 0x1_0000_0000 by { assert Pow(256, 4) == 256 * 256 * Pow(256, 2); }
    assert Pow(256, 6) == 0x1_0000_0000_0000 by { assert Pow(256, 6) == 256 * 256 * Pow(256, 4); }
    assert Pow(256, 8) == 0x1_0000_0000_0000_0000 by { assert Pow(256, 8) == 256 * 256 * Pow(256, 6); }
  }

  /** `{:08x}` of DISPATCH_IDX is "00000003". */
  lemma DispatchIndexText()
    ensures ZeroPadded(DISPATCH_IDX, 8) == "00000003"
  {
  }

  /** `{:016x}` pads the smallest nonce with sixteen '0's and prints the
      largest as sixteen 'f's. */
  lemma NonceTextBounds()
    ensures ZeroPadded(0, 16) == "0000000000000000"
    ensures ZeroPadded(U64_MAX, 16) == "ffffffffffffffff"
  {
    assert Zeros(15) == "000000000000000";
    U64MaxIsAllHexDigits();
    FixedWidthOfMax(16);
  }

  lemma FourBigEndianBytesOfByte(b: uint8)
    ensures BigEndian(b, 4) == [0, 0, 0, b]
  {
    assert BigEndian(0, 3) == [0, 0, 0] by {
      assert BigEndian(0, 1) == [0];
      assert BigEndian(0, 2) == [0, 0];
    }
    assert b / 256 == 0 && b % 256 == b;
  }

  /** A valid address makes the text decode, to exactly the documented
      32-byte buffer. */
  lemma DecodedInputLayout(dispatchIdx: uint8, addr: string, i: uint64)
    ensures IsAddressHex(addr) ==>
              && Decode(addr).Ok?
              && Decode(HashInput(dispatchIdx, addr, i)) == Ok(Preimage(dispatchIdx, Decode(addr).value, i))
  {
    if IsAddressHex(addr) {
      var head, tail := FixedWidth(dispatchIdx, 8), FixedWidth(i, 16);
      DecodeFixedWidth(dispatchIdx, 4);
      DecodeFixedWidth(i, 8);
      FourBigEndianBytesOfByte(dispatchIdx);
      DecodeConcat(head, addr);
      DecodeConcat(head + addr, tail);
    }
  }

  lemma HashInputIsHex(dispatchIdx: uint8, addr: string, i: uint64)
    ensures IsHexString(HashInput(dispatchIdx, addr, i)) <==> IsHexString(addr)
    ensures |HashInput(dispatchIdx, addr, i)| % 2 == 0 <==> |addr| % 2 == 0
  {
    var head, tail := FixedWidth(dispatchIdx, 8), FixedWidth(i, 16);
    ConcatBetweenHex(head, addr, tail);
    assert |HashInput(dispatchIdx, addr, i)| == |addr| + 24;
    assert (|addr| + 24) % 2 == |addr| % 2;
  }

  /** Text between two hex fields is hex exactly when the whole is. */
  lemma ConcatBetweenHex(head: string, middle: string, tail: string)
    requires IsLowerHexString(head) && IsLowerHexString(tail)
    ensures IsHexString(head + middle + tail) <==> IsHexString(middle)
  {
    LowerHexIsHex(head);
    LowerHexIsHex(tail);
    HexStringConcat(head, middle);
    HexStringConcat(head + middle, tail);
  }

  /** Distinct inputs give distinct buffers: no two nonces (or addresses, or
      dispatch indices) are hashed over the same bytes. */
  lemma PreimageInjective(d1: uint8, a1: seq<uint8>, i1: uint64, d2: uint8, a2: seq<uint8>, i2: uint64)
    requires |a1| == 20 && |a2| == 20
    requires Preimage(d1, a1, i1) == Preimage(d2, a2, i2)
    ensures d1 == d2 && a1 == a2 && i1 == i2
  {
    assert [0, 0, 0, d1][3] == [0, 0, 0, d2][3];
  }

  /** The mixed-case checksum spelling and its lower-case form assemble the
      same buffer, so the hash does not depend on letter case; one panics
      exactly when the other does. */
  lemma HashIgnoresAddressCase(keccak: Keccak256, dispatchIdx: uint8, addr: string, i: uint64)
    ensures Hash(keccak, dispatchIdx, ToLower(addr), i).Ok? == Hash(keccak, dispatchIdx, addr, i).Ok?
    ensures Hash(keccak, dispatchIdx, addr, i).Ok? ==>
              Hash(keccak, dispatchIdx, ToLower(addr), i) == Hash(keccak, dispatchIdx, addr, i)
  {
    var head, tail := FixedWidth(dispatchIdx, 8), FixedWidth(i, 16);
    LowerHexIsLowerCase(head);
    LowerHexIsLowerCase(tail);
    ToLowerConcat(head, addr);
    ToLowerConcat(head + addr, tail);
    assert HashInput(dispatchIdx, ToLower(addr), i) == ToLower(HashInput(dispatchIdx, addr, i));
    DecodeIgnoresCase(HashInput(dispatchIdx, addr, i));
  }

  // ---------------------------------------------------------------------
  // Match predicate: the closure passed to `find_any`.
  // ---------------------------------------------------------------------

  /** `hash[0] == jumpdest[0] && hash[1] == jumpdest[1] && hash[30] == 0xD0
      && hash[31] == 0x73`. */
  predicate Matches(digest: Digest, jumpdest: seq<uint8>)
    requires |jumpdest| == 2
    ensures Matches(digest, jumpdest) <==> FitsPattern(digest, Pattern(jumpdest))
  {
    && digest[0] == jumpdest[0]
    && digest[1] == jumpdest[1]
    && digest[30] == TAIL_BYTE_30
    && digest[31] == TAIL_BYTE_31
  }

  /** Reference definition: the required value of each digest byte, or None
      where any value is accepted. */
  function Pattern(jumpdest: seq<uint8>): (p: seq<Option<uint8>>)
    requires |jumpdest| == 2
    ensures |p| == 32
  {
    seq(32, k =>
      if k == 0 then Some(jumpdest[0])
      else if k == 1 then Some(jumpdest[1])
      else if k == 30 then Some(TAIL_BYTE_30)
      else if k == 31 then Some(TAIL_BYTE_31)
      else None)
  }

  predicate FitsPattern(digest: Digest, pattern: seq<Option<uint8>>)
    requires |pattern| == 32
  {
    forall k :: 0 <= k < 32 && pattern[k].Some? ==> digest[k] == pattern[k].value
  }

  /** Changing any byte other than 0, 1, 30 and 31 never changes the verdict. */
  lemma MatchesIgnoresOtherBytes(digest: Digest, jumpdest: seq<uint8>, k: nat, b: uint8)
    requires |jumpdest| == 2 && 2 <= k < 30
    ensures Matches(digest[k := b], jumpdest) == Matches(digest, jumpdest)
  {
  }

  // ---------------------------------------------------------------------
  // The search: `(lo..hi).into_par_iter().find_any(..)`.
  // ---------------------------------------------------------------------

  /** `hash(DISPATCH_IDX, address, i)` for a valid address, which never
      panics and hashes the documented buffer. */
  function NonceDigest(keccak: Keccak256, addr: string, i: uint64): (d: Digest)
    requires IsAddressHex(addr)
    ensures Hash(keccak, DISPATCH_IDX, addr, i) == Ok(d)
    ensures Decode(addr).Ok? && d == keccak(Preimage(DISPATCH_IDX, Decode(addr).value, i))
  {
    Hash(keccak, DISPATCH_IDX, addr, i).value
  }

  /** The closure passed to `find_any`, for nonce i: the digest of the
      documented buffer for i matches. */
  predicate NonceMatches(keccak: Keccak256, addr: string, jumpdest: seq<uint8>, i: uint64)
    requires IsAddressHex(addr) && |jumpdest| == 2
    ensures Decode(addr).Ok?
    ensures NonceMatches(keccak, addr, jumpdest, i) <==>
              Matches(keccak(Preimage(DISPATCH_IDX, Decode(addr).value, i)), jumpdest)
  {
    Matches(NonceDigest(keccak, addr, i), jumpdest)
  }

  /** What `find_any` with closure `pred` promises over the range lo..hi:
      some element of the range that satisfies `pred`, any one of them, or
      None when none does. */
  ghost predicate IsFindAnyResult(pred: uint64 -> bool, lo: uint64, hi: uint64, res: Option<uint64>)
    ensures IsFindAnyResult(pred, lo, hi, res) ==>
              (res.Some? <==> exists i: uint64 :: lo <= i < hi && pred(i))
  {
    match res
    case Some(i) => lo <= i < hi && pred(i)
    case None => forall i: uint64 :: lo <= i < hi ==> !pred(i)
  }

  /** Sequential model of `(lo..hi).into_par_iter().find_any(pred)`. It
      examines the range in increasing order, but its contract promises only
      what `find_any` does: some match, not the first. */
  method FindAny(pred: uint64 -> bool, lo: uint64, hi: uint64) returns (res: Option<uint64>)
    requires lo <= hi
    ensures IsFindAnyResult(pred, lo, hi, res)
  {
    var i := lo;
    while i < hi
      invariant lo <= i <= hi
      invariant forall j: uint64 :: lo <= j < i ==> !pred(j)
    {
      if pred(i) {
        return Some(i);
      }
      i := i + 1;
    }
    return None;
  }

  /** When exactly one element of the range satisfies the closure, that
      element is returned. */
  lemma FindAnyUniqueMatch(pred: uint64 -> bool, lo: uint64, hi: uint64, k: uint64, res: Option<uint64>)
    requires lo <= k < hi && pred(k)
    requires forall i: uint64 :: lo <= i < hi && i != k ==> !pred(i)
    requires IsFindAnyResult(pred, lo, hi, res)
    ensures res == Some(k)
  {
  }

  /** Over 0..u64::MAX the largest nonce is never examined: a run whose only
      matching nonce is u64::MAX reports failure. */
  lemma LastNonceNeverExamined(pred: uint64 -> bool, res: Option<uint64>)
    requires IsFindAnyResult(pred, 0, U64_MAX, res)
    ensures res != Some(U64_MAX)
    ensures (forall i: uint64 :: i < U64_MAX ==> !pred(i)) ==> res == None
  {
  }

  // ---------------------------------------------------------------------
  // `main`: argument checks, the search over 0..u64::MAX, the report.
  // ---------------------------------------------------------------------

  /** `jumpdest.replace("0x", "")`: one left-to-right pass that drops every
      non-overlapping "0x". */
  function RemoveAll0x(s: string): (r: string)
    ensures |r| <= |s|
  {
    if |s| >= 2 && s[0] == '0' && s[1] == 'x' then RemoveAll0x(s[2..])
    else if s == [] then []
    else [s[0]] + RemoveAll0x(s[1..])
  }

  predicate Has0xAt(s: string, k: int) {
    0 <= k && k + 1 < |s| && s[k] == '0' && s[k + 1] == 'x'
  }

  /** Text without "0x" is left as it is. */
  lemma {:induction false} RemoveAll0xKeepsPlainText(s: string)
    requires forall k :: !Has0xAt(s, k)
    ensures RemoveAll0x(s) == s
  {
    if s != [] {
      assert !Has0xAt(s, 0);
      assert forall k :: Has0xAt(s[1..], k) ==> Has0xAt(s, k + 1);
      RemoveAll0xKeepsPlainText(s[1..]);
    }
  }

  /** Removal works piecewise when no "0x" straddles the cut. */
  lemma {:induction false} RemoveAll0xConcat(a: string, b: string)
    requires !(|a| > 0 && a[|a| - 1] == '0' && |b| > 0 && b[0] == 'x')
    ensures RemoveAll0x(a + b) == RemoveAll0x(a) + RemoveAll0x(b)
    decreases |a|
  {
    if a == [] {
      assert a + b == b;
    } else if |a| >= 2 && a[0] == '0' && a[1] == 'x' {
      assert (a + b)[2..] == a[2..] + b;
      RemoveAll0xConcat(a[2..], b);
    } else if |a| == 1 && a[0] == '0' && |b| > 0 && b[0] == 'x' {
      assert false;
    } else {
      var ab := a + b;
      assert ab[0] == a[0] && ab[1..] == a[1..] + b;
      assert !(|ab| >= 2 && ab[0] == '0' && ab[1] == 'x') by {
        if |a| >= 2 { assert ab[1] == a[1]; }
      }
      assert RemoveAll0x(ab) == [a[0]] + RemoveAll0x(a[1..] + b);
      assert RemoveAll0x(a) == [a[0]] + RemoveAll0x(a[1..]);
      RemoveAll0xConcat(a[1..], b);
    }
  }

  /** Every "0x" goes, wherever it stands, not only a leading prefix. */
  lemma RemoveAll0xEveryOccurrence(a: string, b: string)
    ensures RemoveAll0x(a + "0x" + b) == RemoveAll0x(a) + RemoveAll0x(b)
  {
    assert a + "0x" + b == a + ("0x" + b);
    RemoveAll0xConcat(a, "0x" + b);
    assert ("0x" + b)[2..] == b;
  }

  /** A single pass: "00xx" loses its inner "0x" and leaves a new one. */
  lemma RemoveAll0xIsSinglePass()
    ensures RemoveAll0x("00xx") == "0x"
    ensures RemoveAll0x("0x1234") == "1234" && Decode("1234") == Ok([0x12, 0x34])
  {
    assert RemoveAll0x("xx") == "xx";
    RemoveAll0xKeepsPlainText("1234");
    assert Decode("1234").value == [0x12, 0x34];
  }

  /** The validated inputs of the search. */
  datatype Setup = Setup(address: string, jumpdest: seq<uint8>)

  /** What a run ends with: a message before the search, a panic of `expect`,
      or one of the two reports after it. */
  datatype Report =
    | NoAddressProvided
    | NoJumpdestProvided
    | InvalidAddress
    | InvalidJumpdest(error: HexError)
    | JumpdestNotTwoBytes(length: nat)
    | Found(address: string, jumpdest: seq<uint8>, hash: Digest, nonce: uint64)
    | CrunchingFailed(address: string, jumpdest: seq<uint8>)

  /** The form of `to_checksum(..)`: "0x" and 40 hex digits. */
  predicate IsChecksumText(s: string) {
    |s| == 42 && s[..2] == "0x" && IsAddressHex(s[2..])
  }

  /** `to_checksum(&H160::from_str(a)?, None)`, None when parsing fails. */
  type ChecksumOf = string -> Option<string>

  ghost predicate ProducesChecksums(toChecksum: ChecksumOf) {
    forall a :: toChecksum(a).Some? ==> IsChecksumText(toChecksum(a).value)
  }

  /** The checks `main` makes before searching, in its order. */
  function Prepare(args: seq<string>, toChecksum: ChecksumOf): (r: Result<Setup, Report>)
    requires ProducesChecksums(toChecksum)
    ensures |args| < 2 ==> r == Err(NoAddressProvided)
    ensures |args| == 2 ==> r == Err(NoJumpdestProvided)
    ensures |args| >= 3 && toChecksum(args[1]).None? ==> r == Err(InvalidAddress)
    ensures |args| >= 3 && toChecksum(args[1]).Some? && Decode(RemoveAll0x(args[2])).Err? ==>
              r == Err(InvalidJumpdest(Decode(RemoveAll0x(args[2])).error))
    ensures r.Ok? ==> IsAddressHex(r.value.address) && |r.value.jumpdest| == 2
    ensures r.Ok? ==> |args| >= 3 && toChecksum(args[1]).Some? &&
                      r.value.address == toChecksum(args[1]).value[2..42] &&
                      Decode(RemoveAll0x(args[2])) == Ok(r.value.jumpdest)
  {
    if |args| < 2 then Err(NoAddressProvided)
    else if |args| < 3 then Err(NoJumpdestProvided)
    else match toChecksum(args[1])
      case None => Err(InvalidAddress)
      case Some(checksummed) =>
        var address := checksummed[2..42];
        match Decode(RemoveAll0x(args[2]))
        case Err(e) => Err(InvalidJumpdest(e))
        case Ok(jumpdest) =>
          if |jumpdest| != 2 then Err(JumpdestNotTwoBytes(|jumpdest|))
          else Ok(Setup(address, jumpdest))
  }

  /** Any jumpdest that does not decode to exactly two bytes stops the run
      before the search. */
  lemma JumpdestLengthChecked(args: seq<string>, toChecksum: ChecksumOf)
    requires ProducesChecksums(toChecksum)
    requires |args| >= 3 && toChecksum(args[1]).Some?
    requires Decode(RemoveAll0x(args[2])).Ok?
    ensures Prepare(args, toChecksum).Ok? <==> |Decode(RemoveAll0x(args[2])).value| == 2
    ensures |Decode(RemoveAll0x(args[2])).value| != 2 ==>
              Prepare(args, toChecksum) == Err(JumpdestNotTwoBytes(|RemoveAll0x(args[2])| / 2))
  {
  }

  /** `main`: prepare, search 0..u64::MAX, and report the match with its
      recomputed hash, or the failure. */
  method Run(args: seq<string>, toChecksum: ChecksumOf, keccak: Keccak256) returns (report: Report)
    requires ProducesChecksums(toChecksum)
    ensures Prepare(args, toChecksum).Err? ==> report == Prepare(args, toChecksum).error
    ensures Prepare(args, toChecksum).Ok? ==> report.Found? || report.CrunchingFailed?
    ensures report.Found? ==>
              && Prepare(args, toChecksum) == Ok(Setup(report.address, report.jumpdest))
              && report.nonce < U64_MAX
              && report.hash == NonceDigest(keccak, report.address, report.nonce)
              && Matches(report.hash, report.jumpdest)
    ensures report.CrunchingFailed? ==>
              && Prepare(args, toChecksum) == Ok(Setup(report.address, report.jumpdest))
              && forall i: uint64 :: i < U64_MAX ==> !NonceMatches(keccak, report.address, report.jumpdest, i)
  {
    var prepared := Prepare(args, toChecksum);
    if prepared.Err? {
      return prepared.error;
    }
    var setup := prepared.value;
    var closure := (i: uint64) => NonceMatches(keccak, setup.address, setup.jumpdest, i);
    var res := FindAny(closure, 0, U64_MAX);
    match res
    case Some(i) =>
      assert closure(i);
      report := Found(setup.address, setup.jumpdest, NonceDigest(keccak, setup.address, i), i);
    case None =>
      forall j: uint64 | j < U64_MAX
        ensures !NonceMatches(keccak, setup.address, setup.jumpdest, j)
      {
        assert !closure(j);
      }
      report := CrunchingFailed(setup.address, setup.jumpdest);
  }
}
