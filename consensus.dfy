/** Package consensus: the proof-of-work target, the block header hash, and the nonce
    search (consensus/consensus.go, consensus/pow.go). */
module Consensus {
  import opened Bytes
  import opened Utils
  import opened Wrappers
  import Chain

  /** The difficulty: the target is 2^(255 - DIFFICULTY). */
  const DIFFICULTY: nat := 10

  /** The target `NewPoW` builds for a difficulty: `1 << (255 - difficulty)`. A larger
      difficulty gives a smaller target, and every target fits in 256 bits. */
  function TargetFor(difficulty: nat): (target: nat)
    requires difficulty <= 255
    ensures 0 < target < Pow256(32)
  {
    Pow2Monotone(255 - difficulty, 256);
    Pow256IsPow2(32);
    Pow2(255 - difficulty)
  }

  /** Raising the difficulty by one halves the target. */
  lemma TargetHalves(difficulty: nat)
    requires difficulty < 255
    ensures 2 * TargetFor(difficulty + 1) == TargetFor(difficulty)
  {
    Pow2Add(1, 254 - difficulty);
  }

  /** `PoW`: the block to seal and the target its hash must fall below. */
  datatype PoW = PoW(Block: Chain.Block, Target: nat)
  {
    /** No nonce from 0 up to `bound` gives a header hash below the target. */
    ghost predicate NoNonceBelow(p: Primitives, bound: int)
      requires p.Valid() && Target < Pow256(32)
    {
      forall n: int64 :: 0 <= n < bound ==> !Accepts(CalculateHashWithNonce(p, Block, n), Target)
    }

    /** `FindNonce()` as written, with the unbounded loop cut off after `fuel` tries (fewer
        than 2^63, so the `int64` nonce never wraps). Its hash ignores the nonce, so either
        the first try succeeds and 0 is returned, or no try ever does. */
    method FindNonceAsWritten(p: Primitives, fuel: nat) returns (r: Option<int64>)
      requires p.Valid() && fuel < TWO_POW_63
      ensures r.Some? ==> r.value == 0 && AcceptsAsWritten(CalculateHash(p, Block, 0), Target)
      ensures r.None? ==> fuel == 0 || !AcceptsAsWritten(CalculateHash(p, Block, 0), Target)
    {
      var nonce: int64 := 0;
      while nonce < fuel
        invariant 0 <= nonce <= fuel
        invariant nonce > 0 ==> !AcceptsAsWritten(CalculateHash(p, Block, 0), Target)
      {
        var hash := CalculateHash(p, Block, nonce);
        var target := Target;
        var result := Compare(hash, MinimalBigEndian(target));
        if result == -1 {
          CalculateHashIgnoresNonce(p, Block, nonce, 0);
          return Some(nonce);
        }
        CalculateHashIgnoresNonce(p, Block, nonce, 0);
        nonce := nonce + 1;
      }
      return None;
    }

    /** `FindNonce()` with the nonce hashed and the target widened to 32 bytes before the
        comparison, cut off after `fuel` tries: the least nonce whose header hash is below
        the target, if one is below `fuel`. */
    method FindNonce(p: Primitives, fuel: nat) returns (r: Option<int64>)
      requires p.Valid() && fuel < TWO_POW_63 && Target < Pow256(32)
      ensures r.Some? ==> 0 <= r.value < fuel && Accepts(CalculateHashWithNonce(p, Block, r.value), Target)
      ensures r.Some? ==> NoNonceBelow(p, r.value)
      ensures r.None? ==> NoNonceBelow(p, fuel)
    {
      var nonce: int64 := 0;
      while nonce < fuel
        invariant 0 <= nonce <= fuel
        invariant NoNonceBelow(p, nonce)
      {
        var hash := CalculateHashWithNonce(p, Block, nonce);
        var target := Target;
        var result := Compare(hash, ToBigEndian(32, target));
        if result == -1 {
          return Some(nonce);
        }
        nonce := nonce + 1;
      }
      return None;
    }
  }

  /** `NewPoW(block)`: the block with the target of `DIFFICULTY`. The interface the Go
      function is declared against is collapsed onto `Chain.Block`. */
  function NewPoW(block: Chain.Block): (pow: PoW)
    ensures pow.Block == block
    ensures pow.Target == TargetFor(DIFFICULTY) && pow.Target < Pow256(32)
  {
    PoW(block, TargetFor(DIFFICULTY))
  }

  /** The bytes the header hash is taken over: height, version, previous hash, time, the
      eight nonce bytes, then the data. */
  function HeaderBytes(block: Chain.Block, nonceByte: seq<byte>): (h: seq<byte>)
    requires |nonceByte| == 8
    ensures |h| == 64 + |block.Data|
    ensures h[..8] == Int2Byte(block.Height) && h[8..16] == Int2Byte(block.Version)
    ensures h[16..48] == block.PrevHash && h[48..56] == Int2Byte(block.TimeStamp)
    ensures h[56..64] == nonceByte && h[64..] == block.Data
  {
    var heightByte := Int2Byte(block.Height);
    var versionByte := Int2Byte(block.Version);
    var timeByte := Int2Byte(block.TimeStamp);
    heightByte + versionByte + block.PrevHash + timeByte + nonceByte + block.Data
  }

  /** `CalculateHash(block, nonce)` as written: it encodes the block's own `Nonce` field
      and never reads its `nonce` argument. */
  function CalculateHash(p: Primitives, block: Chain.Block, nonce: int64): (h: Hash32)
    requires p.Valid()
    ensures h == CalculateHashWithNonce(p, block, block.Nonce)
  {
    p.hash256(HeaderBytes(block, Int2Byte(block.Nonce)))
  }

  /** `CalculateHash` with the `nonce` argument encoded in the nonce position. */
  function CalculateHashWithNonce(p: Primitives, block: Chain.Block, nonce: int64): (h: Hash32)
    requires p.Valid()
    ensures h == p.hash256(HeaderBytes(block, Int2Byte(nonce)))
    ensures FromTwosComplement(HeaderBytes(block, Int2Byte(nonce))[56..64]) == nonce
  {
    Int2ByteRoundTrip(nonce);
    p.hash256(HeaderBytes(block, Int2Byte(nonce)))
  }

  /** As written, the hash is the same whatever nonce is passed. */
  lemma CalculateHashIgnoresNonce(p: Primitives, block: Chain.Block, n1: int64, n2: int64)
    requires p.Valid()
    ensures CalculateHash(p, block, n1) == CalculateHash(p, block, n2)
    ensures CalculateHash(p, block, n1) == CalculateHashWithNonce(p, block, block.Nonce)
  {
  }

  /** With the nonce hashed, different nonces give different header bytes, so the search
      does try a new input each time. */
  lemma {:induction false} HeaderBytesDistinguishNonces(block: Chain.Block, n1: int64, n2: int64)
    requires n1 != n2
    ensures HeaderBytes(block, Int2Byte(n1)) != HeaderBytes(block, Int2Byte(n2))
  {
    Int2ByteRoundTrip(n1);
    Int2ByteRoundTrip(n2);
    assert HeaderBytes(block, Int2Byte(n1))[56..64] == Int2Byte(n1);
    assert HeaderBytes(block, Int2Byte(n2))[56..64] == Int2Byte(n2);
  }

  /** The acceptance test as written: `bytes.Compare(hash, target.Bytes()) == -1`, where
      `target.Bytes()` has no leading zero bytes and so is shorter than the hash. */
  predicate AcceptsAsWritten(hash: Hash32, target: nat): (ok: bool)
    ensures target < Pow256(32) && BigEndian(hash) < target ==> ok
  {
    BelowTargetAcceptedAsWritten(hash, target);
    Compare(hash, MinimalBigEndian(target)) == -1
  }

  /** A hash numerically below a 256-bit target also compares below its minimal encoding:
      either the encoding is 32 bytes long and the order is numeric, or it is shorter and
      the hash's first byte is zero while the encoding's is not. */
  lemma BelowTargetAcceptedAsWritten(hash: Hash32, target: nat)
    ensures target < Pow256(32) && BigEndian(hash) < target ==>
      Compare(hash, MinimalBigEndian(target)) == -1
  {
    if target < Pow256(32) && BigEndian(hash) < target {
      var m := MinimalBigEndian(target);
      assert m != [];
      LeadingByteBound(m);
      if |m| > 32 {
        Pow256Monotone(32, |m| - 1);
        assert false;
      } else if |m| == 32 {
        CompareIsNumeric(hash, m);
      } else {
        Pow256Monotone(|m|, 31);
        FirstByteZero(hash);
      }
    }
  }

  /** A 32-byte string worth less than 256^31 starts with a zero byte. */
  lemma FirstByteZero(hash: Hash32)
    requires BigEndian(hash) < Pow256(31)
    ensures hash[0] == 0
  {
    if hash[0] > 0 {
      MulLeft(1, hash[0], Pow256(31));
      assert false;
    }
  }

  /** The acceptance test with the target written in 32 bytes: the hash, read as a
      big-endian number, is below the target. */
  function Accepts(hash: Hash32, target: nat): (ok: bool)
    requires target < Pow256(32)
    ensures ok <==> BigEndian(hash) < target
  {
    var padded := ToBigEndian(|hash|, target);
    CompareIsNumeric(hash, padded);
    Compare(hash, padded) == -1
  }

  /** `2^(a + 8b)` is `2^a` followed by `b` zero bytes. */
  lemma Pow2Bytes(a: nat, b: nat)
    ensures Pow2(a + 8 * b) == Pow2(a) * Pow256(b)
  {
    Pow2Add(a, 8 * b);
    Pow256IsPow2(b);
  }

  /** The target of `DIFFICULTY` is 0x20 followed by thirty zero bytes in base 256. */
  lemma TargetValue()
    ensures TargetFor(DIFFICULTY) == 32 * Pow256(30)
  {
    Pow2Bytes(5, 30);
    assert Pow2(5) == 32;
  }

  /** The minimal encoding of a one-byte number followed by `n` zero bytes in base 256. */
  lemma MinimalShifted(c: nat, n: nat)
    requires 0 < c < 256
    ensures MinimalBigEndian(c * Pow256(n)) == [c] + Zeros(n)
  {
    MinimalBigEndianShift(c, n);
    DivModUnique(c, 256, 0, c);
    assert MinimalBigEndian(c) == [c];
  }

  /** `target.Bytes()` of the target `NewPoW` builds: 0x20 and thirty zero bytes. */
  lemma TargetBytes()
    ensures MinimalBigEndian(TargetFor(DIFFICULTY)) == [0x20] + Zeros(30)
  {
    TargetValue();
    MinimalShifted(32, 30);
  }

  /** Against a one-byte value followed by zero bytes, a longer string compares below exactly
      when its first byte is below that value. */
  lemma ShortTargetCompare(hash: seq<byte>, c: byte, n: nat)
    requires |hash| > n
    ensures Compare(hash, [c] + Zeros(n)) == -1 <==> hash[0] < c
  {
    var t := [c] + Zeros(n);
    assert t[0] == c && t[1..] == Zeros(n);
    if hash[0] == c {
      CompareWithZeros(hash[1..], n);
    }
  }

  /** As written, a hash passes exactly when its first byte is below 0x20: only the top
      three bits are tested. */
  lemma AcceptsAsWrittenFirstByte(hash: Hash32)
    ensures AcceptsAsWritten(hash, TargetFor(DIFFICULTY)) <==> hash[0] < 0x20
  {
    TargetBytes();
    ShortTargetCompare(hash, 0x20, 30);
  }

  /** A string of `n + 2` bytes is below `c` followed by `n` zero bytes in base 256 exactly
      when its first two bytes, read as a number, are below `c`. */
  lemma BelowShifted(hash: seq<byte>, c: nat, n: nat)
    requires |hash| == n + 2
    ensures BigEndian(hash) < c * Pow256(n) <==> hash[0] as int * 256 + hash[1] as int < c
  {
    var rest := hash[2..];
    var r := BigEndian(rest);
    var P := Pow256(n);
    var h0: nat, h1: nat := hash[0], hash[1];
    var hi: nat := h0 * 256 + h1;
    assert hash == [hash[0]] + hash[1..];
    assert hash[1..] == [hash[1]] + rest;
    BigEndianCons(hash[0], hash[1..]);
    BigEndianCons(hash[1], rest);
    Pow256Add(1, n);
    assert Pow256(n + 1) == 256 * P;
    assert BigEndian(hash) == h0 * (256 * P) + (h1 * P + r);
    TwoDigits(h0, h1, P);
    if hi < c {
      DigitOrder(hi, c, P, r, 0);
    } else {
      MulLeft(c, hi, P);
    }
  }

  lemma TwoDigits(h0: nat, h1: nat, p: nat)
    ensures h0 * (256 * p) + h1 * p == (h0 * 256 + h1) * p
  {
  }

  /** With the target widened, a hash passes exactly when its first byte is 0 and its second
      below 0x20: the top eleven bits are zero. */
  lemma AcceptsFirstBytes(hash: Hash32)
    ensures Accepts(hash, TargetFor(DIFFICULTY)) <==> hash[0] == 0 && hash[1] < 0x20
  {
    TargetValue();
    BelowShifted(hash, 32, 30);
  }

  /** Every hash the widened test accepts is accepted as written too. */
  lemma AcceptedAlsoAsWritten(hash: Hash32)
    ensures Accepts(hash, TargetFor(DIFFICULTY)) ==> AcceptsAsWritten(hash, TargetFor(DIFFICULTY))
  {
    AcceptsFirstBytes(hash);
    AcceptsAsWrittenFirstByte(hash);
  }

  /** The test as written accepts a hash whose value, 2^248, is far above the target 2^245. */
  lemma AsWrittenAcceptsTooLarge()
    ensures var hash: Hash32 := [1] + Zeros(31);
      && AcceptsAsWritten(hash, TargetFor(DIFFICULTY))
      && !Accepts(hash, TargetFor(DIFFICULTY))
      && BigEndian(hash) == Pow2(248)
  {
    var hash: Hash32 := [1] + Zeros(31);
    AcceptsAsWrittenFirstByte(hash);
    AcceptsFirstBytes(hash);
    OneThenZeros(31);
    Pow256IsPow2(31);
  }

  /** One followed by `n` zero bytes is 256^n. */
  lemma OneThenZeros(n: nat)
    ensures BigEndian([1] + Zeros(n)) == Pow256(n)
  {
    BigEndianCons(1, Zeros(n));
    BigEndianLeadingZeros(n, []);
    assert Zeros(n) + [] == Zeros(n);
  }
}
