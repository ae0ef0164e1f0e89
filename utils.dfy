/** Package utils: the hashing and base58 helpers the core calls, and `Int2Byte`
    (utils/convert.go). */
module Utils {
  import opened Bytes

  /** The primitives the core calls into but does not implement: SHA-256 (`utils.Hash256`,
      `sha256.Sum256`), RIPEMD-160 (`utils.HashRipemd160`) and base58 (`utils.Encode` /
      `utils.Decode`, and `base58.Encode` / `base58.Decode` in package chaincrypto, taken to
      be the same codec). They are parameters of the model; nothing is assumed of them
      beyond what `Valid` states. */
  datatype Primitives = Primitives(
    hash256: seq<byte> -> seq<byte>,
    ripemd160: seq<byte> -> seq<byte>,
    encode: seq<byte> -> string,
    decode: string -> seq<byte>)
  {
    /** SHA-256 gives 32 bytes, RIPEMD-160 gives 20, and base58 decoding undoes encoding. */
    ghost predicate Valid() {
      && (forall data :: |hash256(data)| == 32)
      && (forall data :: |ripemd160(data)| == 20)
      && (forall data :: decode(encode(data)) == data)
    }
  }

  const TWO_POW_63: nat := 0x8000_0000_0000_0000
  const TWO_POW_64: nat := 0x1_0000_0000_0000_0000

  /** `Int2Byte(num)` writes `num` with `binary.Write(buff, binary.BigEndian, num)`: eight
      bytes of big-endian two's complement. Writing into a `bytes.Buffer` cannot fail, so
      the error result is always nil and is left out. */
  function Int2Byte(num: int64): (b: seq<byte>)
    ensures |b| == 8
  {
    Pow256Eight();
    ToBigEndian(8, if num < 0 then num + TWO_POW_64 else num)
  }

  /** Reads eight big-endian bytes back as a two's-complement int64. */
  function FromTwosComplement(b: seq<byte>): (num: int64)
    requires |b| == 8
    ensures 0 <= num <==> BigEndian(b) < TWO_POW_63
  {
    Pow256Eight();
    var u := BigEndian(b);
    if u >= TWO_POW_63 then u - TWO_POW_64 else u
  }

  /** `Int2Byte` loses nothing: the eight bytes decode back to `num`. */
  lemma Int2ByteRoundTrip(num: int64)
    ensures FromTwosComplement(Int2Byte(num)) == num
  {
    Pow256Eight();
  }

  /** Byte `i` of `Int2Byte(num)` is `(num >> 8*(7-i)) & 0xff`; Go's arithmetic shift
      floors, as Dafny's division by a positive number does. */
  lemma Int2ByteAt(num: int64, i: nat)
    requires i < 8
    ensures Int2Byte(num)[i] == (num / Pow256(7 - i)) % 256
  {
    Pow256Eight();
    var u := if num < 0 then num + TWO_POW_64 else num;
    ToBigEndianAt(8, u, i);
    if num < 0 {
      var d := Pow256(7 - i);
      var m := Pow256(i);
      Pow256Add(7 - i, i + 1);
      assert TWO_POW_64 == d * (256 * m);
      AddWholeBytes(num, d, m);
    }
  }

  /** For non-negative numbers the encodings sort as the numbers do under `bytes.Compare`. */
  lemma Int2ByteOrder(a: int64, b: int64)
    requires 0 <= a && 0 <= b
    ensures Compare(Int2Byte(a), Int2Byte(b)) == -1 <==> a < b
  {
    Pow256Eight();
    CompareIsNumeric(Int2Byte(a), Int2Byte(b));
  }
}
