/** Package wallet: Base58Check address assembly and checking and the in-memory address
    book (wallet/wallet.go), and the split of a raw ECDSA signature (wallet/keypair.go). */
module Wallet {
  import opened Bytes
  import opened Utils
  import opened Wrappers

  /** The address version byte. */
  const VERSION: byte := 0x00

  /** An ECDSA P-256 private key; the model never looks inside it. */
  datatype PrivateKey = PrivateKey(d: nat)

  /** A key pair: the private key and the marshalled (uncompressed) public key. */
  datatype KeyPair = KeyPair(Priv: PrivateKey, Pub: seq<byte>)

  /** `VERSION ‖ RIPEMD160(SHA256(pub))`: the versioned public-key hash that addresses
      carry and that outputs are locked to. */
  function VersionedPubKeyHash(p: Primitives, pub: seq<byte>): (h: seq<byte>)
    requires p.Valid()
    ensures |h| == 21 && h[0] == VERSION
  {
    [VERSION] + p.ripemd160(p.hash256(pub))
  }

  /** The address checksum: the first four bytes of the double SHA-256 of `payload`. */
  function Checksum(p: Primitives, payload: seq<byte>): (c: seq<byte>)
    requires p.Valid()
    ensures |c| == 4
  {
    p.hash256(p.hash256(payload))[..4]
  }

  /** The 25 bytes `NewAddress` hands to base58: the versioned public-key hash followed by
      its checksum. */
  function AddressBytes(p: Primitives, pub: seq<byte>): (b: seq<byte>)
    requires p.Valid()
    ensures |b| == 25 && b[0] == VERSION
    ensures b[1..21] == p.ripemd160(p.hash256(pub))
    ensures b[21..] == Checksum(p, b[..21])
  {
    var versionPub := VersionedPubKeyHash(p, pub);
    versionPub + Checksum(p, versionPub)
  }

  /** `CheckAddress(addr)`: base58-decode, then compare the last four bytes with the
      checksum of the bytes before them. Fewer than four bytes is rejected. */
  function CheckAddress(p: Primitives, addr: string): (ok: bool)
    requires p.Valid()
    ensures |p.decode(addr)| < 4 ==> !ok
    ensures ok <==>
      var d := p.decode(addr);
      |d| >= 4 && d[|d| - 4..] == Checksum(p, d[..|d| - 4])
  {
    var reAddrBytes := p.decode(addr);
    if |reAddrBytes| < 4 then false
    else
      var reCheck := reAddrBytes[|reAddrBytes| - 4..];
      var reVersionPubHash := reAddrBytes[..|reAddrBytes| - 4];
      Compare(reCheck, Checksum(p, reVersionPubHash)) == 0
  }

  /** Every address `NewAddress` builds passes `CheckAddress`. */
  lemma CheckNewAddress(p: Primitives, pub: seq<byte>)
    requires p.Valid()
    ensures CheckAddress(p, p.encode(AddressBytes(p, pub)))
  {
    var b := AddressBytes(p, pub);
    assert p.decode(p.encode(b)) == b;
    assert b[|b| - 4..] == b[21..] && b[..|b| - 4] == b[..21];
  }

  /** The address book: each generated address with its key pair, held in memory. */
  class Wallet {
    var Address: map<string, KeyPair>

    /** A wallet over an existing address book, as loading one from the store gives. */
    constructor (address: map<string, KeyPair>)
      ensures Address == address
    {
      Address := address;
    }

    /** `NewAddress`: takes the outcome of key generation (`NewKeyPair`, which uses
        randomness), builds the Base58Check address of its public key, and records the pair
        under that address. The encoding step cannot fail. */
    method NewAddress(p: Primitives, newKeyPair: Result<KeyPair>) returns (address: string, err: Option<string>)
      requires p.Valid()
      modifies this
      ensures newKeyPair.Err? ==> address == "" && err == Some(newKeyPair.error) && Address == old(Address)
      ensures newKeyPair.Ok? ==>
        && err == None
        && address == p.encode(AddressBytes(p, newKeyPair.value.Pub))
        && Address == old(Address)[address := newKeyPair.value]
        && CheckAddress(p, address)
    {
      if newKeyPair.Err? {
        return "", Some(newKeyPair.error);
      }
      var keyPair := newKeyPair.value;
      var pubHash := p.hash256(keyPair.Pub);
      var ripemePub := p.ripemd160(pubHash);
      var versionPub := [VERSION] + ripemePub;
      var firstHash := p.hash256(versionPub);
      var secondHash := p.hash256(firstHash);
      var check := secondHash[..4];
      var originAddress := versionPub + check;
      address, err := p.encode(originAddress), None;
      Address := Address[address := keyPair];
      CheckNewAddress(p, keyPair.Pub);
    }

    /** `GetKeyPairByAddress`: the stored pair, or nil for an unknown address. */
    function GetKeyPairByAddress(address: string): (kp: Option<KeyPair>)
      reads this
      ensures kp.Some? <==> address in Address
      ensures kp.Some? ==> kp.value == Address[address]
    {
      if address in Address then Some(Address[address]) else None
    }
  }

  /** `ConverSignature(sign)`: `r` is the big-endian value of the first half of the bytes and
      `s` that of the rest, so `s` takes the extra byte when the length is odd. */
  function ConverSignature(sign: seq<byte>): (rs: (nat, nat))
    ensures rs.0 < Pow256(|sign| / 2)
    ensures rs.1 < Pow256(|sign| - |sign| / 2)
  {
    (BigEndian(sign[..|sign| / 2]), BigEndian(sign[|sign| / 2..]))
  }

  /** Splitting two `k`-byte big-endian numbers written one after the other gives them back. */
  lemma ConverSignatureRoundTrip(k: nat, r: nat, s: nat)
    requires r < Pow256(k) && s < Pow256(k)
    ensures ConverSignature(ToBigEndian(k, r) + ToBigEndian(k, s)) == (r, s)
  {
    var sign := ToBigEndian(k, r) + ToBigEndian(k, s);
    assert sign[..k] == ToBigEndian(k, r) && sign[k..] == ToBigEndian(k, s);
  }

  /** `r` is the value of the first `len / 2` bytes and `s` the value of the rest, which takes
      the extra byte when the length is odd. */
  lemma ConverSignatureSplit(a: seq<byte>, b: seq<byte>)
    requires |b| == |a| || |b| == |a| + 1
    ensures ConverSignature(a + b) == (BigEndian(a), BigEndian(b))
  {
    var sign := a + b;
    DivModUnique(|sign|, 2, |a|, |b| - |a|);
    assert sign[..|a|] == a && sign[|a|..] == b;
  }

  /** An empty signature gives `(0, 0)`. */
  lemma ConverSignatureEmpty()
    ensures ConverSignature([]) == (0, 0)
  {
  }

  /** Zero bytes in front of either half do not change the numbers. */
  lemma ConverSignatureLeadingZeros(n: nat, a: seq<byte>, b: seq<byte>)
    requires |a| == |b|
    ensures ConverSignature(Zeros(n) + a + Zeros(n) + b) == (BigEndian(a), BigEndian(b))
  {
    var left, right := Zeros(n) + a, Zeros(n) + b;
    var sign := left + right;
    assert Zeros(n) + a + Zeros(n) + b == sign;
    assert |sign| / 2 == |left| by {
      DivModUnique(|sign|, 2, |left|, 0);
    }
    assert sign[..|left|] == left;
    assert sign[|left|..] == right;
    BigEndianLeadingZeros(n, a);
    BigEndianLeadingZeros(n, b);
  }
}
