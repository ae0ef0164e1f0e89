/** Package chaincrypto: a second, stand-alone copy of address assembly and checking
    (chaincrypto/address.go) that writes the version byte as the literal 0x00. */
module ChainCrypto {
  import opened Bytes
  import opened Utils
  import opened Wrappers
  import Wallet

  /** The bytes `NewAddress` encodes: `0x00 ‖ RIPEMD160(SHA256(pub))` followed by the first
      four bytes of the double SHA-256 of that prefix. */
  function NewAddressBytes(p: Primitives, pub: seq<byte>): (b: seq<byte>)
    requires p.Valid()
    ensures |b| == 25 && b[0] == 0x00
    ensures b[1..21] == p.ripemd160(p.hash256(pub))
    ensures b[21..] == p.hash256(p.hash256(b[..21]))[..4]
  {
    var pubHash := p.hash256(pub);
    var ripemePub := p.ripemd160(pubHash);
    var versionPub := [0x00] + ripemePub;
    var firstHash := p.hash256(versionPub);
    var secondHash := p.hash256(firstHash);
    var check := secondHash[..4];
    versionPub + check
  }

  /** `NewAddress`: `newPub` is the outcome of generating a P-256 key and marshalling its
      public point (randomness, so a parameter). A key-generation error is passed on;
      otherwise the address is the base58 encoding of `NewAddressBytes`, and it checks. */
  function NewAddress(p: Primitives, newPub: Result<seq<byte>>): (r: Result<string>)
    requires p.Valid()
    ensures newPub.Err? ==> r == Err(newPub.error)
    ensures newPub.Ok? ==> r.Ok? && p.decode(r.value) == NewAddressBytes(p, newPub.value)
    ensures newPub.Ok? ==> r.Ok? && CheckAddress(p, r.value)
  {
    if newPub.Err? then Err(newPub.error)
    else
      var address := p.encode(NewAddressBytes(p, newPub.value));
      CheckNewAddress(p, newPub.value);
      Ok(address)
  }

  /** `CheckAddress(addr)`: the same test as the wallet's: at least four decoded bytes, the
      last four equal to the checksum of the rest. */
  function CheckAddress(p: Primitives, addr: string): (ok: bool)
    requires p.Valid()
    ensures |p.decode(addr)| < 4 ==> !ok
    ensures ok == Wallet.CheckAddress(p, addr)
  {
    var reAddrBytes := p.decode(addr);
    if |reAddrBytes| < 4 then false
    else
      var reCheck := reAddrBytes[|reAddrBytes| - 4..];
      var reVersionPubHash := reAddrBytes[..|reAddrBytes| - 4];
      var reFirstHash := p.hash256(reVersionPubHash);
      var reSecondHash := p.hash256(reFirstHash);
      var check := reSecondHash[..4];
      Compare(reCheck, check) == 0
  }

  /** Every address `NewAddress` builds passes `CheckAddress`. */
  lemma CheckNewAddress(p: Primitives, pub: seq<byte>)
    requires p.Valid()
    ensures CheckAddress(p, p.encode(NewAddressBytes(p, pub)))
  {
    var b := NewAddressBytes(p, pub);
    assert p.decode(p.encode(b)) == b;
    assert b[|b| - 4..] == b[21..] && b[..|b| - 4] == b[..21];
  }

  /** Since the wallet's VERSION is 0x00, both copies build the same bytes for a key. */
  lemma SameBytesAsWallet(p: Primitives, pub: seq<byte>)
    requires p.Valid()
    ensures NewAddressBytes(p, pub) == Wallet.AddressBytes(p, pub)
  {
  }
}
