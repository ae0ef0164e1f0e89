/** Package transaction: inputs, outputs and UTXOs, and the byte comparisons that decide
    who owns an output and whether an input spends it (transaction/utxo.go, txinput.go,
    txoutput.go; the `Transaction` record of transaction.go). */
module Transaction {
  import opened Bytes
  import opened Utils
  import Wallet

  /** A Go `float64` amount, kept as its IEEE-754 bit pattern: values are carried, never
      computed with or compared. */
  type Float64 = bv64

  /** The public-key hash an address carries: the base58-decoded address without its
      four checksum bytes. The slice panics in Go when fewer than four bytes decode. */
  function AddressPubKeyHash(p: Primitives, address: string): (h: seq<byte>)
    requires |p.decode(address)| >= 4
    ensures h + p.decode(address)[|p.decode(address)| - 4..] == p.decode(address)
  {
    var reAddr := p.decode(address);
    reAddr[..|reAddr| - 4]
  }

  /** `TxOutPut`: an amount locked to a versioned public-key hash. */
  datatype TxOutPut = TxOutPut(Value: Float64, PubkHash: seq<byte>)
  {
    /** `CheckPubKHashWithAddress(address)`: the output is locked to the public-key hash
        the address carries. */
    function CheckPubKHashWithAddress(p: Primitives, address: string): (ok: bool)
      requires |p.decode(address)| >= 4
      ensures ok <==> PubkHash == AddressPubKeyHash(p, address)
    {
      var reAdd := p.decode(address);
      var pubKHash := reAdd[..|reAdd| - 4];
      Compare(pubKHash, PubkHash) == 0
    }
  }

  /** `LockMoney2PubkHash(value, addr)`: an output of `value` locked to the public-key hash
      of `addr`; it belongs to `addr` by `CheckPubKHashWithAddress`. */
  function LockMoney2PubkHash(p: Primitives, value: Float64, addr: string): (out: TxOutPut)
    requires |p.decode(addr)| >= 4
    ensures out.Value == value
    ensures |out.PubkHash| == |p.decode(addr)| - 4
    ensures out.CheckPubKHashWithAddress(p, addr)
  {
    var reAddr := p.decode(addr);
    var pubkHash := reAddr[..|reAddr| - 4];
    TxOutPut(value, pubkHash)
  }

  /** `TxInput`: a claim on output `Vout` of transaction `TxId`, with a signature and the
      spender's raw public key. */
  datatype TxInput = TxInput(TxId: Hash32, Vout: int64, Sig: seq<byte>, PubK: seq<byte>)
  {
    /** `VertifyInputWithAddress(address)`: the input's public key hashes to the public-key
        hash the address carries. */
    function VertifyInputWithAddress(p: Primitives, address: string): (ok: bool)
      requires p.Valid() && |p.decode(address)| >= 4
      ensures ok <==> Wallet.VersionedPubKeyHash(p, PubK) == AddressPubKeyHash(p, address)
    {
      var hash256 := p.hash256(PubK);
      var ripemd160 := p.ripemd160(hash256);
      var pubkHash := [Wallet.VERSION] + ripemd160;
      var reAddress := p.decode(address);
      var rePubkHash := reAddress[..|reAddress| - 4];
      Compare(pubkHash, rePubkHash) == 0
    }
  }

  /** `NewTxInput(txid, vout, pubk)`: an unsigned input. */
  function NewTxInput(txid: Hash32, vout: int64, pubk: seq<byte>): (input: TxInput)
    ensures input.TxId == txid && input.Vout == vout && input.PubK == pubk
    ensures input.Sig == []
  {
    TxInput(TxId := txid, Vout := vout, Sig := [], PubK := pubk)
  }

  /** `UTXO`: output `Vout` of transaction `TxId`, still unspent. */
  datatype UTXO = UTXO(TxId: Hash32, Vout: int64, Out: TxOutPut)
  {
    /** `IsUTXOSpend(spend)`: the input names this output and its public key hashes to the
        hash the output is locked to. */
    function IsUTXOSpend(p: Primitives, spend: TxInput): (spent: bool)
      requires p.Valid()
      ensures spent <==>
        && TxId == spend.TxId
        && Vout == spend.Vout
        && Wallet.VersionedPubKeyHash(p, spend.PubK) == Out.PubkHash
    {
      var equalTxId := Compare(TxId, spend.TxId) == 0;
      var equalVout := Vout == spend.Vout;
      var hash := p.hash256(spend.PubK);
      var ripemd160 := p.ripemd160(hash);
      var pubkHash := [Wallet.VERSION] + ripemd160;
      var equalConsumer := Compare(pubkHash, Out.PubkHash) == 0;
      equalTxId && equalVout && equalConsumer
    }

    /** `EqualSpendRecord(record)`: its Go body is not among the source files. The model
        takes it to compare the two fields a spend record exposes, the transaction id and
        the output index, with this UTXO's. */
    predicate EqualSpendRecord(recordTxId: Hash32, recordVout: int64): (equal: bool)
      ensures equal <==> this == NewUTXO(recordTxId, recordVout, Out)
    {
      TxId == recordTxId && Vout == recordVout
    }
  }

  /** `NewUTXO(txid, vout, out)`: stores its arguments unchanged. */
  function NewUTXO(txid: Hash32, vout: int64, out: TxOutPut): (utxo: UTXO)
    ensures utxo.TxId == txid && utxo.Vout == vout && utxo.Out == out
  {
    UTXO(TxId := txid, Vout := vout, Out := out)
  }

  /** `Transaction`: a hash with ordered inputs and outputs (a record with no behaviour). */
  datatype Transaction = Transaction(TxHash: Hash32, Inputs: seq<TxInput>, Outputs: seq<TxOutPut>)

  /** An output locked to `addr` is spent by exactly the inputs that name it and verify
      against `addr`: utxo.go and txinput.go agree on ownership. */
  lemma SpendAgreesWithAddress(p: Primitives, txid: Hash32, vout: int64, value: Float64, addr: string, spend: TxInput)
    requires p.Valid() && |p.decode(addr)| >= 4
    ensures NewUTXO(txid, vout, LockMoney2PubkHash(p, value, addr)).IsUTXOSpend(p, spend)
        <==> spend.TxId == txid && spend.Vout == vout && spend.VertifyInputWithAddress(p, addr)
  {
  }

  /** An input carrying the public key an address was built from verifies against that
      address. */
  lemma InputOfOwnAddressVerifies(p: Primitives, pub: seq<byte>, txid: Hash32, vout: int64)
    requires p.Valid()
    ensures var addr := p.encode(Wallet.AddressBytes(p, pub));
      |p.decode(addr)| >= 4 && NewTxInput(txid, vout, pub).VertifyInputWithAddress(p, addr)
  {
    var b := Wallet.AddressBytes(p, pub);
    assert p.decode(p.encode(b)) == b;
    assert b[..|b| - 4] == b[..21];
  }

  /** Whether an input verifies depends on its public key and the address only. */
  lemma VerifyIgnoresReference(p: Primitives, a: TxInput, b: TxInput, address: string)
    requires p.Valid() && |p.decode(address)| >= 4
    requires a.PubK == b.PubK
    ensures a.VertifyInputWithAddress(p, address) == b.VertifyInputWithAddress(p, address)
  {
  }

  /** `IsUTXOSpend` reads neither the output's value nor the input's signature. */
  lemma SpendIgnoresValueAndSig(p: Primitives, utxo: UTXO, spend: TxInput, value: Float64, sig: seq<byte>)
    requires p.Valid()
    ensures utxo.(Out := utxo.Out.(Value := value)).IsUTXOSpend(p, spend.(Sig := sig))
        == utxo.IsUTXOSpend(p, spend)
  {
  }

  /** Among UTXOs that name distinct outputs, an input spends at most one. */
  lemma SpendsAtMostOne(p: Primitives, utxos: seq<UTXO>, spend: TxInput)
    requires p.Valid()
    requires forall m, n :: 0 <= m < n < |utxos| ==> (utxos[m].TxId, utxos[m].Vout) != (utxos[n].TxId, utxos[n].Vout)
    ensures forall i, j :: 0 <= i < |utxos| && 0 <= j < |utxos| && utxos[i].IsUTXOSpend(p, spend) && utxos[j].IsUTXOSpend(p, spend) ==> i == j
  {
  }
}
