# XianfengChain core, modelled in Dafny

This project models the core of XianfengChain, a small Go UTXO ledger. It covers the
following parts:

- **Addresses** (`wallet`, `chaincrypto`). An address is the base58 encoding of
  `VERSION ‖ RIPEMD160(SHA256(pub)) ‖ checksum`. The checksum is the first four bytes of the
  double SHA-256 of the bytes before it. The model covers building an address, checking it,
  and the wallet's in-memory address book.
- **Signatures** (`wallet/keypair.go`). The model covers splitting a raw ECDSA signature into
  its big-endian halves `(r, s)`.
- **Transactions** (`transaction`). Inputs, outputs and UTXOs, and the byte comparisons that
  decide who owns an output and whether an input spends it.
- **UTXO set** (`utxoset`). One bucket of the store maps each address to its list of unspent
  outputs. The model covers querying, appending, deleting by spend records, and collecting
  by spend records.
- **Chain** (`chain`). The model covers the genesis block, the next block, and the in-memory
  list of blocks.
- **Proof of work** (`consensus`). The model covers the target `2^(255 - DIFFICULTY)`, the
  header hash, the acceptance comparison, and the nonce search.
- **Integer encoding** (`utils.Int2Byte`). The model covers 8-byte big-endian two's
  complement.

One file holds one Go package: `utils.dfy`, `wallet.dfy`, `chaincrypto.dfy`,
`transaction.dfy`, `utxoset.dfy`, `chain.dfy` and `consensus.dfy`. Two support files sit
beside them. `bytes.dfy` models Go's `bytes.Compare`, `big.Int.SetBytes` / `Bytes`, and
fixed-width big-endian encoding. `wrappers.dfy` holds `Option` and `Result`.

The core calls SHA-256, RIPEMD-160 and base58 but does not implement them. The model makes
them fields of a `Primitives` value that every operation takes as a parameter. All that is
assumed of them is written in `Primitives.Valid`:

- SHA-256 gives 32 bytes.
- RIPEMD-160 gives 20 bytes.
- base58 decoding undoes encoding.

The Go code reads the store inside `bolt` transactions. The model's `UTXOSet` instead holds
the bucket directly as `Bucket: Option<map<string, seq<UTXO>>>`. `None` means the bucket does
not exist. A failing update closure leaves the bucket unchanged, just as bolt rolls back.

Where the Go code does something unusual, the model follows it as written:

- Blocks carry `Data: []byte`; transactions are not stored in blocks.
- `FindNonce` returns only the nonce.
- The chain is an in-memory slice of blocks.
- The proof-of-work test is the byte comparison at `consensus/pow.go:33`.
- `chain/blockchain.go:27` reads `lastBlock.Hash`, but the block's field is spelled `Haah`.
  The model reads `Haah`.
- `consensus/consensus.go:23-27` builds a `PoW` from a `BlockInterface`. The model builds it
  from `Chain.Block`.
- `Vout` and `Block.Version` are Go `int`s. The model gives them the width of `int64`.
- `UTXO.EqualSpendRecord` is called at `utxoset/utxoset.go:148`, but its Go body is not among
  the source files. The model defines it as a comparison of the transaction id and output
  index, the two fields a spend record exposes.

The Go `AddUTXOsWithAddress` declares a fresh `err` with `:=` at `utxoset/utxoset.go:98`.
As a result, only bucket-creation and decoding errors reach the caller, and the model returns
`(true, nil)`. Likewise, when some record matches no UTXO, `DeleteUTXOsWithAddress` returns
success without deleting anything. The model keeps this as written, and the finding below
gives the corrected version.

## Model

| member | source | states |
|---|---|---|
| Utils.Int2Byte | utils/convert.go:15-19 | the encoding of an `int64` is always eight bytes |
| Utils.FromTwosComplement | utils/convert.go:15-19 | the decoder of the two's-complement layout `Int2Byte` writes: the number is non-negative exactly when the eight bytes are worth less than 2^63 |
| Utils.Int2ByteRoundTrip | utils/convert.go:15-19 | the eight bytes read back as two's complement give the number again |
| Utils.Int2ByteAt | utils/convert.go:15-19 | byte `i` is `(num >> 8*(7-i)) & 0xff`, for negative numbers too |
| Utils.Int2ByteOrder | utils/convert.go:15-19 | for non-negative numbers, `bytes.Compare` of the encodings is -1 exactly when the first number is smaller |
| Bytes.BigEndian | wallet/keypair.go:50-51 | `SetBytes` of `n` bytes is a number below `256^n` |
| Bytes.ToBigEndianOfBigEndian | wallet/keypair.go:50-51 | writing a value back in its own width gives the bytes it was read from |
| Bytes.BigEndianLeadingZeros | wallet/keypair.go:50-51 | zero bytes in front do not change the value |
| Bytes.MinimalBigEndian | consensus/pow.go:33 | `target.Bytes()` encodes the target and has no leading zero byte |
| Bytes.Compare | consensus/pow.go:33 | `bytes.Compare` gives -1, 0 or 1, and 0 exactly for equal strings |
| Bytes.CompareIsNumeric | consensus/pow.go:33 | on strings of equal length, `bytes.Compare` is the numeric order of their big-endian values, in both directions |
| Bytes.CompareWithZeros | consensus/pow.go:33 | no string of at least `n` bytes compares below `n` zero bytes |
| Wallet.VersionedPubKeyHash | wallet/wallet.go:30-34 | the versioned public-key hash is 21 bytes and starts with `VERSION` |
| Wallet.Checksum | wallet/wallet.go:36-39 | the checksum is four bytes |
| Wallet.AddressBytes | wallet/wallet.go:30-41 | the address bytes are 25 long: the version, the RIPEMD-160 of the SHA-256 of the key, then the checksum of the first 21 bytes |
| Wallet.CheckAddress | wallet/wallet.go:60-76 | fewer than four decoded bytes fail; otherwise the address passes exactly when its last four bytes are the checksum of the rest |
| Wallet.CheckNewAddress | wallet/wallet.go:24-76 | every address the wallet builds passes `CheckAddress` |
| Wallet.Wallet.constructor | wallet/wallet.go:133-136 | a wallet holds the address book it is given |
| Wallet.Wallet.NewAddress | wallet/wallet.go:24-54 | a key-generation error is returned and the book is unchanged; otherwise the address is the base58 of `AddressBytes`, the pair is recorded under it, nothing else in the book changes, and the address checks |
| Wallet.Wallet.GetKeyPairByAddress | wallet/wallet.go:143-145 | the stored pair for a known address, nil exactly for an unknown one |
| Wallet.ConverSignature | wallet/keypair.go:47-54 | `r` is below 256 to the power of `len / 2` and `s` below 256 to the power of the remaining length |
| Wallet.ConverSignatureSplit | wallet/keypair.go:47-54 | `r` is the big-endian value of the first `len / 2` bytes and `s` that of the rest, which takes the extra byte when the length is odd |
| Wallet.ConverSignatureRoundTrip | wallet/keypair.go:47-54 | splitting two `k`-byte numbers written one after the other gives them back |
| Wallet.ConverSignatureEmpty | wallet/keypair.go:47-54 | an empty signature gives `(0, 0)` |
| Wallet.ConverSignatureLeadingZeros | wallet/keypair.go:47-54 | zero padding in front of each half leaves `(r, s)` unchanged |
| ChainCrypto.NewAddressBytes | chaincrypto/address.go:22-33 | the bytes are 25 long, start with 0x00, and carry the hash of the key and the checksum |
| ChainCrypto.NewAddress | chaincrypto/address.go:12-36 | a key-generation error is passed on; otherwise the address decodes to `NewAddressBytes` and passes `CheckAddress` |
| ChainCrypto.CheckAddress | chaincrypto/address.go:42-58 | rejects fewer than four bytes, and agrees with the wallet's check on every address |
| ChainCrypto.CheckNewAddress | chaincrypto/address.go:12-58 | every address `NewAddress` builds passes `CheckAddress` |
| ChainCrypto.SameBytesAsWallet | chaincrypto/address.go:26 | the literal 0x00 version equals the wallet's `VERSION`, so both packages build the same bytes for a key |
| Transaction.AddressPubKeyHash | transaction/txoutput.go:22-24 | the public-key hash is the decoded address without its last four bytes |
| Transaction.TxOutPut.CheckPubKHashWithAddress | transaction/txoutput.go:35-42 | true exactly when the output is locked to the hash the address carries |
| Transaction.LockMoney2PubkHash | transaction/txoutput.go:20-30 | the output keeps the value, and its owner check passes for the address it was locked to |
| Transaction.TxInput.VertifyInputWithAddress | transaction/txinput.go:35-52 | true exactly when the input's public key hashes to the hash the address carries |
| Transaction.NewTxInput | transaction/txinput.go:23-30 | the input names the given output and key, and has no signature |
| Transaction.UTXO.IsUTXOSpend | transaction/utxo.go:32-46 | true exactly when the input names this output and its key hashes to the output's locking hash |
| Transaction.UTXO.EqualSpendRecord | transaction/spendrecordinterface.go:6-9 | a record matches a UTXO exactly when the UTXO is the output the record names (same transaction id and index) |
| Transaction.NewUTXO | transaction/utxo.go:21-27 | the UTXO keeps the given reference and output |
| Transaction.SpendAgreesWithAddress | transaction/utxo.go:32-46 | an output locked to an address is spent by exactly the inputs naming it that verify against that address |
| Transaction.InputOfOwnAddressVerifies | transaction/txinput.go:35-52 | an input carrying the key an address was built from verifies against that address |
| Transaction.VerifyIgnoresReference | transaction/txinput.go:35-52 | verification depends only on the public key and the address |
| Transaction.SpendIgnoresValueAndSig | transaction/utxo.go:32-46 | whether an input spends a UTXO does not depend on the value or the signature |
| Transaction.SpendsAtMostOne | transaction/utxo.go:32-46 | among UTXOs naming distinct outputs, an input spends at most one |
| UtxoSet.NewSpendRecord | utxoset/spendrecord.go:14-30 | the getters give back the transaction id and index the record was built from |
| UtxoSet.NewSpendRecordInjective | utxoset/spendrecord.go:28-30 | two records are equal exactly when their ids and indexes are |
| UtxoSet.IsSubUTXOs | utxoset/utxoset.go:213-226 | true exactly when every record matches some UTXO |
| UtxoSet.Matching | utxoset/utxoset.go:194-199 | no UTXO is collected for a record exactly when none matches it |
| UtxoSet.MatchingMembers | utxoset/utxoset.go:194-199 | the UTXOs collected for a record are exactly those that match it |
| UtxoSet.GatheredMembers | utxoset/utxoset.go:192-204 | the UTXOs collected for the records are exactly those some record matches |
| UtxoSet.GatheredCount | utxoset/utxoset.go:192-204 | when every record matches, at least one UTXO is collected per record |
| UtxoSet.RemainingMembers | utxoset/utxoset.go:143-156 | a deletion keeps exactly the stored UTXOs no record matches |
| UtxoSet.RemainingCounts | utxoset/utxoset.go:143-156 | a deletion keeps every copy of a UTXO no record matches, and no copy of one that some record matches |
| UtxoSet.RemainingIsSubsequence | utxoset/utxoset.go:143-156 | what a deletion keeps is the stored list with elements left out, in the original order |
| UtxoSet.GatheredAndRemainingPartition | utxoset/utxoset.go:143-204 | with the same records, each stored UTXO is either collected by the lookup or kept by the deletion, never both |
| UtxoSet.SpentBySnoc | utxoset/utxoset.go:147-152 | a UTXO is spent by the records exactly when it is spent by all but the last or matches the last |
| UtxoSet.RemainingUTXOs | utxoset/utxoset.go:143-156 | the filter loop yields the UTXOs no record matches, in order |
| UtxoSet.UTXOIsSpent | utxoset/utxoset.go:146-152 | the inner loop reports whether some record matches the UTXO |
| UtxoSet.MatchingUTXOs | utxoset/utxoset.go:193-199 | the inner loop collects the matching UTXOs and reports whether there is one |
| UtxoSet.UTXOSet.constructor | utxoset/utxoset.go:27-32 | a UTXO set over a store in the given state |
| UtxoSet.UTXOSet.QueryUTXOsByAddressAsWritten | utxoset/utxoset.go:37-59 | as written: nothing and no error when the bucket exists, a nil-bucket panic when it does not |
| UtxoSet.UTXOSet.QueryUTXOsByAddress | utxoset/utxoset.go:37-59 | with the bucket test corrected: the stored UTXOs of the address, none when the bucket or the entry is missing, never an error |
| UtxoSet.QueryAsWrittenHidesStoredUTXOs | utxoset/utxoset.go:45 | where UTXOs are stored, the query as written returns none and the corrected one returns them |
| UtxoSet.UTXOSet.AddUTXOsWithAddress | utxoset/utxoset.go:64-107 | the bucket now exists, the address's list is the old list followed by the new UTXOs, every other address's query is unchanged, and success is reported |
| UtxoSet.UTXOSet.DeleteUTXOsWithAddress | utxoset/utxoset.go:112-166 | no bucket: nothing changes and success is reported; no entry: nothing changes and an error is reported; some record unmatched: nothing changes, yet success is reported; otherwise the entry becomes the UTXOs no record matches |
| UtxoSet.UTXOSet.DeleteUTXOsWithAddressReportingShortfall | utxoset/utxoset.go:139-141 | as the deletion, except that an unmatched record leaves everything unchanged and reports an error, so success holds exactly when there is no error |
| UtxoSet.ShortfallReportedAsSuccess | utxoset/utxoset.go:139-141 | deleting with a record that matches no held UTXO changes nothing and reports success as written, and fails once the error is reported |
| UtxoSet.UTXOSet.GetUTXOsBySpendRecordsAsWritten | utxoset/utxoset.go:171-208 | as written: nothing and no error when the bucket exists, a nil-bucket panic when it does not |
| UtxoSet.UTXOSet.GetUTXOsBySpendRecords | utxoset/utxoset.go:171-208 | with the bucket test corrected: a missing bucket or entry gives nothing and no error; when the entry exists, no error exactly when every record matches a stored UTXO, in which case the result lists, record by record, the matching UTXOs; otherwise it stops at the first unmatched record with what it collected before it |
| UtxoSet.GetAsWrittenHidesSpentUTXOs | utxoset/utxoset.go:178 | where every record matches, the lookup as written collects nothing while the corrected one collects at least one UTXO per record |
| Chain.WrapInt64 | chain/block.go:42 | an `int64` sum that does not overflow is left as it is |
| Chain.WrapInt64Succ | chain/block.go:42 | adding one after wrapping is wrapping after adding one |
| Chain.CreateGenesis | chain/block.go:26-35 | the genesis block has height 0, the block version, an all-zero previous hash, the given time and data, and zero hash and nonce |
| Chain.NewBlock | chain/block.go:40-51 | the next block has height `height + 1`, wrapping to the least `int64` after the greatest; it names `prev`, carries the time and data, and has no hash or nonce yet |
| Chain.Extend | chain/blockchain.go:24-29 | a new block is appended and the blocks before it are unchanged |
| Chain.ExtendKeepsLinked | chain/blockchain.go:24-29 | appending a block keeps a chain linked: block `i` has height `i`, and each block names its predecessor's hash |
| Chain.LinkedPrevHashesZero | chain/block.go:40-51 | since no block is ever given a hash, every block of a linked chain names the all-zero hash as predecessor |
| Chain.BlockChain.CreateChainWithGensis | chain/blockchain.go:13-19 | a new chain holds just its genesis block and is linked |
| Chain.BlockChain.CreateNewBlock | chain/blockchain.go:24-29 | the blocks become `Extend` of the old blocks, and a linked chain stays linked |
| Consensus.TargetFor | consensus/consensus.go:23-27 | the target is positive and fits in 256 bits |
| Consensus.TargetHalves | consensus/consensus.go:23-27 | raising the difficulty by one halves the target |
| Consensus.NewPoW | consensus/consensus.go:23-27 | the PoW keeps the block and has the target of `DIFFICULTY` |
| Consensus.TargetValue | consensus/pow.go:11 | the target of difficulty 10 is 0x20 followed by thirty zero bytes |
| Consensus.TargetBytes | consensus/pow.go:33 | `target.Bytes()` is the 31 bytes 0x20, 0, ..., 0 |
| Consensus.HeaderBytes | consensus/pow.go:46-52 | the hashed bytes are the height, version, previous hash, time and nonce at fixed offsets, followed by the data |
| Consensus.CalculateHash | consensus/pow.go:46-56 | as written, the hash is the corrected hash taken at the block's own `Nonce` field, whatever nonce is passed |
| Consensus.CalculateHashWithNonce | consensus/pow.go:46-56 | with the nonce argument encoded, the hash is taken over the header bytes whose nonce slot decodes back to that nonce |
| Consensus.CalculateHashIgnoresNonce | consensus/pow.go:46-56 | as written, the hash is the same for every nonce passed, namely the hash of the block's own nonce |
| Consensus.HeaderBytesDistinguishNonces | consensus/pow.go:46-56 | with the nonce argument encoded, different nonces give different hashed bytes |
| Consensus.AcceptsAsWritten | consensus/pow.go:33 | the comparison as written accepts every hash numerically below a 256-bit target (and, by the lemmas below, more) |
| Consensus.Accepts | consensus/pow.go:33-35 | with the target widened to 32 bytes, the comparison accepts exactly the hashes numerically below the target |
| Consensus.ShortTargetCompare | consensus/pow.go:33 | against a one-byte value followed by zeros, a longer string compares below exactly when its first byte is below that value |
| Consensus.AcceptsAsWrittenFirstByte | consensus/pow.go:33-35 | as written, a hash passes exactly when its first byte is below 0x20 |
| Consensus.BelowShifted | consensus/pow.go:33-35 | a string of `n + 2` bytes is below `c · 256^n` exactly when its first two bytes are below `c` |
| Consensus.AcceptsFirstBytes | consensus/pow.go:33-35 | with the target widened, a hash passes exactly when its first byte is 0 and its second is below 0x20 |
| Consensus.AcceptedAlsoAsWritten | consensus/pow.go:33-35 | every hash the widened test accepts is also accepted as written |
| Consensus.AsWrittenAcceptsTooLarge | consensus/pow.go:33-35 | the hash `01 00 … 00`, worth 2^248, passes as written but is above the target 2^245 |
| Consensus.PoW.FindNonceAsWritten | consensus/pow.go:19-41 | as written, the search returns 0 when the first hash passes, and otherwise nothing within the tries it is given |
| Consensus.PoW.FindNonce | consensus/pow.go:19-41 | with the nonce hashed and the target widened, the search returns the least nonce whose hash is below the target, or nothing when no nonce below the bound passes |

## Left out

- Persistence. The bolt store, gob encoding and decoding and their errors are left out, and
  so are `SaveAddAndKeyPairs2DB`, `LoadAddrAndKeyPairsFromDB`, `SetCoinbase` and
  `GetCoinbase`. They are I/O. The UTXO bucket is a map held by the object.
- Bucket-creation, encoding and `Put` errors in `AddUTXOsWithAddress` and
  `DeleteUTXOsWithAddress`. These come from the store.
- Transaction.AddressPubKeyHash: in Go, a decoded address shorter than four bytes panics at the slice; the model requires at least four bytes.
- Transaction.TxOutPut.CheckPubKHashWithAddress: in Go, a decoded address shorter than four bytes panics at the slice; the model requires at least four bytes.
- Transaction.LockMoney2PubkHash: in Go, a decoded address shorter than four bytes panics at the slice; the model requires at least four bytes.
- Transaction.TxInput.VertifyInputWithAddress: in Go, a decoded address shorter than four bytes panics at the slice; the model requires at least four bytes.
- Key generation (`NewKeyPair`, `NewPriKey`, `GetPub`) and `RecoverPublicKey`. They use
  randomness or elliptic-curve arithmetic. Their outcome is a parameter of `NewAddress`.
- SHA-256, RIPEMD-160 and base58 are parameters. The `utils` and `base58` codecs are taken to
  be the same function.
- The `utils` JSON and gob wrappers (`Encoder`, `Decodes`, `JSONArray2String`,
  `JSONArray2Float`) wrap library calls and are not part of this model.
- `float64` amounts are carried as their 64-bit pattern. No arithmetic is done on them.
- The wall clock: `time.Now().Unix()` is the parameter `now`.
- Consensus.PoW.FindNonce: the Go loop is unbounded. The model stops after `fuel` tries,
  with `fuel` below 2^63, so it does not model the `int64` nonce wrapping to negative values.
- Consensus.PoW.FindNonceAsWritten: bounded by `fuel` in the same way.
- `Consensus` and `BlockInterface` are declared, but nothing in the Go code implements them:
  `chain.Block` has none of the getters `BlockInterface` lists, and `PoW.FindNonce` returns
  only an `int64`. The model leaves out both interfaces and treats `PoW` and `Chain.Block` as
  concrete types.
- The chain iterator and the client and command-line code are not part of this model.

## Findings

| source | as written | input that shows it | evidently intended | confidence | as-written member | corrected member |
|---|---|---|---|---|---|---|
| utxoset/utxoset.go:45 | `if bucket != nil { return nil }` returns before reading whenever the bucket exists, and calls `Get` on a nil bucket when it does not | a bucket holding one UTXO for the address: the query returns none | `if bucket == nil { return nil }` | high, not executed | UtxoSet.UTXOSet.QueryUTXOsByAddressAsWritten, UtxoSet.QueryAsWrittenHidesStoredUTXOs | UtxoSet.UTXOSet.QueryUTXOsByAddress (read back by UtxoSet.UTXOSet.AddUTXOsWithAddress) |
| utxoset/utxoset.go:178 | the same inverted test in `GetUTXOsBySpendRecords` | a stored UTXO and a record matching it: nothing is collected and no error is given | `if bucket == nil { return nil }` | high, not executed | UtxoSet.UTXOSet.GetUTXOsBySpendRecordsAsWritten, UtxoSet.GetAsWrittenHidesSpentUTXOs | UtxoSet.UTXOSet.GetUTXOsBySpendRecords, UtxoSet.GatheredMembers |
| utxoset/utxoset.go:139-141, 165 | the "insufficient balance" error is returned from the closure but never assigned to the outer `err`, so the caller sees `(true, nil)` | one held UTXO at index 0 and a record for index 1 | the deletion reports the error | medium, not executed | UtxoSet.UTXOSet.DeleteUTXOsWithAddress, UtxoSet.ShortfallReportedAsSuccess | UtxoSet.UTXOSet.DeleteUTXOsWithAddressReportingShortfall |
| consensus/pow.go:50 | `CalculateHash` encodes `block.Nonce` and never its `nonce` argument, so every try hashes the same bytes | any block whose first hash fails: the search never ends | encode the `nonce` argument | high, not executed | Consensus.CalculateHash, Consensus.CalculateHashIgnoresNonce, Consensus.PoW.FindNonceAsWritten | Consensus.CalculateHashWithNonce, Consensus.HeaderBytesDistinguishNonces, Consensus.PoW.FindNonce |
| consensus/pow.go:33 | `bytes.Compare(hash[:], target.Bytes())` compares 32 bytes with the 31-byte minimal encoding of 2^245, so only the first byte is tested | hash `01 00 … 00` (2^248) passes | the numeric test `hash < target` | high, not executed | Consensus.AcceptsAsWritten, Consensus.AcceptsAsWrittenFirstByte, Consensus.AsWrittenAcceptsTooLarge | Consensus.Accepts, Consensus.AcceptsFirstBytes |
