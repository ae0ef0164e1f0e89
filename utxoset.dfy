/** Package utxoset: spend records (utxoset/spendrecord.go) and the UTXO set kept in the
    "utxoset" bucket of the key-value store, one entry per address holding that address's
    unspent outputs in order (utxoset/utxoset.go). */
module UtxoSet {
  import opened Bytes
  import opened Wrappers
  import opened Transaction

  /** `SpendRecord`: the output an input spends, named by transaction id and output index. */
  datatype SpendRecord = SpendRecord(TxId: Hash32, Vout: int64)
  {
    function GetTxId(): Hash32 { TxId }

    function GetVout(): int64 { Vout }
  }

  /** `NewSpendRecord(txid, vout)`: the getters give back what was stored. */
  function NewSpendRecord(txid: Hash32, vout: int64): (record: SpendRecord)
    ensures record.GetTxId() == txid && record.GetVout() == vout
  {
    SpendRecord(txid, vout)
  }

  /** Two records are equal exactly when their transaction ids and output indexes are. */
  lemma NewSpendRecordInjective(t1: Hash32, v1: int64, t2: Hash32, v2: int64)
    ensures NewSpendRecord(t1, v1) == NewSpendRecord(t2, v2) <==> t1 == t2 && v1 == v2
  {
  }

  /** `utxo.EqualSpendRecord(record)`, through the two getters the record exposes. */
  predicate Matches(utxo: UTXO, record: SpendRecord)
  {
    utxo.EqualSpendRecord(record.GetTxId(), record.GetVout())
  }

  /** Some UTXO of `utxos` matches `record`. */
  ghost predicate Covered(utxos: seq<UTXO>, record: SpendRecord)
  {
    exists i :: 0 <= i < |utxos| && Matches(utxos[i], record)
  }

  /** Every record matches some UTXO of `utxos`: the records are a subset of the UTXOs. */
  ghost predicate AllCovered(utxos: seq<UTXO>, records: seq<SpendRecord>)
  {
    forall j :: 0 <= j < |records| ==> Covered(utxos, records[j])
  }

  /** Some record of `records` matches `utxo`. */
  predicate SpentBy(utxo: UTXO, records: seq<SpendRecord>)
  {
    exists j :: 0 <= j < |records| && Matches(utxo, records[j])
  }

  /** The UTXOs of `utxos` that match `record`, in order. */
  function Matching(utxos: seq<UTXO>, record: SpendRecord): (m: seq<UTXO>)
    ensures m == [] <==> !Covered(utxos, record)
  {
    if utxos == [] then []
    else
      var front, last := utxos[..|utxos| - 1], utxos[|utxos| - 1];
      var m := Matching(front, record) + (if Matches(last, record) then [last] else []);
      assert Covered(front, record) ==> Covered(utxos, record);
      m
  }

  /** The UTXOs of `utxos` that no record matches, in their original order. */
  function Remaining(utxos: seq<UTXO>, records: seq<SpendRecord>): (rest: seq<UTXO>)
    ensures |rest| <= |utxos|
  {
    if utxos == [] then []
    else
      var front, last := utxos[..|utxos| - 1], utxos[|utxos| - 1];
      Remaining(front, records) + (if SpentBy(last, records) then [] else [last])
  }

  /** A deletion keeps exactly the stored UTXOs that no record matches. */
  lemma {:induction false} RemainingMembers(utxos: seq<UTXO>, records: seq<SpendRecord>)
    ensures forall u :: u in Remaining(utxos, records) <==> u in utxos && !SpentBy(u, records)
  {
    if utxos != [] {
      var front, last := utxos[..|utxos| - 1], utxos[|utxos| - 1];
      RemainingMembers(front, records);
      assert utxos == front + [last];
    }
  }

  /** A deletion keeps every copy of a UTXO no record matches and no copy of one that some
      record matches. */
  lemma {:induction false} RemainingCounts(utxos: seq<UTXO>, records: seq<SpendRecord>)
    ensures forall u ::
      multiset(Remaining(utxos, records))[u] == (if SpentBy(u, records) then 0 else multiset(utxos)[u])
  {
    if utxos != [] {
      var front, last := utxos[..|utxos| - 1], utxos[|utxos| - 1];
      RemainingCounts(front, records);
      assert utxos == front + [last];
      assert multiset(utxos) == multiset(front) + multiset{last};
    }
  }

  /** For each record in turn, the UTXOs of `utxos` that match it. */
  function Gathered(utxos: seq<UTXO>, records: seq<SpendRecord>): seq<UTXO>
  {
    if records == [] then []
    else Gathered(utxos, records[..|records| - 1]) + Matching(utxos, records[|records| - 1])
  }

  /** `Matching` keeps every UTXO that matches the record, and only those. */
  lemma {:induction false} MatchingMembers(utxos: seq<UTXO>, record: SpendRecord)
    ensures forall u :: u in Matching(utxos, record) <==> u in utxos && Matches(u, record)
  {
    if utxos != [] {
      var front, last := utxos[..|utxos| - 1], utxos[|utxos| - 1];
      MatchingMembers(front, record);
      assert utxos == front + [last];
    }
  }

  /** A UTXO is spent by some records exactly when it is spent by all but the last or
      matches the last. */
  lemma SpentBySnoc(utxo: UTXO, records: seq<SpendRecord>)
    requires records != []
    ensures SpentBy(utxo, records) <==>
      SpentBy(utxo, records[..|records| - 1]) || Matches(utxo, records[|records| - 1])
  {
    var n := |records| - 1;
    var front := records[..n];
    if SpentBy(utxo, front) {
      var j :| 0 <= j < n && Matches(utxo, front[j]);
      assert records[j] == front[j];
    }
    if SpentBy(utxo, records) {
      var j :| 0 <= j < |records| && Matches(utxo, records[j]);
      if j < n {
        assert front[j] == records[j];
      }
    }
  }

  /** What a lookup collects is exactly the stored UTXOs some record matches. */
  lemma {:induction false} GatheredMembers(utxos: seq<UTXO>, records: seq<SpendRecord>)
    ensures forall u :: u in Gathered(utxos, records) <==> u in utxos && SpentBy(u, records)
  {
    if records != [] {
      var n := |records| - 1;
      var front, last := records[..n], records[n];
      GatheredMembers(utxos, front);
      MatchingMembers(utxos, last);
      assert Gathered(utxos, records) == Gathered(utxos, front) + Matching(utxos, last);
      forall u
        ensures u in Gathered(utxos, records) <==> u in utxos && SpentBy(u, records)
      {
        SpentBySnoc(u, records);
      }
    }
  }

  /** A lookup and a deletion with the same records split the stored UTXOs: each one is
      either collected by the lookup or kept by the deletion, never both. */
  lemma GatheredAndRemainingPartition(utxos: seq<UTXO>, records: seq<SpendRecord>)
    ensures forall u :: u in utxos ==> (u in Gathered(utxos, records) <==> u !in Remaining(utxos, records))
    ensures forall u :: u in Gathered(utxos, records) ==> u !in Remaining(utxos, records)
  {
    GatheredMembers(utxos, records);
    RemainingMembers(utxos, records);
  }

  /** `idx` places each element of `a` at a position of `b`, in increasing order. */
  ghost predicate IsEmbedding(idx: seq<nat>, a: seq<UTXO>, b: seq<UTXO>)
  {
    && |idx| == |a|
    && (forall i :: 0 <= i < |idx| ==> idx[i] < |b| && a[i] == b[idx[i]])
    && (forall i, j :: 0 <= i < j < |idx| ==> idx[i] < idx[j])
  }

  /** `a` is `b` with some elements left out and the rest kept in order. */
  ghost predicate IsSubsequence(a: seq<UTXO>, b: seq<UTXO>)
  {
    exists idx :: IsEmbedding(idx, a, b)
  }

  /** What a deletion keeps is a subsequence of what was stored. */
  lemma {:induction false} RemainingIsSubsequence(utxos: seq<UTXO>, records: seq<SpendRecord>)
    ensures IsSubsequence(Remaining(utxos, records), utxos)
  {
    var idx := RemainingEmbedding(utxos, records);
  }

  lemma {:induction false} RemainingEmbedding(utxos: seq<UTXO>, records: seq<SpendRecord>) returns (idx: seq<nat>)
    ensures IsEmbedding(idx, Remaining(utxos, records), utxos)
  {
    if utxos == [] {
      idx := [];
    } else {
      var n := |utxos| - 1;
      var front := utxos[..n];
      var inner := RemainingEmbedding(front, records);
      var kept := Remaining(front, records);
      forall i | 0 <= i < |inner|
        ensures inner[i] < n && kept[i] == utxos[inner[i]]
      {
        assert front[inner[i]] == utxos[inner[i]];
      }
      if SpentBy(utxos[n], records) {
        assert Remaining(utxos, records) == kept;
        idx := inner;
      } else {
        var rest := kept + [utxos[n]];
        assert Remaining(utxos, records) == rest;
        idx := inner + [n];
        forall i | 0 <= i < |idx|
          ensures idx[i] < |utxos| && rest[i] == utxos[idx[i]]
        {
          if i < |inner| {
            assert idx[i] == inner[i] && rest[i] == kept[i];
          }
        }
        forall i, j | 0 <= i < j < |idx|
          ensures idx[i] < idx[j]
        {
          if j < |inner| {
            assert idx[i] == inner[i] && idx[j] == inner[j];
          }
        }
      }
    }
  }

  /** The inner loop of `DeleteUTXOsWithAddress`: whether some record matches `utxo`. */
  method UTXOIsSpent(utxo: UTXO, records: seq<SpendRecord>) returns (isSpent: bool)
    ensures isSpent == SpentBy(utxo, records)
  {
    isSpent := false;
    for j := 0 to |records|
      invariant isSpent <==> SpentBy(utxo, records[..j])
    {
      if Matches(utxo, records[j]) {
        isSpent := true;
      }
    }
    assert records[..|records|] == records;
  }

  /** The filter loop of `DeleteUTXOsWithAddress`: the UTXOs no record matches, in order. */
  method RemainingUTXOs(existUTXOs: seq<UTXO>, records: seq<SpendRecord>) returns (remainUTXOs: seq<UTXO>)
    ensures remainUTXOs == Remaining(existUTXOs, records)
  {
    remainUTXOs := [];
    for i := 0 to |existUTXOs|
      invariant remainUTXOs == Remaining(existUTXOs[..i], records)
    {
      var existUTXO := existUTXOs[i];
      var isSpent := UTXOIsSpent(existUTXO, records);
      assert existUTXOs[..i + 1][..i] == existUTXOs[..i];
      if !isSpent {
        remainUTXOs := remainUTXOs + [existUTXO];
      }
    }
    assert existUTXOs[..|existUTXOs|] == existUTXOs;
  }

  /** The inner loop of `GetUTXOsBySpendRecords`: the UTXOs that match `record`, and
      whether there is one. */
  method MatchingUTXOs(utxos: seq<UTXO>, record: SpendRecord) returns (matched: seq<UTXO>, isContainer: bool)
    ensures matched == Matching(utxos, record)
    ensures isContainer <==> Covered(utxos, record)
  {
    matched, isContainer := [], false;
    for i := 0 to |utxos|
      invariant isContainer <==> Covered(utxos[..i], record)
      invariant matched == Matching(utxos[..i], record)
    {
      assert utxos[..i + 1][..i] == utxos[..i];
      if Matches(utxos[i], record) {
        isContainer := true;
        matched := matched + [utxos[i]];
      }
    }
    assert utxos[..|utxos|] == utxos;
  }

  /** `IsSubUTXOs(utxos, records)`: true exactly when every record matches at least one
      UTXO (so always for no records). */
  method IsSubUTXOs(utxos: seq<UTXO>, records: seq<SpendRecord>) returns (isSub: bool)
    ensures isSub <==> AllCovered(utxos, records)
  {
    for j := 0 to |records|
      invariant AllCovered(utxos, records[..j])
    {
      var record := records[j];
      var isContainer := false;
      for i := 0 to |utxos|
        invariant isContainer <==> Covered(utxos[..i], record)
      {
        if Matches(utxos[i], record) {
          isContainer := true;
        }
      }
      assert utxos[..|utxos|] == utxos;
      if !isContainer {
        assert !Covered(utxos, records[j]);
        return false;
      }
    }
    assert records[..|records|] == records;
    return true;
  }

  /** What a Go call with results `(value, err)` returns, or the panic of calling
      `Get` on the nil bucket. */
  datatype Reply<T> = Returned(value: T, err: Option<string>) | NilBucketPanic

  /** The UTXO set. `Bucket` is the "utxoset" bucket of the store (None while it does not
      exist), mapping each address to its unspent outputs. Each operation is one store
      transaction: a failing update closure leaves the bucket as it was. */
  class UTXOSet {
    var Bucket: Option<map<string, seq<UTXO>>>

    /** `NewUTXOSet(db)`: a UTXO set over a store in the given state. */
    constructor (bucket: Option<map<string, seq<UTXO>>>)
      ensures Bucket == bucket
    {
      Bucket := bucket;
    }

    /** The UTXOs stored for `address`; none when the bucket or the entry is missing. */
    function Stored(address: string): seq<UTXO>
      reads this
    {
      if Bucket.Some? && address in Bucket.value then Bucket.value[address] else []
    }

    /** `QueryUTXOsByAddress(address)` as written: the test `bucket != nil` returns early
        exactly when the bucket exists, and otherwise `Get` is called on a nil bucket. */
    function QueryUTXOsByAddressAsWritten(address: string): (r: Reply<seq<UTXO>>)
      reads this
      ensures Bucket.Some? ==> r == Returned([], None)
      ensures Bucket.None? ==> r == NilBucketPanic
    {
      if Bucket.Some? then Returned([], None)
      else NilBucketPanic
    }

    /** `QueryUTXOsByAddress(address)` with the bucket test the right way round: the stored
        UTXOs of `address`, none if the bucket or the entry is missing. */
    function QueryUTXOsByAddress(address: string): (r: Reply<seq<UTXO>>)
      reads this
      ensures r.Returned? && r.err == None
      ensures Bucket.None? || address !in Bucket.value ==> r.value == []
      ensures Bucket.Some? && address in Bucket.value ==> r.value == Bucket.value[address]
    {
      if Bucket.None? then Returned([], None)
      else if address !in Bucket.value then Returned([], None)
      else Returned(Bucket.value[address], None)
    }

    /** `AddUTXOsWithAddress(address, utxos)`: creates the bucket if it is missing and
        appends `utxos` to what `address` has; no other entry changes. */
    method AddUTXOsWithAddress(address: string, utxos: seq<UTXO>) returns (ok: bool, err: Option<string>)
      modifies this
      ensures ok && err == None
      ensures Bucket.Some?
      ensures Bucket.value == (if old(Bucket).Some? then old(Bucket).value else map[])[address := old(Stored(address)) + utxos]
      ensures QueryUTXOsByAddress(address).value == old(QueryUTXOsByAddress(address).value) + utxos
      ensures forall a :: a != address ==> QueryUTXOsByAddress(a) == old(QueryUTXOsByAddress(a))
    {
      var bucket: map<string, seq<UTXO>>;
      if Bucket.None? {
        bucket := map[];
      } else {
        bucket := Bucket.value;
      }
      var existUTXOs: seq<UTXO> := [];
      if address in bucket {
        existUTXOs := bucket[address];
      }
      var sumUTXOs: seq<UTXO> := [];
      if |existUTXOs| > 0 {
        sumUTXOs := sumUTXOs + existUTXOs;
      }
      assert sumUTXOs == existUTXOs;
      sumUTXOs := sumUTXOs + utxos;
      Bucket := Some(bucket[address := sumUTXOs]);
      return true, None;
    }

    /** `DeleteUTXOsWithAddress(address, records)`: removes from `address`'s list every UTXO
        some record matches. A missing bucket changes nothing and reports success; a missing
        entry changes nothing and reports an error. When some record matches no UTXO the
        update closure fails, so nothing changes, but its error never reaches the outer
        `err`, and success is reported. */
    method DeleteUTXOsWithAddress(address: string, records: seq<SpendRecord>) returns (ok: bool, err: Option<string>)
      modifies this
      ensures old(Bucket).None? ==> Bucket == old(Bucket) && ok && err == None
      ensures old(Bucket).Some? && address !in old(Bucket).value ==>
        Bucket == old(Bucket) && !ok && err.Some?
      ensures old(Bucket).Some? && address in old(Bucket).value && !AllCovered(old(Bucket).value[address], records) ==>
        Bucket == old(Bucket) && ok && err == None
      ensures old(Bucket).Some? && address in old(Bucket).value && AllCovered(old(Bucket).value[address], records) ==>
        && Bucket == Some(old(Bucket).value[address := Remaining(old(Bucket).value[address], records)])
        && ok && err == None
    {
      if Bucket.None? {
        return true, None;
      }
      var bucket := Bucket.value;
      if address !in bucket {
        return false, Some("no UTXOs recorded for this address, nothing to delete");
      }
      var existUTXOs := bucket[address];
      var isSub := IsSubUTXOs(existUTXOs, records);
      if !isSub {
        return true, None;
      }
      var remainUTXOs := RemainingUTXOs(existUTXOs, records);
      Bucket := Some(bucket[address := remainUTXOs]);
      return true, None;
    }

    /** `DeleteUTXOsWithAddress(address, records)` with the closure's error reported: when
        some record matches no stored UTXO, nothing changes and the deletion fails. The other
        outcomes are those of the code as written. */
    method DeleteUTXOsWithAddressReportingShortfall(address: string, records: seq<SpendRecord>) returns (ok: bool, err: Option<string>)
      modifies this
      ensures old(Bucket).None? ==> Bucket == old(Bucket) && ok && err == None
      ensures old(Bucket).Some? && address !in old(Bucket).value ==>
        Bucket == old(Bucket) && !ok && err.Some?
      ensures old(Bucket).Some? && address in old(Bucket).value && !AllCovered(old(Bucket).value[address], records) ==>
        Bucket == old(Bucket) && !ok && err.Some?
      ensures old(Bucket).Some? && address in old(Bucket).value && AllCovered(old(Bucket).value[address], records) ==>
        && Bucket == Some(old(Bucket).value[address := Remaining(old(Bucket).value[address], records)])
        && ok && err == None
      ensures ok <==> err == None
    {
      if Bucket.None? {
        return true, None;
      }
      var bucket := Bucket.value;
      if address !in bucket {
        return false, Some("no UTXOs recorded for this address, nothing to delete");
      }
      var existUTXOs := bucket[address];
      var isSub := IsSubUTXOs(existUTXOs, records);
      if !isSub {
        return false, Some("insufficient balance");
      }
      var remainUTXOs := RemainingUTXOs(existUTXOs, records);
      Bucket := Some(bucket[address := remainUTXOs]);
      return true, None;
    }

    /** `GetUTXOsBySpendRecords(address, records)` as written: the test `bucket != nil`
        returns early exactly when the bucket exists, with nothing collected, and otherwise
        `Get` is called on a nil bucket. */
    function GetUTXOsBySpendRecordsAsWritten(address: string, records: seq<SpendRecord>): (r: Reply<seq<UTXO>>)
      reads this
      ensures Bucket.Some? ==> r == Returned([], None)
      ensures Bucket.None? ==> r == NilBucketPanic
    {
      if Bucket.Some? then Returned([], None)
      else NilBucketPanic
    }

    /** `GetUTXOsBySpendRecords(address, records)` with the bucket test the right way round:
        record by record, every stored UTXO of `address` that matches it. At the first record
        that matches none it stops with an error, returning what it has collected so far. */
    method GetUTXOsBySpendRecords(address: string, records: seq<SpendRecord>) returns (spentUTXOs: seq<UTXO>, err: Option<string>)
      ensures Bucket.None? || address !in Bucket.value ==> spentUTXOs == [] && err == None
      ensures Bucket.Some? && address in Bucket.value ==>
        var existUTXOs := Bucket.value[address];
        && (err == None <==> AllCovered(existUTXOs, records))
        && (err == None ==> spentUTXOs == Gathered(existUTXOs, records))
        && (err != None ==>
              exists k :: (0 <= k < |records|
                && !Covered(existUTXOs, records[k])
                && AllCovered(existUTXOs, records[..k])
                && spentUTXOs == Gathered(existUTXOs, records[..k])))
    {
      spentUTXOs, err := [], None;
      if Bucket.None? {
        return;
      }
      var bucket := Bucket.value;
      if address !in bucket {
        return;
      }
      var existUTXOs := bucket[address];
      for j := 0 to |records|
        invariant AllCovered(existUTXOs, records[..j])
        invariant spentUTXOs == Gathered(existUTXOs, records[..j])
      {
        var matched, isContainer := MatchingUTXOs(existUTXOs, records[j]);
        spentUTXOs := spentUTXOs + matched;
        if !isContainer {
          assert records[..j + 1][..j] == records[..j];
          err := Some("a spend record matches none of this address's UTXOs");
          return;
        }
        assert records[..j + 1][..j] == records[..j];
      }
      assert records[..|records|] == records;
    }
  }

  /** The inverted test hides every stored UTXO: where the bucket holds UTXOs for
      `address`, the query as written returns none, the corrected one returns them. */
  lemma QueryAsWrittenHidesStoredUTXOs(s: UTXOSet, address: string)
    requires s.Bucket.Some? && address in s.Bucket.value && s.Bucket.value[address] != []
    ensures s.QueryUTXOsByAddressAsWritten(address) == Returned([], None)
    ensures s.QueryUTXOsByAddress(address).value != []
  {
  }

  /** A spend of an output the address does not hold: as written, the deletion changes
      nothing yet reports success; with the error reported, it fails. */
  method ShortfallReportedAsSuccess() returns (ok: bool, err: Option<string>, okReporting: bool, kept: bool)
    ensures ok && err == None
    ensures !okReporting
    ensures kept
  {
    var held := NewUTXO(Zeros(32), 0, TxOutPut(0, []));
    var record := NewSpendRecord(Zeros(32), 1);
    assert !Covered([held], record) by {
      assert Zeros(32) == Zeros(32) && 0 != 1;
      assert !Matches(held, record);
    }
    assert !AllCovered([held], [record]) by {
      assert [record][0] == record;
    }
    var s := new UTXOSet(Some(map["addr" := [held]]));
    ok, err := s.DeleteUTXOsWithAddress("addr", [record]);
    kept := s.Bucket == Some(map["addr" := [held]]);
    var t := new UTXOSet(Some(map["addr" := [held]]));
    var errReporting;
    okReporting, errReporting := t.DeleteUTXOsWithAddressReportingShortfall("addr", [record]);
  }

  /** Where every record matches a stored UTXO, the lookup as written collects nothing,
      the corrected one at least one UTXO per record. */
  lemma {:induction false} GetAsWrittenHidesSpentUTXOs(s: UTXOSet, address: string, records: seq<SpendRecord>)
    requires s.Bucket.Some? && address in s.Bucket.value
    requires records != [] && AllCovered(s.Bucket.value[address], records)
    ensures s.GetUTXOsBySpendRecordsAsWritten(address, records) == Returned([], None)
    ensures |Gathered(s.Bucket.value[address], records)| >= |records|
  {
    GatheredCount(s.Bucket.value[address], records);
  }

  /** When every record is covered, each contributes at least one UTXO. */
  lemma {:induction false} GatheredCount(utxos: seq<UTXO>, records: seq<SpendRecord>)
    requires AllCovered(utxos, records)
    ensures |Gathered(utxos, records)| >= |records|
  {
    if records != [] {
      var front := records[..|records| - 1];
      assert AllCovered(utxos, front) by {
        forall j | 0 <= j < |front| ensures Covered(utxos, front[j]) {
          assert front[j] == records[j];
        }
      }
      GatheredCount(utxos, front);
      assert Covered(utxos, records[|records| - 1]);
    }
  }
}
