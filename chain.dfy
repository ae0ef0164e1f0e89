/** Package chain: blocks (chain/block.go) and the in-memory list of blocks
    (chain/blockchain.go). */
module Chain {
  import opened Bytes
  import opened Utils

  /** The block version. */
  const VERSION: int64 := 0x00

  const MIN_INT64: int := -0x8000_0000_0000_0000
  const MAX_INT64: int := 0x7fff_ffff_ffff_ffff

  /** A Go `int64` result of an addition that may overflow: wraps modulo 2^64 into the
      signed range. */
  function WrapInt64(x: int): (w: int64)
    ensures MIN_INT64 <= x <= MAX_INT64 ==> w == x
  {
    var u := (x + TWO_POW_63) % TWO_POW_64;
    if MIN_INT64 <= x <= MAX_INT64 then
      DivModUnique(x + TWO_POW_63, TWO_POW_64, 0, x + TWO_POW_63);
      u - TWO_POW_63
    else
      u - TWO_POW_63
  }

  /** Adding one after wrapping is wrapping after adding one. */
  lemma WrapInt64Succ(x: int)
    ensures WrapInt64(WrapInt64(x) + 1) == WrapInt64(x + 1)
  {
    var a := (x + TWO_POW_63) % TWO_POW_64;
    var q := (x + TWO_POW_63) / TWO_POW_64;
    assert x + 1 + TWO_POW_63 == q * TWO_POW_64 + (a + 1);
    if a + 1 < TWO_POW_64 {
      DivModUnique(x + 1 + TWO_POW_63, TWO_POW_64, q, a + 1);
      DivModUnique(a + 1, TWO_POW_64, 0, a + 1);
    } else {
      DivModUnique(x + 1 + TWO_POW_63, TWO_POW_64, q + 1, 0);
      DivModUnique(a + 1, TWO_POW_64, 1, 0);
    }
  }

  /** `Block`. `Version` is a Go `int`; the model gives it the width of `int64`, the type
      the header encoding writes it as. Nothing in the package ever sets `Haah` or `Nonce`,
      so they keep their zero values. */
  datatype Block = Block(
    Height: int64,
    Version: int64,
    PrevHash: Hash32,
    Haah: Hash32,
    TimeStamp: int64,
    Nonce: int64,
    Data: seq<byte>)

  /** `CreateGenesis(data)`, with the wall-clock seconds `now` as a parameter: height 0, an
      all-zero previous hash, and the zero hash and nonce. */
  function CreateGenesis(data: seq<byte>, now: int64): (genesis: Block)
    ensures genesis.Height == 0 && genesis.Version == VERSION
    ensures genesis.PrevHash == Zeros(32) && genesis.Haah == Zeros(32) && genesis.Nonce == 0
    ensures genesis.TimeStamp == now && genesis.Data == data
  {
    Block(Height := 0, Version := VERSION, PrevHash := Zeros(32), Haah := Zeros(32),
          TimeStamp := now, Nonce := 0, Data := data)
  }

  /** `NewBlock(height, prev, data)`, with the time as a parameter: the block after one of
      height `height` whose hash is `prev`. Its height is `height + 1` in `int64`, which
      wraps to the most negative value after the largest one. */
  function NewBlock(height: int64, prev: Hash32, data: seq<byte>, now: int64): (block: Block)
    ensures height < MAX_INT64 ==> block.Height == height + 1
    ensures height == MAX_INT64 ==> block.Height == MIN_INT64
    ensures block.Version == VERSION && block.PrevHash == prev
    ensures block.Haah == Zeros(32) && block.Nonce == 0
    ensures block.TimeStamp == now && block.Data == data
  {
    DivModUnique(MAX_INT64 + 1 + TWO_POW_63, TWO_POW_64, 1, 0);
    Block(Height := WrapInt64(height + 1), Version := VERSION, PrevHash := prev,
          Haah := Zeros(32), TimeStamp := now, Nonce := 0, Data := data)
  }

  /** The shape every chain built by this package has: block `i` has height `i` (in
      `int64`), each block names the hash of the one before it, the genesis block names the
      all-zero hash, and no block has been given a hash or a nonce. */
  ghost predicate Linked(blocks: seq<Block>)
  {
    && (forall i :: 0 <= i < |blocks| ==> blocks[i].Height == WrapInt64(i))
    && (forall i :: 0 < i < |blocks| ==> blocks[i].PrevHash == blocks[i - 1].Haah)
    && (|blocks| > 0 ==> blocks[0].PrevHash == Zeros(32))
    && (forall i :: 0 <= i < |blocks| ==> blocks[i].Haah == Zeros(32) && blocks[i].Nonce == 0)
  }

  /** The blocks after `CreateNewBlock(data)`: a new block on top of the last one. */
  function Extend(blocks: seq<Block>, data: seq<byte>, now: int64): (longer: seq<Block>)
    requires |blocks| > 0
    ensures |longer| == |blocks| + 1 && longer[..|blocks|] == blocks
  {
    var lastBlock := blocks[|blocks| - 1];
    blocks + [NewBlock(lastBlock.Height, lastBlock.Haah, data, now)]
  }

  /** A new block keeps a chain linked. */
  lemma ExtendKeepsLinked(blocks: seq<Block>, data: seq<byte>, now: int64)
    requires |blocks| > 0 && Linked(blocks)
    ensures Linked(Extend(blocks, data, now))
  {
    var n := |blocks|;
    WrapInt64Succ(n - 1);
    assert Extend(blocks, data, now)[n].Height == WrapInt64(n);
  }

  /** Since no block's hash is ever set, every block of a linked chain names the all-zero
      hash as its predecessor. */
  lemma LinkedPrevHashesZero(blocks: seq<Block>)
    requires Linked(blocks)
    ensures forall i :: 0 <= i < |blocks| ==> blocks[i].PrevHash == Zeros(32)
  {
    forall i | 0 < i < |blocks|
      ensures blocks[i].PrevHash == Zeros(32)
    {
      assert blocks[i - 1].Haah == Zeros(32);
    }
  }

  /** `BlockChain`: the blocks, oldest first. */
  class BlockChain {
    var Blocks: seq<Block>

    /** `CreateChainWithGensis(data)`, with the time as a parameter: a chain holding only
        its genesis block. */
    constructor CreateChainWithGensis(data: seq<byte>, now: int64)
      ensures Blocks == [CreateGenesis(data, now)]
      ensures Linked(Blocks)
    {
      var gensis := CreateGenesis(data, now);
      var blocks: seq<Block> := [];
      blocks := blocks + [gensis];
      Blocks := blocks;
    }

    /** `CreateNewBlock(data)`, with the time as a parameter: appends a block on top of the
        last one. Go panics on a chain with no blocks. */
    method CreateNewBlock(data: seq<byte>, now: int64)
      requires |Blocks| > 0
      modifies this
      ensures Blocks == Extend(old(Blocks), data, now)
      ensures old(Linked(Blocks)) ==> Linked(Blocks)
    {
      var blocks := Blocks;
      var lastBlock := blocks[|blocks| - 1];
      var newBlock := NewBlock(lastBlock.Height, lastBlock.Haah, data, now);
      if Linked(Blocks) {
        ExtendKeepsLinked(Blocks, data, now);
      }
      Blocks := Blocks + [newBlock];
    }
  }
}
