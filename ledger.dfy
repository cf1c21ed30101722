/**
  The central ledger: a single authority that owns the chain, appends mined
  blocks to it, hands out blocks by position and audits the whole chain.
 */
module Ledger {
  import opened Blocks
  import opened ProofOfWork

  datatype Option<T> = None | Some(value: T)

  /** The payload of the genesis block. */
  const GenesisData: Json := Text("Genesis Block")

  /** `"0" * 64`: the previous hash recorded in the genesis block. */
  const GenesisPreviousHash: string := Zeros(64)

  /** The genesis block as `_create_genesis_block` seals it: hashed directly, never mined. */
  function GenesisRecord<T>(h: Hasher<T>, now: T): BlockRecord<T> {
    var fields := Preimage(0, now, GenesisData, GenesisPreviousHash, 0);
    BlockRecord(0, now, GenesisData, GenesisPreviousHash, 0, h(fields))
  }

  /**
    What `is_valid` demands of a block after the first: it links to the hash
    of its predecessor, its stored hash is its digest, and that hash starts
    with the ledger's current prefix.
   */
  predicate Linked<T>(h: Hasher<T>, prefix: string, prev: BlockRecord<T>, curr: BlockRecord<T>) {
    && curr.previousHash == prev.hash
    && h(curr.Hashed()) == curr.hash
    && StartsWith(curr.hash, prefix)
  }

  /**
    `is_valid`: the chain is not empty, the first block's stored hash is its
    digest (no prefix test), and every later block is linked to the one
    before it.
   */
  predicate ValidChain<T>(h: Hasher<T>, prefix: string, c: seq<BlockRecord<T>>) {
    && |c| > 0
    && c[0].hash == h(c[0].Hashed())
    && forall i :: 0 < i < |c| ==> Linked(h, prefix, c[i - 1], c[i])
  }

  /** Every block's index is one more than its predecessor's. */
  predicate IndexSuccession<T>(c: seq<BlockRecord<T>>) {
    forall i :: 0 < i < |c| ==> c[i].index == c[i - 1].index + 1
  }

  /**
    A freshly created genesis chain is valid under any prefix, and starts
    the index sequence at 0 with a previous hash of 64 zeros.
   */
  lemma GenesisChainValid<T>(h: Hasher<T>, prefix: string, now: T)
    ensures ValidChain(h, prefix, [GenesisRecord(h, now)])
    ensures IndexSuccession([GenesisRecord(h, now)])
    ensures GenesisRecord(h, now).index == 0
    ensures |GenesisRecord(h, now).previousHash| == 64
    ensures forall i :: 0 <= i < 64 ==> GenesisRecord(h, now).previousHash[i] == '0'
  {
  }

  /**
    Validity of a chain extended by one block is exactly validity of the
    chain plus the link from its tip to the new block. In particular, an
    append that links and seals the new block under the prefix preserves
    validity, and dropping the last block of a valid chain of two or more
    blocks leaves it valid.
   */
  lemma ValidExtension<T>(h: Hasher<T>, prefix: string, c: seq<BlockRecord<T>>, r: BlockRecord<T>)
    requires |c| > 0
    ensures ValidChain(h, prefix, c + [r]) <==> ValidChain(h, prefix, c) && Linked(h, prefix, c[|c| - 1], r)
  {
    var d := c + [r];
    assert d[..|c|] == c;
    if ValidChain(h, prefix, c) && Linked(h, prefix, c[|c| - 1], r) {
      forall i | 0 < i < |d|
        ensures Linked(h, prefix, d[i - 1], d[i])
      {
        if i < |c| {
          assert d[i - 1] == c[i - 1] && d[i] == c[i];
        }
      }
    }
    if ValidChain(h, prefix, d) {
      assert Linked(h, prefix, d[|c| - 1], d[|c|]);
      forall i | 0 < i < |c|
        ensures Linked(h, prefix, c[i - 1], c[i])
      {
        assert d[i - 1] == c[i - 1] && d[i] == c[i];
      }
    }
  }

  /** Index succession, like validity, extends exactly by one more successor. */
  lemma IndexSuccessionExtension<T>(c: seq<BlockRecord<T>>, r: BlockRecord<T>)
    requires |c| > 0
    ensures IndexSuccession(c + [r]) <==> IndexSuccession(c) && r.index == c[|c| - 1].index + 1
  {
    var d := c + [r];
    if IndexSuccession(d) {
      assert d[|c|].index == d[|c| - 1].index + 1;
      forall i | 0 < i < |c|
        ensures c[i].index == c[i - 1].index + 1
      {
        assert d[i - 1] == c[i - 1] && d[i] == c[i];
      }
    }
  }

  /** In a chain that starts at index 0 and succeeds by one, a block's index is its position. */
  lemma {:induction false} IndexIsPosition<T>(c: seq<BlockRecord<T>>, i: int)
    requires IndexSuccession(c) && |c| > 0 && c[0].index == 0
    requires 0 <= i < |c|
    ensures c[i].index == i
  {
    if i > 0 {
      IndexIsPosition(c, i - 1);
    }
  }

  /**
    Replacing any block by one that keeps its stored hash but differs in a
    hashed field (index, timestamp, payload, previous hash or nonce) so that
    its digest changes makes a valid chain invalid: `is_valid` detects the
    tampering, whether at the genesis block or after it.
   */
  lemma TamperingDetected<T>(h: Hasher<T>, prefix: string, c: seq<BlockRecord<T>>, i: int, forged: BlockRecord<T>)
    requires ValidChain(h, prefix, c)
    requires 0 <= i < |c|
    requires forged.hash == c[i].hash && h(forged.Hashed()) != h(c[i].Hashed())
    ensures !ValidChain(h, prefix, c[i := forged])
  {
    var d := c[i := forged];
    if i > 0 {
      assert !Linked(h, prefix, d[i - 1], d[i]);
    }
  }

  /**
    Overwriting the stored hash of any block with a different string makes a
    valid chain invalid, whatever the digest computes.
   */
  lemma StoredHashForgeryDetected<T>(h: Hasher<T>, prefix: string, c: seq<BlockRecord<T>>, i: int, s: string)
    requires ValidChain(h, prefix, c)
    requires 0 <= i < |c|
    requires s != c[i].hash
    ensures !ValidChain(h, prefix, c[i := c[i].(hash := s)])
  {
    var d := c[i := c[i].(hash := s)];
    if i > 0 {
      assert !Linked(h, prefix, d[i - 1], d[i]);
    }
  }

  /** Every non-empty prefix of a valid chain is valid. */
  lemma ValidPrefix<T>(h: Hasher<T>, prefix: string, c: seq<BlockRecord<T>>, k: int)
    requires ValidChain(h, prefix, c)
    requires 0 < k <= |c|
    ensures ValidChain(h, prefix, c[..k])
  {
  }

  /** The element-wise value view of a sequence of blocks. */
  function Snapshot<T>(blocks: seq<Block<T>>): (r: seq<BlockRecord<T>>)
    reads set b | b in blocks
    ensures |r| == |blocks|
    ensures forall i :: 0 <= i < |blocks| ==> r[i] == blocks[i].Record()
  {
    if blocks == [] then [] else Snapshot(blocks[..|blocks| - 1]) + [blocks[|blocks| - 1].Record()]
  }

  /**
    The single authority. `digest` stands for SHA-256 of the canonical JSON
    encoding; `prefix` is computed once from `difficulty`.
   */
  class CentralBlockchain<T> {
    const difficulty: int
    const prefix: string := Zeros(difficulty)
    const digest: Hasher<T>
    var chain: seq<Block<T>>

    /**
      `stored` is the chain `_load` read back from the persistence file, or
      empty when the file is absent, unreadable or empty; in that last case
      the ledger starts from a fresh genesis block stamped `now`.
     */
    constructor (difficulty: int, digest: Hasher<T>, now: T, stored: seq<BlockRecord<T>>)
      ensures this.difficulty == difficulty && this.digest == digest
      ensures forall i :: 0 <= i < |chain| ==> fresh(chain[i])
      ensures stored != [] ==> BlocksExplorer() == stored
      ensures stored == [] ==> BlocksExplorer() == [GenesisRecord(digest, now)]
    {
      this.difficulty := difficulty;
      this.digest := digest;
      new;
      var loaded: seq<Block<T>> := [];
      for k := 0 to |stored|
        invariant |loaded| == k
        invariant forall i :: 0 <= i < k ==> fresh(loaded[i]) && loaded[i].Record() == stored[i]
      {
        var r := stored[k];
        var b := new Block(r.index, r.timestamp, r.data, r.previousHash, r.nonce, r.hash);
        loaded := loaded + [b];
      }
      chain := loaded;
      if chain == [] {
        var genesis := CreateGenesisBlock(now);
        chain := [genesis];
      }
      assert |BlocksExplorer()| == |chain|;
    }

    /** `_create_genesis_block`: a new block at index 0, sealed by direct hashing. */
    method CreateGenesisBlock(now: T) returns (genesis: Block<T>)
      ensures fresh(genesis)
      ensures genesis.Record() == GenesisRecord(digest, now)
    {
      genesis := new Block(0, now, GenesisData, GenesisPreviousHash, 0, "");
      genesis.hash := genesis.ComputeHash(digest);
    }

    /** `blocksExplorer`: the whole chain, in order, as values. */
    function BlocksExplorer(): (r: seq<BlockRecord<T>>)
      reads this, set b | b in chain
      ensures |r| == |chain|
      ensures forall i :: 0 <= i < |chain| ==> r[i] == chain[i].Record()
    {
      Snapshot(chain)
    }

    /** `getBlock`: the block at `index` when `0 <= index < len(chain)`, otherwise nothing. */
    function GetBlock(index: int): (r: Option<Block<T>>)
      reads this, set b | b in chain
      ensures r.Some? <==> 0 <= index < |chain|
      ensures r.Some? ==> r.value == chain[index] && r.value.Record() == BlocksExplorer()[index]
    {
      if 0 <= index < |chain| then Some(chain[index]) else None
    }

    /**
      `mineBlock`: advance the nonce one by one from its current value until
      the digest starts with `prefix`, then store that digest as the hash.
      The search is unbounded, so the caller must know a fitting nonce
      exists at or after the start.
     */
    method MineBlock(block: Block<T>) returns (mined: Block<T>)
      requires exists n :: block.nonce <= n && Fits(digest, block.Hashed(), prefix, n)
      modifies block
      ensures mined == block
      ensures FirstFit(digest, old(block.Hashed()), prefix, block.nonce)
      ensures block.Hashed() == old(block.Hashed()).(nonce := block.nonce)
      ensures block.hash == block.ComputeHash(digest)
      ensures StartsWith(block.hash, prefix)
      ensures difficulty <= 0 ==> block.nonce == old(block.nonce)
    {
      ghost var start := block.Hashed();
      ghost var target :| block.nonce <= target && Fits(digest, start, prefix, target);
      var h := block.ComputeHash(digest);
      while !StartsWith(h, prefix)
        invariant start.nonce <= block.nonce <= target
        invariant block.Hashed() == start.(nonce := block.nonce)
        invariant h == block.ComputeHash(digest)
        invariant forall k :: start.nonce <= k < block.nonce ==> !Fits(digest, start, prefix, k)
        decreases target - block.nonce
      {
        block.nonce := block.nonce + 1;
        h := block.ComputeHash(digest);
      }
      block.hash := h;
      mined := block;
      if difficulty <= 0 {
        ZeroDifficultyFirstFit(digest, start, difficulty, block.nonce);
      }
    }

    /**
      The candidate `setBlock` mines: on top of the tip, stamped `now`,
      nonce 0 (its hash is still empty).
     */
    function NextCandidate(data: Json, now: T): (p: Preimage<T>)
      requires chain != []
      reads this, chain[|chain| - 1]
      ensures p.index == chain[|chain| - 1].index + 1
      ensures p.previousHash == chain[|chain| - 1].hash
      ensures p.timestamp == now && p.data == data && p.nonce == 0
    {
      var tip := chain[|chain| - 1];
      Preimage(tip.index + 1, now, data, tip.hash, 0)
    }

    /**
      `setBlock`: build a candidate on top of the tip with nonce 0, mine it,
      and append it. Earlier blocks are untouched; validity and index
      succession carry over to the longer chain.
     */
    method SetBlock(data: Json, now: T) returns (mined: Block<T>)
      requires chain != []
      requires exists n :: 0 <= n && Fits(digest, NextCandidate(data, now), prefix, n)
      modifies this
      ensures fresh(mined) && chain == old(chain) + [mined]
      ensures BlocksExplorer() == old(BlocksExplorer()) + [mined.Record()]
      ensures mined.index == old(chain[|chain| - 1].index) + 1
      ensures mined.previousHash == old(chain[|chain| - 1].hash)
      ensures mined.timestamp == now && mined.data == data
      ensures mined.Hashed() == old(NextCandidate(data, now)).(nonce := mined.nonce)
      ensures FirstFit(digest, old(NextCandidate(data, now)), prefix, mined.nonce)
      ensures mined.hash == mined.ComputeHash(digest) && StartsWith(mined.hash, prefix)
      ensures old(ValidChain(digest, prefix, BlocksExplorer())) ==> ValidChain(digest, prefix, BlocksExplorer())
      ensures old(IndexSuccession(BlocksExplorer())) ==> IndexSuccession(BlocksExplorer())
    {
      ghost var before := BlocksExplorer();
      var prev := chain[|chain| - 1];
      var candidate := new Block(prev.index + 1, now, data, prev.hash, 0, "");
      mined := MineBlock(candidate);
      assert BlocksExplorer() == before;
      chain := chain + [mined];
      assert BlocksExplorer() == before + [mined.Record()];
      ValidExtension(digest, prefix, before, mined.Record());
      IndexSuccessionExtension(before, mined.Record());
    }

    /**
      `is_valid`: walk the chain from the second block on and stop at the
      first broken link, mismatched digest or missing prefix.
     */
    method IsValid() returns (ok: bool)
      ensures ok == ValidChain(digest, prefix, BlocksExplorer())
    {
      if chain == [] {
        return false;
      }
      if chain[0].hash != chain[0].ComputeHash(digest) {
        return false;
      }
      ghost var c := BlocksExplorer();
      for i := 1 to |chain|
        invariant forall j :: 0 < j < i ==> Linked(digest, prefix, c[j - 1], c[j])
      {
        var prev := chain[i - 1];
        var curr := chain[i];
        if curr.previousHash != prev.hash {
          return false;
        }
        if curr.ComputeHash(digest) != curr.hash {
          return false;
        }
        if !StartsWith(curr.hash, prefix) {
          return false;
        }
      }
      return true;
    }
  }
}
