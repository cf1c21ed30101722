/**
  The block of the central ledger: its hashed fields, its stored hash, and
  the hex-prefix test that proof-of-work and validation both use.
 */
module Blocks {

  /** The payload a block carries: any value that encodes as JSON. */
  datatype Json =
    | Null
    | Bool(b: bool)
    | Number(literal: string)
    | Text(s: string)
    | Array(items: seq<Json>)
    | Object(members: seq<(string, Json)>)

  /**
    The five fields that enter the digest, in the order of the dataclass.
    The stored `hash` is deliberately not one of them. `T` is the type of
    the clock reading, which the model never computes with.
   */
  datatype Preimage<T> = Preimage(index: int, timestamp: T, data: Json, previousHash: string, nonce: int)

  /**
    SHA-256 of the canonical (sorted-key, compact) JSON encoding of the
    preimage, as lower-case hex. The model treats it as an arbitrary total
    function: every property below holds whatever it computes.
   */
  type Hasher<!T> = Preimage<T> -> string

  /** A block as a value: the six fields a block holds, as the explorer lists them. */
  datatype BlockRecord<T> = BlockRecord(index: int, timestamp: T, data: Json, previousHash: string, nonce: int, hash: string)
  {
    /** The fields the digest is computed over. */
    function Hashed(): Preimage<T> {
      Preimage(index, timestamp, data, previousHash, nonce)
    }
  }

  /** The digest of a block does not depend on the hash it stores. */
  lemma DigestIgnoresStoredHash<T>(h: Hasher<T>, r: BlockRecord<T>, stored: string)
    ensures h(r.(hash := stored).Hashed()) == h(r.Hashed())
  {
  }

  /** `"0" * n`: the string of `n` zero characters, empty when `n <= 0`. */
  function Zeros(n: int): (z: string)
    ensures |z| == if n <= 0 then 0 else n
    ensures forall i :: 0 <= i < |z| ==> z[i] == '0'
    decreases n
  {
    if n <= 0 then "" else "0" + Zeros(n - 1)
  }

  /** `s.startswith(prefix)`. */
  predicate StartsWith(s: string, prefix: string) {
    |prefix| <= |s| && s[..|prefix|] == prefix
  }

  /**
    A digest starts with `Zeros(n)` exactly when it has at least `n`
    characters and the first `n` are all '0'; for `n <= 0` every digest
    qualifies.
   */
  lemma LeadingZeros(s: string, n: int)
    ensures StartsWith(s, Zeros(n)) <==> n <= |s| && forall i :: 0 <= i < n ==> s[i] == '0'
  {
  }

  /** A block whose nonce is advanced by mining and whose hash is set once it is sealed. */
  class Block<T> {
    var index: int
    var timestamp: T
    var data: Json
    var previousHash: string
    var nonce: int
    var hash: string

    constructor (index: int, timestamp: T, data: Json, previousHash: string, nonce: int, hash: string)
      ensures Record() == BlockRecord(index, timestamp, data, previousHash, nonce, hash)
    {
      this.index := index;
      this.timestamp := timestamp;
      this.data := data;
      this.previousHash := previousHash;
      this.nonce := nonce;
      this.hash := hash;
    }

    /** The hashed fields; reads everything but `hash`. */
    function Hashed(): Preimage<T>
      reads this`index, this`timestamp, this`data, this`previousHash, this`nonce
    {
      Preimage(index, timestamp, data, previousHash, nonce)
    }

    /**
      `compute_hash`: the digest of the five hashed fields. Its frame leaves
      out `hash`, so setting the hash never changes the digest.
     */
    function ComputeHash(h: Hasher<T>): (r: string)
      reads this`index, this`timestamp, this`data, this`previousHash, this`nonce
      ensures r == h(Hashed())
    {
      h(Hashed())
    }

    /** The block as a value (what `asdict` yields). */
    function Record(): (r: BlockRecord<T>)
      reads this
      ensures r.Hashed() == Hashed() && r.hash == hash
    {
      BlockRecord(index, timestamp, data, previousHash, nonce, hash)
    }
  }
}
