/** A block of the ledger (blockchain/block.js): the digest that binds its
    fields, the proof-of-work loop, and the re-check of its stored hash. */
module Blocks {
  import opened Strings
  import opened Hashing
  import opened Certificates

  /** The two primitives a block calls but does not implement: the SHA-256
      hex digest of Node's `crypto`, and `JSON.stringify` of a payload. Both
      are uninterpreted; lemmas that need them collision-free say so. */
  datatype Primitives = Primitives(sha256: string -> string, stringify: Payload -> string)

  /** `getBlockInfo()`: the six fields of a block, as a value. */
  datatype BlockInfo = BlockInfo(
    index: nat,
    timestamp: nat,
    data: Payload,
    previousHash: string,
    hash: string,
    nonce: nat)

  /** What is digested, in this order: index, previous hash, timestamp, the
      serialized payload, then the nonce. */
  function BlockParts(env: Primitives, index: nat, previousHash: string, timestamp: nat,
                      data: Payload, nonce: nat): seq<string>
  {
    [DecimalString(index), previousHash, DecimalString(timestamp), env.stringify(data), DecimalString(nonce)]
  }

  /** The parts joined in order are the string `calculateHash()` digests. */
  lemma BlockPartsJoin(env: Primitives, index: nat, previousHash: string, timestamp: nat,
                       data: Payload, nonce: nat)
    ensures Concat(BlockParts(env, index, previousHash, timestamp, data, nonce)) ==
            DecimalString(index) + previousHash + DecimalString(timestamp)
            + env.stringify(data) + DecimalString(nonce)
  {
    var a, b, c, d, e := DecimalString(index), previousHash, DecimalString(timestamp),
                         env.stringify(data), DecimalString(nonce);
    ConcatAppend([], a);
    assert [] + [a] == [a];
    ConcatAppend([a], b);
    assert [a] + [b] == [a, b];
    ConcatAppend([a, b], c);
    assert [a, b] + [c] == [a, b, c];
    ConcatAppend([a, b, c], d);
    assert [a, b, c] + [d] == [a, b, c, d];
    ConcatAppend([a, b, c, d], e);
    assert [a, b, c, d] + [e] == BlockParts(env, index, previousHash, timestamp, data, nonce);
    assert Concat([a]) == a;
    assert Concat([a, b, c, d, e]) == a + b + c + d + e;
  }

  /** The digest of a block with these fields: SHA-256 of index, previous
      hash, timestamp, serialized payload and nonce, joined in that order with
      no separator. */
  function BlockHash(env: Primitives, index: nat, previousHash: string, timestamp: nat,
                     data: Payload, nonce: nat): (h: string)
    ensures h == env.sha256(DecimalString(index) + previousHash + DecimalString(timestamp)
                            + env.stringify(data) + DecimalString(nonce))
  {
    BlockPartsJoin(env, index, previousHash, timestamp, data, nonce);
    env.sha256(Concat(BlockParts(env, index, previousHash, timestamp, data, nonce)))
  }

  /** A block's stored hash is the digest of its other fields. */
  predicate InfoValid(env: Primitives, b: BlockInfo)
  {
    b.hash == BlockHash(env, b.index, b.previousHash, b.timestamp, b.data, b.nonce)
  }

  /** `Array(difficulty + 1).join("0")`. */
  function Target(difficulty: nat): (t: string)
    ensures |t| == difficulty
    ensures forall i :: 0 <= i < difficulty ==> t[i] == '0'
  {
    seq(difficulty, _ => '0')
  }

  /** `s.substring(0, n)`: the whole string when it is shorter than `n`. */
  function Prefix(s: string, n: nat): string
  {
    if n <= |s| then s[..n] else s
  }

  /** The loop's exit test `hash.substring(0, difficulty) === target`. */
  predicate Meets(hash: string, difficulty: nat)
  {
    Prefix(hash, difficulty) == Target(difficulty)
  }

  /** The exit test holds exactly when the hash starts with `difficulty`
      zero characters (a hash shorter than that never passes). */
  lemma MeetsMeansLeadingZeros(hash: string, difficulty: nat)
    ensures Meets(hash, difficulty) <==>
            difficulty <= |hash| && forall i :: 0 <= i < difficulty ==> hash[i] == '0'
  {
  }

  /** Some nonce makes a block with these fields pass the exit test: the
      condition under which mining it terminates. */
  ghost predicate NonceExists(env: Primitives, index: nat, previousHash: string, timestamp: nat,
                              data: Payload, difficulty: nat)
  {
    exists n: nat :: Meets(BlockHash(env, index, previousHash, timestamp, data, n), difficulty)
  }

  /** `b` carries the nonce mining settles on: the least one whose hash
      passes the exit test. */
  predicate FirstNonce(env: Primitives, b: BlockInfo, difficulty: nat)
  {
    && Meets(b.hash, difficulty)
    && forall n :: 0 <= n < b.nonce ==>
         !Meets(BlockHash(env, b.index, b.previousHash, b.timestamp, b.data, n), difficulty)
  }

  /** Mining is deterministic: two consistent blocks with the same index,
      previous hash, timestamp and payload, both mined to the first passing
      nonce, are identical. */
  lemma FirstNonceUnique(env: Primitives, b: BlockInfo, c: BlockInfo, difficulty: nat)
    requires InfoValid(env, b) && FirstNonce(env, b, difficulty)
    requires InfoValid(env, c) && FirstNonce(env, c, difficulty)
    requires b.index == c.index && b.previousHash == c.previousHash
    requires b.timestamp == c.timestamp && b.data == c.data
    ensures b == c
  {
  }

  /** `t` is `b` with exactly one field changed in place. */
  predicate BlockFieldEdited(b: BlockInfo, t: BlockInfo)
  {
    t != b &&
    (t == b.(index := t.index) ||
     t == b.(previousHash := t.previousHash) ||
     t == b.(timestamp := t.timestamp) ||
     t == b.(data := t.data) ||
     t == b.(nonce := t.nonce) ||
     t == b.(hash := t.hash))
  }

  /** Tamper detection, assuming SHA-256 and the serialization are injective:
      editing any single field of a valid block without recomputing its hash
      makes it invalid. */
  lemma {:induction false} BlockTamperDetected(env: Primitives, b: BlockInfo, t: BlockInfo)
    requires Injective(env.sha256) && Injective(env.stringify)
    requires InfoValid(env, b) && BlockFieldEdited(b, t)
    ensures !InfoValid(env, t)
  {
    if InfoValid(env, t) && t.hash == b.hash {
      var p := BlockParts(env, b.index, b.previousHash, b.timestamp, b.data, b.nonce);
      var q := BlockParts(env, t.index, t.previousHash, t.timestamp, t.data, t.nonce);
      assert env.sha256(Concat(p)) == env.sha256(Concat(q));
      var k :=
        if t == b.(index := t.index) then 0
        else if t == b.(previousHash := t.previousHash) then 1
        else if t == b.(timestamp := t.timestamp) then 2
        else if t == b.(data := t.data) then 3
        else 4;
      ConcatCancel(p, q, k);
      if k == 0 {
        DecimalStringInjective(b.index, t.index);
      } else if k == 2 {
        DecimalStringInjective(b.timestamp, t.timestamp);
      } else if k == 4 {
        DecimalStringInjective(b.nonce, t.nonce);
      }
    }
  }

  /** A block object. Its fields are mutable, as in the source; mining
      changes `nonce` and `hash`. */
  class Block {
    var index: nat
    var timestamp: nat
    var data: Payload
    var previousHash: string
    var nonce: nat
    var hash: string

    /** `new Block(index, timestamp, data, previousHash)`: nonce 0 and the
        hash of these fields. */
    constructor (env: Primitives, index: nat, timestamp: nat, data: Payload, previousHash: string)
      ensures this.index == index && this.timestamp == timestamp
      ensures this.data == data && this.previousHash == previousHash
      ensures nonce == 0
      ensures hash == BlockHash(env, index, previousHash, timestamp, data, 0)
      ensures IsValid(env)
    {
      this.index := index;
      this.timestamp := timestamp;
      this.data := data;
      this.previousHash := previousHash;
      this.nonce := 0;
      new;
      this.hash := CalculateHash(env);
    }

    /** `calculateHash()`: the digest of the current fields, in the order
        index, previous hash, timestamp, serialized payload, nonce. */
    function CalculateHash(env: Primitives): (h: string)
      reads this
      ensures h == env.sha256(DecimalString(index) + previousHash + DecimalString(timestamp)
                              + env.stringify(data) + DecimalString(nonce))
    {
      HashWithNonce(env, nonce)
    }

    /** The digest the block would have with nonce `n`. */
    function HashWithNonce(env: Primitives, n: nat): string
      reads this`index, this`previousHash, this`timestamp, this`data
    {
      BlockHash(env, index, previousHash, timestamp, data, n)
    }

    /** `isValid()`. */
    predicate IsValid(env: Primitives)
      reads this
      ensures IsValid(env) <==> hash == CalculateHash(env)
    {
      InfoValid(env, GetBlockInfo())
    }

    /** `getBlockInfo()`: all six fields verbatim. */
    function GetBlockInfo(): (info: BlockInfo)
      reads this
      ensures info.index == index && info.timestamp == timestamp && info.data == data
      ensures info.previousHash == previousHash && info.hash == hash && info.nonce == nonce
    {
      BlockInfo(index, timestamp, data, previousHash, hash, nonce)
    }

    /** `mineBlock(difficulty)`: bump the nonce and rehash until the hash
        starts with `difficulty` zeros. Only `nonce` and `hash` change. The
        loop terminates because the current hash passes, or a later nonce
        `goal` does. */
    method MineBlock(env: Primitives, difficulty: nat, ghost goal: nat)
      requires Meets(hash, difficulty) || (nonce < goal && Meets(HashWithNonce(env, goal), difficulty))
      modifies this`nonce, this`hash
      ensures Meets(hash, difficulty)
      ensures old(nonce) <= nonce
      ensures Meets(old(hash), difficulty) ==> nonce == old(nonce) && hash == old(hash)
      ensures nonce == old(nonce) ==> hash == old(hash)
      ensures old(nonce) < nonce ==> hash == CalculateHash(env)
      ensures old(IsValid(env)) ==> IsValid(env)
      ensures forall n :: old(nonce) < n < nonce ==>
                !Meets(BlockHash(env, index, previousHash, timestamp, data, n), difficulty)
    {
      ghost var start, startHash := nonce, hash;
      ghost var i, p, t, d := index, previousHash, timestamp, data;
      ghost var bound: nat := if Meets(hash, difficulty) then nonce else goal;
      while !Meets(hash, difficulty)
        invariant start <= nonce <= bound
        invariant nonce == start ==> hash == startHash
        invariant start < nonce ==> hash == BlockHash(env, i, p, t, d, nonce)
        invariant bound == start ==> Meets(startHash, difficulty)
        invariant start < bound ==> Meets(BlockHash(env, i, p, t, d, bound), difficulty)
        invariant forall n :: start < n < nonce ==> !Meets(BlockHash(env, i, p, t, d, n), difficulty)
        decreases bound - nonce
      {
        nonce := nonce + 1;
        hash := CalculateHash(env);
      }
    }
  }
}
