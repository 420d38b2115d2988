/** The ledger (blockchain/blockchain.js): an array of blocks that starts with
    a genesis block and grows only through `addCertificate`, with linear-scan
    queries over it and a chain-wide validity check. */
module Ledger {
  import opened Wrappers
  import opened Strings
  import opened Hashing
  import opened Certificates
  import opened Blocks

  const GenesisMessage := "EduChain Genesis Block - Certificate Verification System"
  const InvalidCertificateError := "Invalid certificate data"
  const NotFoundMessage := "Certificate not found in blockchain"
  const AuthenticMessage := "Certificate is authentic and verified"
  const TamperedMessage := "Certificate data has been tampered with"

  /** The filter of a scan. Every scan visits blocks 1, 2, ... in order and
      keeps those whose payload is tagged as a certificate and passes it. */
  datatype Query =
    | AnyCertificate
    | WithId(id: string)
    | StudentLike(name: string)
    | InstitutionLike(name: string)

  predicate Selects(q: Query, d: Payload)
  {
    d.CertificateData? &&
    match q
    case AnyCertificate => true
    case WithId(id) => d.certificateId == id
    case StudentLike(name) => Contains(ToLowerCase(d.studentName), ToLowerCase(name))
    case InstitutionLike(name) => Contains(ToLowerCase(d.institutionName), ToLowerCase(name))
  }

  /** The indices among 1 .. n-1 that a scan keeps, in chain order. */
  function SelectedBelow(infos: seq<BlockInfo>, q: Query, n: nat): seq<nat>
    requires n <= |infos|
    decreases n
  {
    if n <= 1 then []
    else SelectedBelow(infos, q, n - 1) + (if Selects(q, infos[n - 1].data) then [n - 1] else [])
  }

  /** The indices a scan of the whole chain keeps. */
  function Selected(infos: seq<BlockInfo>, q: Query): seq<nat>
  {
    SelectedBelow(infos, q, |infos|)
  }

  ghost predicate StrictlyIncreasing(s: seq<nat>)
  {
    forall i, j :: 0 <= i < j < |s| ==> s[i] < s[j]
  }

  /** A scan keeps exactly the certificate blocks at index 1 or more that
      pass its filter (the genesis block is never looked at), oldest first. */
  lemma {:induction false} SelectedBelowSpec(infos: seq<BlockInfo>, q: Query, n: nat)
    requires n <= |infos|
    ensures forall k :: k in SelectedBelow(infos, q, n) <==> 1 <= k < n && Selects(q, infos[k].data)
    ensures StrictlyIncreasing(SelectedBelow(infos, q, n))
    decreases n
  {
    if n > 1 {
      SelectedBelowSpec(infos, q, n - 1);
      var prev := SelectedBelow(infos, q, n - 1);
      if Selects(q, infos[n - 1].data) {
        var s := prev + [n - 1];
        forall i, j | 0 <= i < j < |s|
          ensures s[i] < s[j]
        {
          assert s[i] == prev[i] && prev[i] in prev;
          if j < |prev| {
            assert s[j] == prev[j];
          }
        }
      }
    }
  }

  /** Scanning further only adds indices at the end. */
  lemma {:induction false} SelectedBelowPrefix(infos: seq<BlockInfo>, q: Query, n: nat, m: nat)
    requires n <= m <= |infos|
    ensures SelectedBelow(infos, q, n) <= SelectedBelow(infos, q, m)
    decreases m
  {
    if n < m {
      SelectedBelowPrefix(infos, q, n, m - 1);
    }
  }

  /** Blocks appended later do not change what a scan keeps below them. */
  lemma {:induction false} SelectedBelowExtend(infos: seq<BlockInfo>, b: BlockInfo, q: Query, n: nat)
    requires n <= |infos|
    ensures SelectedBelow(infos + [b], q, n) == SelectedBelow(infos, q, n)
    decreases n
  {
    if n > 1 {
      SelectedBelowExtend(infos, b, q, n - 1);
      assert (infos + [b])[n - 1] == infos[n - 1];
    }
  }

  /** Appending a block to a non-empty chain extends every scan by that
      block's index, when it passes the filter, and by nothing else. */
  lemma SelectedAppend(infos: seq<BlockInfo>, b: BlockInfo, q: Query)
    requires |infos| >= 1
    ensures Selected(infos + [b], q) == Selected(infos, q) + (if Selects(q, b.data) then [|infos|] else [])
  {
    SelectedBelowExtend(infos, b, q, |infos|);
  }

  /** An empty search term matches every certificate: `includes('')` is
      always true. */
  lemma {:induction false} EmptySearchListsAll(infos: seq<BlockInfo>, n: nat)
    requires n <= |infos|
    ensures SelectedBelow(infos, StudentLike(""), n) == SelectedBelow(infos, AnyCertificate, n)
    ensures SelectedBelow(infos, InstitutionLike(""), n) == SelectedBelow(infos, AnyCertificate, n)
    decreases n
  {
    if n > 1 {
      EmptySearchListsAll(infos, n - 1);
      var d := infos[n - 1].data;
      if d.CertificateData? {
        assert ToLowerCase("") == "";
        ContainsEmpty(ToLowerCase(d.studentName));
        ContainsEmpty(ToLowerCase(d.institutionName));
      }
    }
  }

  /** The index `getCertificateById` reports: the first certificate block
      (index 1 or more) with this exact id, or none. */
  function FindById(infos: seq<BlockInfo>, id: string): (r: Option<nat>)
    ensures r.Some? ==>
      && 1 <= r.value < |infos|
      && Selects(WithId(id), infos[r.value].data)
      && forall j :: 1 <= j < r.value ==> !Selects(WithId(id), infos[j].data)
    ensures r.None? ==> forall j :: 1 <= j < |infos| ==> !Selects(WithId(id), infos[j].data)
  {
    var s := Selected(infos, WithId(id));
    SelectedBelowSpec(infos, WithId(id), |infos|);
    if s == [] then None
    else
      assert s[0] in s;
      assert forall j :: 1 <= j < s[0] ==> j !in s;
      Some(s[0])
  }

  /** Ids need not be unique: after an append the earliest block with an id
      still wins, and a new id is found at the new block. */
  lemma FindByIdAppend(infos: seq<BlockInfo>, b: BlockInfo, id: string)
    requires |infos| >= 1
    ensures FindById(infos + [b], id) ==
      if FindById(infos, id).Some? then FindById(infos, id)
      else if Selects(WithId(id), b.data) then Some(|infos|)
      else None
  {
    SelectedAppend(infos, b, WithId(id));
  }

  /** One entry of a query result: the certificate `fromData` rebuilt from
      the block, the block's info and its index. */
  datatype Match = Match(certificate: CertificateRecord, block: BlockInfo, blockIndex: nat)

  /** `found` has one entry per index of `idx`, in the same order. */
  ghost predicate ReportsMatches(found: seq<Match>, infos: seq<BlockInfo>, idx: seq<nat>)
  {
    |found| == |idx| &&
    forall k :: 0 <= k < |found| ==>
      && idx[k] < |infos|
      && found[k].blockIndex == idx[k]
      && found[k].block == infos[idx[k]]
      && RebuiltFrom(found[k].certificate, infos[idx[k]].data)
  }

  /** `isChainValid()`: every block after the genesis block has a consistent
      hash and points at the hash of the block before it. */
  predicate ChainValid(env: Primitives, infos: seq<BlockInfo>)
  {
    forall i :: 1 <= i < |infos| ==>
      InfoValid(env, infos[i]) && infos[i].previousHash == infos[i - 1].hash
  }

  /** A chain stays valid under an append exactly when the new block is
      consistent and linked to the last one. */
  lemma ChainValidAppend(env: Primitives, infos: seq<BlockInfo>, b: BlockInfo)
    requires |infos| >= 1
    ensures ChainValid(env, infos + [b]) <==>
      ChainValid(env, infos) && InfoValid(env, b) && b.previousHash == infos[|infos| - 1].hash
  {
    var s := infos + [b];
    assert forall i :: 0 <= i < |infos| ==> s[i] == infos[i];
    assert s[|infos|] == b;
    if ChainValid(env, infos) && InfoValid(env, b) && b.previousHash == infos[|infos| - 1].hash {
      forall i | 1 <= i < |s|
        ensures InfoValid(env, s[i]) && s[i].previousHash == s[i - 1].hash
      {
        if i == |infos| {
          assert s[i - 1] == infos[|infos| - 1];
        }
      }
    }
  }

  /** Tampering with any single field of a block after the genesis block, in
      place, is caught by the chain check (digests assumed injective). */
  lemma TamperedBlockBreaksChain(env: Primitives, infos: seq<BlockInfo>, i: nat, t: BlockInfo)
    requires Injective(env.sha256) && Injective(env.stringify)
    requires ChainValid(env, infos) && 1 <= i < |infos| && BlockFieldEdited(infos[i], t)
    ensures !ChainValid(env, infos[i := t])
  {
    BlockTamperDetected(env, infos[i], t);
    assert infos[i := t][i] == t;
  }

  /** The genesis block is never checked: anything in it may change as long
      as its hash does. */
  lemma GenesisNotChecked(env: Primitives, infos: seq<BlockInfo>, g: BlockInfo)
    requires ChainValid(env, infos) && |infos| >= 1 && g.hash == infos[0].hash
    ensures ChainValid(env, infos[0 := g])
  {
  }

  /** Distinct institution names over the certificate blocks. */
  function InstitutionNames(infos: seq<BlockInfo>): set<string>
  {
    set i | 1 <= i < |infos| && infos[i].data.CertificateData? :: infos[i].data.institutionName
  }

  /** The distinct institution names of a list of matches. */
  function InstitutionsOf(found: seq<Match>): set<string>
  {
    if found == [] then {}
    else InstitutionsOf(found[..|found| - 1]) + {found[|found| - 1].certificate.institutionName}
  }

  lemma {:induction false} InstitutionsOfMembers(found: seq<Match>)
    ensures forall name :: name in InstitutionsOf(found) <==>
      exists k :: 0 <= k < |found| && found[k].certificate.institutionName == name
    decreases |found|
  {
    if found != [] {
      var init := found[..|found| - 1];
      InstitutionsOfMembers(init);
      assert forall k :: 0 <= k < |init| ==> init[k] == found[k];
    }
  }

  /** The institutions named by the entries of a full listing are those of
      the chain's certificate blocks. */
  lemma MatchedInstitutions(found: seq<Match>, infos: seq<BlockInfo>)
    requires ReportsMatches(found, infos, Selected(infos, AnyCertificate))
    ensures InstitutionsOf(found) == InstitutionNames(infos)
  {
    var idx := Selected(infos, AnyCertificate);
    SelectedBelowSpec(infos, AnyCertificate, |infos|);
    InstitutionsOfMembers(found);
    forall name | name in InstitutionNames(infos)
      ensures name in InstitutionsOf(found)
    {
      var i :| 1 <= i < |infos| && infos[i].data.CertificateData? && infos[i].data.institutionName == name;
      assert i in idx;
      var k :| 0 <= k < |idx| && idx[k] == i;
      assert found[k].certificate.institutionName == name;
    }
    forall name | name in InstitutionsOf(found)
      ensures name in InstitutionNames(infos)
    {
      var k :| 0 <= k < |found| && found[k].certificate.institutionName == name;
      assert idx[k] in idx;
    }
  }

  /** `getBlockchainStats()`. */
  datatype Stats = Stats(
    totalBlocks: nat,
    totalCertificates: nat,
    totalInstitutions: nat,
    difficulty: nat,
    isValid: bool,
    latestBlockHash: string)

  /** `verifyCertificate(id)`. */
  datatype Verification = Verification(
    isValid: bool,
    message: string,
    certificate: Option<FormattedCertificate>,
    blockInfo: Option<BlockInfo>)

  /** End to end: once a valid certificate with an id new to the ledger is
      appended, looking that id up finds the new block, and whatever
      `fromData` rebuilds from it is valid. */
  lemma IssuedCertificateVerifies(sha256: string -> string, infos: seq<BlockInfo>, b: BlockInfo,
                                  id: string, r: CertificateRecord)
    requires |infos| >= 1 && id != ""
    requires FindById(infos, id).None?
    requires b.data.CertificateData? && b.data.certificateId == id
    requires RecordIsValid(sha256, StoredRecord(b.data))
    requires RebuiltFrom(r, b.data)
    ensures FindById(infos + [b], id) == Some(|infos|)
    ensures RecordIsValid(sha256, r)
  {
  }

  /** The info of each block of `blocks`, in order. */
  function InfoOf(blocks: seq<Block>): (infos: seq<BlockInfo>)
    reads blocks
    ensures |infos| == |blocks|
    ensures forall i :: 0 <= i < |blocks| ==> infos[i] == blocks[i].GetBlockInfo()
  {
    if blocks == [] then []
    else InfoOf(blocks[..|blocks| - 1]) + [blocks[|blocks| - 1].GetBlockInfo()]
  }

  class Blockchain {
    var chain: seq<Block>
    const difficulty: nat
    const env: Primitives

    /** The chain is never empty: it starts with the genesis block and only
        grows. */
    ghost predicate Valid()
      reads this
    {
      |chain| >= 1
    }

    /** `new Blockchain()`: a chain holding only the genesis block, and
        difficulty 2. The two `Date.now()` readings are parameters. */
    constructor (env: Primitives, genesisDataTime: nat, genesisBlockTime: nat)
      ensures this.env == env && difficulty == 2
      ensures Valid()
      ensures GetFullChain() ==
        [BlockInfo(0, genesisBlockTime, GenesisData(GenesisMessage, genesisDataTime), "0",
                   BlockHash(env, 0, "0", genesisBlockTime, GenesisData(GenesisMessage, genesisDataTime), 0),
                   0)]
      ensures ChainValid(env, GetFullChain())
    {
      var genesis := CreateGenesisBlock(env, genesisDataTime, genesisBlockTime);
      chain := [genesis];
      difficulty := 2;
      this.env := env;
    }

    /** `createGenesisBlock()`: index 0, previous hash "0", a payload tagged
        'genesis'; never mined. */
    static method CreateGenesisBlock(env: Primitives, dataTime: nat, blockTime: nat) returns (genesis: Block)
      ensures fresh(genesis)
      ensures genesis.GetBlockInfo() ==
        BlockInfo(0, blockTime, GenesisData(GenesisMessage, dataTime), "0",
                  BlockHash(env, 0, "0", blockTime, GenesisData(GenesisMessage, dataTime), 0), 0)
    {
      genesis := new Block(env, 0, blockTime, GenesisData(GenesisMessage, dataTime), "0");
    }

    /** `getLatestBlock()`. */
    function GetLatestBlock(): (b: Block)
      reads this
      requires Valid()
      ensures b == chain[|chain| - 1]
    {
      chain[|chain| - 1]
    }

    /** `getFullChain()`: the info of every block, in chain order. */
    function GetFullChain(): (infos: seq<BlockInfo>)
      reads this, chain
      ensures infos == InfoOf(chain)
      ensures |infos| == |chain|
      ensures forall i :: 0 <= i < |chain| ==> infos[i] == chain[i].GetBlockInfo()
    {
      InfoOf(chain)
    }

    /** `addCertificate(certificate)`: reject an invalid certificate and
        leave the chain alone; otherwise build a block at the next index,
        linked to the latest hash, mine it and push it. `now` is the block's
        `Date.now()`; mining is assumed to terminate for a valid one. */
    method AddCertificate(certificate: Certificate, now: nat) returns (result: Result<Block>)
      requires Valid()
      requires certificate.IsValid(env.sha256) ==>
        NonceExists(env, |chain|, GetLatestBlock().hash, now, certificate.GetCertificateData(), difficulty)
      modifies this
      ensures Valid()
      ensures !certificate.IsValid(env.sha256) ==>
        result == Failure(InvalidCertificateError) && chain == old(chain)
      ensures certificate.IsValid(env.sha256) ==>
        result.Success? && fresh(result.value) && chain == old(chain) + [result.value]
      ensures result.Success? ==>
        var b := result.value.GetBlockInfo();
        && GetFullChain() == old(GetFullChain()) + [b]
        && b.index == old(|chain|)
        && b.timestamp == now
        && b.data == certificate.GetCertificateData()
        && b.previousHash == old(GetLatestBlock().hash)
        && InfoValid(env, b)
        && FirstNonce(env, b, difficulty)
      ensures old(ChainValid(env, GetFullChain())) ==> ChainValid(env, GetFullChain())
    {
      if !certificate.IsValid(env.sha256) {
        return Failure(InvalidCertificateError);
      }
      var block := NewMinedBlock(env, |chain|, now, certificate.GetCertificateData(),
                                 GetLatestBlock().hash, difficulty);
      Push(block);
      return Success(block);
    }

    /** `new Block(...)` followed by `mineBlock(difficulty)`: a fresh block
        with these fields, a consistent hash and the first nonce that passes. */
    static method NewMinedBlock(env: Primitives, index: nat, timestamp: nat, data: Payload,
                                previousHash: string, difficulty: nat) returns (block: Block)
      requires NonceExists(env, index, previousHash, timestamp, data, difficulty)
      ensures fresh(block)
      ensures var b := block.GetBlockInfo();
        && b.index == index && b.timestamp == timestamp && b.data == data
        && b.previousHash == previousHash
        && InfoValid(env, b)
        && FirstNonce(env, b, difficulty)
    {
      block := new Block(env, index, timestamp, data, previousHash);
      ghost var n: nat :| Meets(BlockHash(env, index, previousHash, timestamp, data, n), difficulty);
      block.MineBlock(env, difficulty, n);
    }

    /** `this.chain.push(block)`. Pushing a consistent block that points at
        the latest hash keeps a valid chain valid. */
    method Push(block: Block)
      requires Valid()
      modifies this
      ensures Valid()
      ensures chain == old(chain) + [block]
      ensures GetFullChain() == old(GetFullChain()) + [block.GetBlockInfo()]
      ensures old(ChainValid(env, GetFullChain())) && block.IsValid(env) &&
              block.previousHash == old(GetLatestBlock().hash) ==>
              ChainValid(env, GetFullChain())
    {
      ghost var before := GetFullChain();
      chain := chain + [block];
      assert chain[..|chain| - 1] == old(chain);
      ChainValidAppend(env, before, block.GetBlockInfo());
    }

    /** `getCertificateById(id)`: the first certificate block from index 1
        on whose id is exactly `id`, or none. */
    method GetCertificateById(certificateId: string) returns (found: Option<Match>)
      requires Valid()
      ensures FindById(GetFullChain(), certificateId).None? ==> found.None?
      ensures FindById(GetFullChain(), certificateId).Some? ==>
        var i := FindById(GetFullChain(), certificateId).value;
        && found.Some?
        && found.value.blockIndex == i
        && found.value.block == GetFullChain()[i]
        && RebuiltFrom(found.value.certificate, GetFullChain()[i].data)
    {
      ghost var infos := GetFullChain();
      ghost var q := WithId(certificateId);
      var i := 1;
      while i < |chain|
        invariant 1 <= i <= |chain|
        invariant SelectedBelow(infos, q, i) == []
      {
        var block := chain[i];
        if block.data.CertificateData? && block.data.certificateId == certificateId {
          var entropy := RandomBytes();
          assert SelectedBelow(infos, q, i + 1) == [i];
          SelectedBelowPrefix(infos, q, i + 1, |infos|);
          assert FindById(infos, certificateId) == Some(i);
          return Some(Match(Rebuild(block.data, entropy), block.GetBlockInfo(), i));
        }
        i := i + 1;
      }
      assert FindById(infos, certificateId) == None;
      return None;
    }

    /** The loop shared by the three list queries: keep, in chain order, the
        certificate blocks from index 1 on that pass the filter. */
    method CollectMatches(q: Query) returns (found: seq<Match>)
      requires Valid()
      ensures ReportsMatches(found, GetFullChain(), Selected(GetFullChain(), q))
    {
      ghost var infos := GetFullChain();
      found := [];
      var i := 1;
      while i < |chain|
        invariant 1 <= i <= |chain|
        invariant ReportsMatches(found, infos, SelectedBelow(infos, q, i))
      {
        var block := chain[i];
        if Selects(q, block.data) {
          var entropy := RandomBytes();
          found := found + [Match(Rebuild(block.data, entropy), block.GetBlockInfo(), i)];
        }
        i := i + 1;
      }
    }

    /** `getCertificatesByStudent(name)`: case-insensitive substring search. */
    method GetCertificatesByStudent(studentName: string) returns (found: seq<Match>)
      requires Valid()
      ensures ReportsMatches(found, GetFullChain(), Selected(GetFullChain(), StudentLike(studentName)))
    {
      found := CollectMatches(StudentLike(studentName));
    }

    /** `getCertificatesByInstitution(name)`: case-insensitive substring search. */
    method GetCertificatesByInstitution(institutionName: string) returns (found: seq<Match>)
      requires Valid()
      ensures ReportsMatches(found, GetFullChain(), Selected(GetFullChain(), InstitutionLike(institutionName)))
    {
      found := CollectMatches(InstitutionLike(institutionName));
    }

    /** `getAllCertificates()`. */
    method GetAllCertificates() returns (found: seq<Match>)
      requires Valid()
      ensures ReportsMatches(found, GetFullChain(), Selected(GetFullChain(), AnyCertificate))
    {
      found := CollectMatches(AnyCertificate);
    }

    /** `isChainValid()`: stops at the first block that fails either check. */
    method IsChainValid() returns (valid: bool)
      requires Valid()
      ensures valid == ChainValid(env, GetFullChain())
    {
      ghost var infos := GetFullChain();
      var i := 1;
      while i < |chain|
        invariant 1 <= i <= |chain|
        invariant forall j :: 1 <= j < i ==>
          InfoValid(env, infos[j]) && infos[j].previousHash == infos[j - 1].hash
      {
        var currentBlock := chain[i];
        var previousBlock := chain[i - 1];
        if !currentBlock.IsValid(env) {
          return false;
        }
        if currentBlock.previousHash != previousBlock.hash {
          return false;
        }
        i := i + 1;
      }
      return true;
    }

    /** `getBlockchainStats()`: it changes nothing, and every figure is a
        function of the chain, so two calls with no append between agree. */
    method GetBlockchainStats() returns (stats: Stats)
      requires Valid()
      ensures stats.totalBlocks == |chain|
      ensures stats.totalCertificates == |Selected(GetFullChain(), AnyCertificate)|
      ensures stats.totalInstitutions == |InstitutionNames(GetFullChain())|
      ensures stats.difficulty == difficulty
      ensures stats.isValid == ChainValid(env, GetFullChain())
      ensures stats.latestBlockHash == GetFullChain()[|chain| - 1].hash
    {
      ghost var infos := GetFullChain();
      var totalBlocks := |chain|;
      var all := GetAllCertificates();
      assert GetFullChain() == infos;
      var totalCertificates := |all|;
      var listed := GetAllCertificates();
      assert GetFullChain() == infos;
      var institutions := DistinctInstitutions(listed);
      MatchedInstitutions(listed, infos);
      var valid := IsChainValid();
      assert GetFullChain() == infos;
      stats := Stats(totalBlocks, totalCertificates, |institutions|, difficulty, valid, GetLatestBlock().hash);
    }

    /** The set the statistics build to count institutions: one name per
        entry, duplicates collapsing. */
    static method DistinctInstitutions(listed: seq<Match>) returns (institutions: set<string>)
      ensures institutions == InstitutionsOf(listed)
    {
      institutions := {};
      for k := 0 to |listed|
        invariant institutions == InstitutionsOf(listed[..k])
      {
        assert listed[..k + 1][..k] == listed[..k];
        institutions := institutions + {listed[k].certificate.institutionName};
      }
      assert listed[..|listed|] == listed;
    }

    /** `verifyCertificate(id)`: "not found" on a miss; otherwise the rebuilt
        certificate's own `isValid()` decides, not the chain check. */
    method VerifyCertificate(certificateId: string) returns (v: Verification)
      requires Valid()
      ensures FindById(GetFullChain(), certificateId).None? ==>
        v == Verification(false, NotFoundMessage, None, None)
      ensures FindById(GetFullChain(), certificateId).Some? ==>
        var i := FindById(GetFullChain(), certificateId).value;
        var d := GetFullChain()[i].data;
        && v.certificate.Some?
        && RebuiltFrom(v.certificate.value.record, d)
        && v.isValid == RecordIsValid(env.sha256, v.certificate.value.record)
        && v.certificate.value.isValid == v.isValid
        && v.message == (if v.isValid then AuthenticMessage else TamperedMessage)
        && v.blockInfo == Some(GetFullChain()[i])
        && (certificateId != "" ==> v.isValid == RecordIsValid(env.sha256, StoredRecord(d)))
    {
      var result := GetCertificateById(certificateId);
      if result.None? {
        return Verification(false, NotFoundMessage, None, None);
      }
      var found := result.value;
      var isValid := RecordIsValid(env.sha256, found.certificate);
      v := Verification(isValid, if isValid then AuthenticMessage else TamperedMessage,
                        Some(Format(env.sha256, found.certificate)), Some(found.block));
      if certificateId != "" {
        RebuiltFromStoredId(found.certificate, found.block.data);
      }
    }
  }
}
