/** The block header sent to the chips and the one rebuilt to validate their results. */
module BlockHeaders {
  import opened Basics
  import opened Bytes
  import opened HexText
  import opened Powers
  import opened Difficulty
  import opened ShareValidity

  type Digest = b: seq<byte> | |b| == 32 witness seq(32, _ => 0)

  /** SHA-256, left uninterpreted. */
  type Sha256 = seq<byte> -> Digest

  datatype BlockHeader = BlockHeader(version: uint32, prevHash: Digest, merkleRoot: Digest,
                                     time: uint32, nbits: uint32, nonce: uint32)

  function BlockHeader2Byte(h: BlockHeader): (b: seq<byte>)
    ensures |b| == 80
  {
    PutUint32(h.version) + h.prevHash + h.merkleRoot + PutUint32(h.time) + PutUint32(h.nbits) + PutUint32(h.nonce)
  }

  function Byte2BlockHeader(b: seq<byte>): Option<BlockHeader> {
    if |b| != 80 then None
    else Some(BlockHeader(Uint32(b[..4]), b[4..36], b[36..68], Uint32(b[68..72]), Uint32(b[72..76]), Uint32(b[76..80])))
  }

  lemma HeaderParts(h: BlockHeader)
    ensures var b := BlockHeader2Byte(h);
            && b[..4] == PutUint32(h.version) && b[4..36] == h.prevHash && b[36..68] == h.merkleRoot
            && b[68..72] == PutUint32(h.time) && b[72..76] == PutUint32(h.nbits) && b[76..80] == PutUint32(h.nonce)
  {
    hide PutUint32;
    FieldsApart(PutUint32(h.version), h.prevHash, h.merkleRoot, PutUint32(h.time), PutUint32(h.nbits),
                PutUint32(h.nonce));
  }

  lemma FieldsApart(a: seq<byte>, b: seq<byte>, c: seq<byte>, d: seq<byte>, e: seq<byte>, f: seq<byte>)
    requires |a| == 4 && |b| == 32 && |c| == 32 && |d| == |e| == |f| == 4
    ensures var all := a + b + c + d + e + f;
            && |all| == 80 && all[..4] == a && all[4..36] == b && all[36..68] == c
            && all[68..72] == d && all[72..76] == e && all[76..80] == f
  {
  }

  lemma HeaderInverse(h: BlockHeader, b: seq<byte>)
    requires |b| == 80
    ensures Byte2BlockHeader(BlockHeader2Byte(h)) == Some(h)
    ensures BlockHeader2Byte(Byte2BlockHeader(b).value) == b
  {
    HeaderParts(h);
    Uint32Inverse(h.version, b[..4]);
    Uint32Inverse(h.time, b[68..72]);
    Uint32Inverse(h.nbits, b[72..76]);
    Uint32Inverse(h.nonce, b[76..80]);
    hide BlockHeader2Byte;
    if |b| == 80 {
      HeaderParts(Byte2BlockHeader(b).value);
      SameEighty(BlockHeader2Byte(Byte2BlockHeader(b).value), b);
    }
  }

  lemma SameEighty(a: seq<byte>, b: seq<byte>)
    requires |a| == |b| == 80 && a[..4] == b[..4] && a[4..36] == b[4..36] && a[36..68] == b[36..68]
    requires a[68..72] == b[68..72] && a[72..76] == b[72..76] && a[76..80] == b[76..80]
    ensures a == b
  {
  }

  /** Go's copy into a zeroed array of 32 bytes. */
  function CopyTo32(b: seq<byte>): (d: Digest)
    ensures forall i :: 0 <= i < 32 ==> d[i] == if i < |b| then b[i] else 0
  {
    if |b| >= 32 then b[..32] else b + seq(32 - |b|, _ => 0)
  }

  function GetBlockHeader(version: uint32, prevHash: string, merkleRoot: string,
                          time: uint32, nbits: uint32, nonce: uint32): BlockHeader {
    BlockHeader(version, CopyTo32(DecodeHex(prevHash)), CopyTo32(DecodeHex(merkleRoot)), time, nbits, nonce)
  }

  method SwapByteInSHA256(sha: Digest) returns (out: Digest)
    ensures out == Reverse(sha)
  {
    var buf := seq(32, _ => 0);
    for i := 0 to 32
      invariant |buf| == 32 && forall k :: 0 <= k < i ==> buf[k] == sha[31 - k]
    {
      buf := buf[i := sha[32 - i - 1]];
    }
    assert buf == Reverse(sha);
    out := buf;
  }

  function DoubleSha(sha: Sha256, b: seq<byte>): Digest {
    sha(sha(b))
  }

  function MerkleRoot(sha: Sha256, hash: Digest, branch: seq<string>): Digest
    decreases |branch|
  {
    if branch == [] then hash else MerkleRoot(sha, DoubleSha(sha, hash + DecodeHex(branch[0])), branch[1..])
  }

  method CalcMerkleRootHash(sha: Sha256, coinBaseHash: Digest, branch: seq<string>) returns (root: Digest)
    ensures root == MerkleRoot(sha, coinBaseHash, branch)
  {
    root := coinBaseHash;
    for i := 0 to |branch|
      invariant MerkleRoot(sha, root, branch[i..]) == MerkleRoot(sha, coinBaseHash, branch)
    {
      assert branch[i..][1..] == branch[i + 1..];
      root := DoubleSha(sha, root + DecodeHex(branch[i]));
    }
    assert branch[|branch|..] == [];
  }

  /** The fields of a job that reach a block header. */
  datatype Job = Job(version: string, prevHashLE: string, coinB1: string, coinB2: string, extraNonce1: string,
                     extraNonce2Size: nat, branch: seq<string>, ntime: string, nbits: string,
                     versionRolling: bool, newVersion: uint32, extraNonce2: string)

  datatype JobResult = JobResult(nonce2: string, nonce: string, ntime: string)

  /** The pool sends words of 8 hex digits and a hash of 64. */
  predicate WellFormed(j: Job) {
    && |j.version| == 8 && IsHex(j.version) && |j.ntime| == 8 && IsHex(j.ntime)
    && |j.nbits| == 8 && IsHex(j.nbits) && |j.prevHashLE| == 64 && IsHex(j.prevHashLE)
  }

  function CoinBaseHash(sha: Sha256, j: Job, nonce2: string): Digest {
    DoubleSha(sha, DecodeHex(j.coinB1) + DecodeHex(j.extraNonce1) + DecodeHex(nonce2) + DecodeHex(j.coinB2))
  }

  function JobRoot(sha: Sha256, j: Job, nonce2: string): Digest {
    MerkleRoot(sha, CoinBaseHash(sha, j, nonce2), j.branch)
  }

  /** What preparing a job leaves in it for device `id`. */
  function PreScanned(j: Job, id: nat): Job
    requires WellFormed(j)
  {
    j.(newVersion := BEHexToUint32(j.version), extraNonce2 := HexStringFromNumber(j.extraNonce2Size, id))
  }

  /** The header text sent to the chips: every field in the order and byte order of the wire. */
  function BlockHeaderStr(sha: Sha256, j: Job): string {
    SwapText(j.version) + j.prevHashLE + EncodeHex(JobRoot(sha, j, j.extraNonce2))
      + SwapText(j.ntime) + SwapText(j.nbits) + "00000000"
  }

  /** The header rebuilt from a result. */
  function RebuiltHeader(sha: Sha256, j: Job, r: JobResult): BlockHeader
    requires WellFormed(j) && |r.ntime| == 8 && |r.nonce| == 8
  {
    GetBlockHeader(j.newVersion, j.prevHashLE, EncodeHex(JobRoot(sha, j, r.nonce2)),
                   BEHexToUint32(r.ntime), BEHexToUint32(j.nbits), BEHexToUint32(r.nonce))
  }

  lemma RebuiltParts(sha: Sha256, j: Job, r: JobResult)
    requires WellFormed(j) && |r.ntime| == 8 && |r.nonce| == 8
    ensures RebuiltHeader(sha, j, r) ==
            BlockHeader(j.newVersion, DecodeHex(j.prevHashLE), JobRoot(sha, j, r.nonce2),
                        BEHexToUint32(r.ntime), BEHexToUint32(j.nbits), BEHexToUint32(r.nonce))
  {
    var p, m := DecodeHex(j.prevHashLE), JobRoot(sha, j, r.nonce2);
    assert p[..32] == p && m[..32] == m;
    HexInverse(m);
  }

  lemma SixParts(a: string, b: string, c: string, d: string, e: string, f: string)
    requires IsHex(a) && IsHex(b) && IsHex(c) && IsHex(d) && IsHex(e) && IsHex(f)
    ensures DecodeHex(a + b + c + d + e + f) ==
            DecodeHex(a) + DecodeHex(b) + DecodeHex(c) + DecodeHex(d) + DecodeHex(e) + DecodeHex(f)
  {
    hide DecodeHex, IsHex;
    HexConcat(a, b);
    HexConcat(a + b, c);
    HexConcat(a + b + c, d);
    HexConcat(a + b + c + d, e);
    DecodeConcat(a, b);
    DecodeConcat(a + b, c);
    DecodeConcat(a + b + c, d);
    DecodeConcat(a + b + c + d, e);
    DecodeConcat(a + b + c + d + e, f);
  }

  lemma ZeroNonce()
    ensures IsHex("00000000") && DecodeHex("00000000") == PutUint32(0) && BEHexToUint32("00000000") == 0
  {
    DecodeWord("00000000");
    hide DecodeHex, Nibble;
    var z: seq<byte> := [0, 0, 0, 0];
    assert DecodeHex("00000000") == z by { ZeroNibble(); }
    assert z[..4] == z && Reverse(z) == z;
    FourZeros();
    Uint32Inverse(0, z);
  }

  lemma ZeroNibble()
    ensures Nibble('0') == 0
  {
  }

  lemma FourZeros()
    ensures PutUint32(0) == [0, 0, 0, 0]
  {
  }

  /** The bytes the chips receive are the header rebuilt for the time they were sent and nonce 0. */
  lemma SentIsRebuilt(sha: Sha256, j: Job, id: nat)
    requires WellFormed(j)
    ensures var p := PreScanned(j, id);
            DecodeHex(BlockHeaderStr(sha, p)) ==
            BlockHeader2Byte(RebuiltHeader(sha, p, JobResult(p.extraNonce2, "00000000", j.ntime)))
  {
    hide DecodeHex, SwapText, JobRoot, EncodeHex, IsHex, BEHexToUint32, HexStringFromNumber, GetBlockHeader;
    var p := PreScanned(j, id);
    var m := JobRoot(sha, p, p.extraNonce2);
    SwapIsLittleEndian(j.version);
    SwapIsLittleEndian(j.ntime);
    SwapIsLittleEndian(j.nbits);
    HexInverse(m);
    ZeroNonce();
    SixParts(SwapText(j.version), j.prevHashLE, EncodeHex(m), SwapText(j.ntime), SwapText(j.nbits), "00000000");
    RebuiltParts(sha, p, JobResult(p.extraNonce2, "00000000", j.ntime));
  }

  lemma WordValue(s: string)
    requires |s| == 8 && IsHex(s)
    ensures BEHexToUint32(s) == BigEndian(DecodeHex(s))
  {
    DecodeWord(s);
    hide Nibble, BigEndian;
    assert DecodeHex(s)[..4] == DecodeHex(s);
  }

  /** The header the chips receive, field by field: version, time and target bits of the job, the hash
      of the previous block as the pool sent it, the root over this device's coinbase, and nonce 0. */
  lemma SentFields(sha: Sha256, j: Job, id: nat)
    requires WellFormed(j)
    ensures var p := PreScanned(j, id);
            var sent := Byte2BlockHeader(DecodeHex(BlockHeaderStr(sha, p)));
            && sent.Some? && sent.value.nonce == 0
            && sent.value.version == BigEndian(DecodeHex(j.version)) && sent.value.prevHash == DecodeHex(j.prevHashLE)
            && sent.value.merkleRoot == JobRoot(sha, p, HexStringFromNumber(j.extraNonce2Size, id))
            && sent.value.time == BigEndian(DecodeHex(j.ntime)) && sent.value.nbits == BigEndian(DecodeHex(j.nbits))
  {
    hide DecodeHex, JobRoot, RebuiltHeader, BlockHeader2Byte, Byte2BlockHeader, BlockHeaderStr, IsHex, BigEndian;
    hide BEHexToUint32, HexStringFromNumber;
    var p := PreScanned(j, id);
    var r := JobResult(p.extraNonce2, "00000000", j.ntime);
    SentIsRebuilt(sha, j, id);
    RebuiltParts(sha, p, r);
    ZeroNonce();
    WordValue(j.version);
    WordValue(j.ntime);
    WordValue(j.nbits);
    HeaderInverse(RebuiltHeader(sha, p, r), BlockHeader2Byte(RebuiltHeader(sha, p, r)));
  }

  // The coinbase and the tree above it

  /** A tree of transaction hashes. */
  datatype Tree = Leaf(hash: Digest) | Node(left: Tree, right: Tree)

  /** The hash of a node is that of its children's hashes, the left one first. */
  function RootOf(sha: Sha256, t: Tree): Digest {
    match t
    case Leaf(h) => h
    case Node(l, r) => sha(sha(RootOf(sha, l) + RootOf(sha, r)))
  }

  /** The first transaction of a block, and the hashes beside the way from it to the root. */
  function FirstLeaf(t: Tree): Digest {
    match t case Leaf(h) => h case Node(l, _) => FirstLeaf(l)
  }

  function BranchOf(sha: Sha256, t: Tree): seq<string> {
    match t case Leaf(_) => [] case Node(l, r) => BranchOf(sha, l) + [EncodeHex(RootOf(sha, r))]
  }

  lemma {:induction false} MerkleAppend(sha: Sha256, hash: Digest, branch: seq<string>, last: string)
    ensures MerkleRoot(sha, hash, branch + [last])
            == sha(sha(MerkleRoot(sha, hash, branch) + DecodeHex(last)))
    decreases |branch|
  {
    hide DecodeHex;
    if branch == [] {
      assert [] + [last] == [last] && [last][1..] == [];
    } else {
      assert (branch + [last])[0] == branch[0] && (branch + [last])[1..] == branch[1..] + [last];
      MerkleAppend(sha, DoubleSha(sha, hash + DecodeHex(branch[0])), branch[1..], last);
    }
  }

  /** The root computed from a coinbase hash and its branch is the root of the tree, whatever the tree. */
  lemma {:induction false} MerkleRootIsRoot(sha: Sha256, t: Tree)
    ensures MerkleRoot(sha, FirstLeaf(t), BranchOf(sha, t)) == RootOf(sha, t)
  {
    if t.Node? {
      MerkleRootIsRoot(sha, t.left);
      MerkleAppend(sha, FirstLeaf(t.left), BranchOf(sha, t.left), EncodeHex(RootOf(sha, t.right)));
      HexInverse(RootOf(sha, t.right));
    }
  }

  /** If the four parts of a job are the bytes of a transaction cut at the extra nonces, the coinbase
      hash is the hash of that transaction. */
  lemma CoinBaseIsHashed(sha: Sha256, j: Job, nonce2: string, before: seq<byte>, extra1: seq<byte>, extra2: seq<byte>,
                         after: seq<byte>)
    requires j.coinB1 == EncodeHex(before) && j.extraNonce1 == EncodeHex(extra1)
    requires nonce2 == EncodeHex(extra2) && j.coinB2 == EncodeHex(after)
    ensures CoinBaseHash(sha, j, nonce2) == sha(sha(before + extra1 + extra2 + after))
  {
    HexInverse(before);
    HexInverse(extra1);
    HexInverse(extra2);
    HexInverse(after);
  }

  /** The root in the header of a job is that of the block whose first transaction is the coinbase with
      this device's extra nonce. */
  lemma JobRootIsRoot(sha: Sha256, j: Job, nonce2: string, t: Tree)
    requires FirstLeaf(t) == CoinBaseHash(sha, j, nonce2) && j.branch == BranchOf(sha, t)
    ensures JobRoot(sha, j, nonce2) == RootOf(sha, t)
  {
    hide MerkleRoot, CoinBaseHash, RootOf, BranchOf;
    MerkleRootIsRoot(sha, t);
  }

  /** Results as they are gathered from a body the chips return. */
  function Gathered(j: Job, bh: BlockHeader): (g: (Job, JobResult))
    ensures |g.1.nonce| == 8 && |g.1.ntime| == 8
  {
    (if j.versionRolling then j.(newVersion := bh.version) else j,
     JobResult(j.extraNonce2, Format08x(bh.nonce), Format08x(bh.time)))
  }

  /** Whether the chips left the fields alone that they may not change. */
  predicate OnlyRolled(j: Job, sent: BlockHeader, back: BlockHeader) {
    && back.prevHash == sent.prevHash && back.merkleRoot == sent.merkleRoot && back.nbits == sent.nbits
    && (j.versionRolling || back.version == sent.version)
  }

  /** The header rebuilt from a returned body is that body, byte for byte, exactly when it differs
      from the header sent in nonce and time alone, and in the version when that is rolled. */
  lemma ReturnedIsRebuilt(sha: Sha256, j: Job, id: nat, body: seq<byte>)
    requires WellFormed(j) && |body| == 80
    ensures var p, bh := PreScanned(j, id), Byte2BlockHeader(body).value;
            var (q, r) := Gathered(p, bh);
            var sent := RebuiltHeader(sha, p, JobResult(p.extraNonce2, "00000000", j.ntime));
            BlockHeader2Byte(RebuiltHeader(sha, q, r)) == body <==> OnlyRolled(p, sent, bh)
  {
    hide DecodeHex, JobRoot, EncodeHex, IsHex, BEHexToUint32, HexStringFromNumber, Format08x, BlockHeader2Byte,
         RebuiltHeader;
    var p, bh := PreScanned(j, id), Byte2BlockHeader(body).value;
    var (q, r) := Gathered(p, bh);
    SameRoot(sha, p, q, p.extraNonce2);
    RebuiltParts(sha, q, r);
    RebuiltParts(sha, p, JobResult(p.extraNonce2, "00000000", j.ntime));
    FormatReads(bh.nonce);
    FormatReads(bh.time);
    HeaderInverse(RebuiltHeader(sha, q, r), body);
  }

  lemma SameRoot(sha: Sha256, p: Job, q: Job, nonce2: string)
    requires q == p.(newVersion := q.newVersion)
    ensures JobRoot(sha, p, nonce2) == JobRoot(sha, q, nonce2)
  {
  }

  // Validation

  /** The double hash of the rebuilt header. */
  function HeaderHash(sha: Sha256, j: Job, r: JobResult): Digest
    requires WellFormed(j) && |r.ntime| == 8 && |r.nonce| == 8
  {
    DoubleSha(sha, BlockHeader2Byte(RebuiltHeader(sha, j, r)))
  }

  /** The value compared with the pool target is the hash swapped and read big-endian; the
      difficulty is computed on the hash as it is. Both speak of the same number. */
  method CalcResultDifficulty(sha: Sha256, j: Job, r: JobResult) returns (hashVal: nat, diff: nat)
    requires WellFormed(j) && |r.ntime| == 8 && |r.nonce| == 8
    requires LittleEndian(HeaderHash(sha, j, r)) > 0
    ensures hashVal == LittleEndian(HeaderHash(sha, j, r)) && diff == DifficultyOf(hashVal)
  {
    var coinBase := CoinBaseHash(sha, j, r.nonce2);
    var root := CalcMerkleRootHash(sha, coinBase, j.branch);
    var bh := GetBlockHeader(j.newVersion, j.prevHashLE, EncodeHex(root),
                             BEHexToUint32(r.ntime), BEHexToUint32(j.nbits), BEHexToUint32(r.nonce));
    assert bh == RebuiltHeader(sha, j, r);
    hide RebuiltHeader, GetBlockHeader, BlockHeader2Byte, LittleEndian, DifficultyOf;
    var sum2 := DoubleSha(sha, BlockHeader2Byte(bh));
    var swapped := SwapByteInSHA256(sum2);
    hashVal := BigEndian(swapped);
    ReverseTwice(sum2);
    diff := CalcDifficulty(sum2);
  }

  /** From chip to pool: for a pool difficulty of at least 32, a body in which the chips changed
      only what they may, and whose own hash meets the pool target with fewer than 96 leading zero
      bits, passes the device check; the hash that is checked is that of the body itself. */
  lemma GoodBodyCounts(sha: Sha256, j: Job, id: nat, body: seq<byte>, target: nat)
    requires WellFormed(j) && |body| == 80 && target >= DIFF_MIN
    requires var p := PreScanned(j, id);
             var sent := RebuiltHeader(sha, p, JobResult(p.extraNonce2, "00000000", j.ntime));
             OnlyRolled(p, sent, Byte2BlockHeader(body).value)
    requires var v := LittleEndian(DoubleSha(sha, body));
             v >= Pow2(8 * (HASH_LEN - 12)) && PoolAccepts(v, target)
    ensures var (q, r) := Gathered(PreScanned(j, id), Byte2BlockHeader(body).value);
            && HeaderHash(sha, q, r) == DoubleSha(sha, body)
            && LittleEndian(HeaderHash(sha, q, r)) > 0
            && DeviceAccepts(LittleEndian(HeaderHash(sha, q, r)), target)
  {
    hide PoolAccepts, DeviceAccepts, LittleEndian, RebuiltHeader, OnlyRolled, BlockHeader2Byte, DoubleSha, Pow2;
    ReturnedIsRebuilt(sha, j, id, body);
    PoolSharesReach(LittleEndian(DoubleSha(sha, body)), target);
  }
}
