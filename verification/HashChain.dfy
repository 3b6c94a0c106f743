/**
 * The audit hash chain (src/log/hash_chain.rs): appending, verification and redaction.
 * SHA-256 with hex encoding is a parameter, of which only the digest
 * length is known, so security claims read "equal, or here is a collision".
 */
module HashChain {
  import opened Wrappers
  import opened Encoding

  type Digest = d: Bytes | |d| == 64 witness Decimal(0, 64)
  type Hash = Bytes -> Digest

  /** The genesis predecessor: 64 ASCII zeros. */
  const ZEROS: Digest := Decimal(0, 64)
  /** "GENESIS_BLOCK", the data of the first block. */
  const GENESIS_DATA: Bytes := [71, 69, 78, 69, 83, 73, 83, 95, 66, 76, 79, 67, 75]
  /** "[REDACTED]". */
  const REDACTED: Bytes := [91, 82, 69, 68, 65, 67, 84, 69, 68, 93]

  datatype HashLink = HashLink(index: U64, hash: Bytes, previousHash: Bytes, data: Bytes, timestamp: Timestamp, nonce: U64)

  /** The hash of a block's fields; Sha gives the one the program uses. */
  type BlockHash = Fields -> Digest

  function Sha(sha256: Hash): BlockHash {
    f => sha256(Preimage(f))
  }

  function FieldsOf(b: HashLink): Fields {
    Fields(b.previousHash, b.index, b.data, b.timestamp, b.nonce)
  }

  predicate VerifySelf(H: BlockHash, b: HashLink) {
    H(FieldsOf(b)) == b.hash
  }

  function Genesis(H: BlockHash, data: Bytes, now: Timestamp): HashLink {
    HashLink(0, H(Fields(ZEROS, 0, data, now, 0)), ZEROS, data, now, 0)
  }

  function Next(H: BlockHash, previous: HashLink, data: Bytes, now: Timestamp): HashLink {
    var index := (previous.index + 1) % 0x1_0000_0000_0000_0000;
    HashLink(index, H(Fields(previous.hash, index, data, now, 0)), previous.hash, data, now, 0)
  }

  // ----- validity -----

  /** The hash that block i ought to name as its predecessor's. */
  function PreviousHash(blocks: seq<HashLink>, i: nat): Bytes
    requires i <= |blocks|
  {
    if i == 0 then ZEROS else blocks[i - 1].hash
  }

  predicate LinkedAt(blocks: seq<HashLink>, i: nat)
    requires i < |blocks|
  {
    blocks[i].previousHash == PreviousHash(blocks, i)
  }

  predicate BlockOk(H: BlockHash, blocks: seq<HashLink>, i: nat)
    requires i < |blocks|
  {
    VerifySelf(H, blocks[i]) && LinkedAt(blocks, i)
  }

  predicate ValidChain(H: BlockHash, blocks: seq<HashLink>) {
    blocks != [] && forall i :: 0 <= i < |blocks| ==> BlockOk(H, blocks, i)
  }

  /** A block made now: it holds this data and this time, with no proof of work, and its own hash. */
  predicate Holds(H: BlockHash, b: HashLink, data: Bytes, now: Timestamp) {
    b.data == data && b.timestamp == now && b.nonce == 0 && VerifySelf(H, b)
  }

  predicate IsGenesis(H: BlockHash, b: HashLink, data: Bytes, now: Timestamp) {
    Holds(H, b, data, now) && b.index == 0 && b.previousHash == ZEROS
  }

  predicate Follows(H: BlockHash, b: HashLink, previous: HashLink, data: Bytes, now: Timestamp) {
    Holds(H, b, data, now) && b.previousHash == previous.hash
    && b.index == if previous.index + 1 < 0x1_0000_0000_0000_0000 then previous.index + 1 else 0
  }

  /** These conditions determine the block: no other one could have been made. */
  lemma NewBlocksAreExact(H: BlockHash, previous: HashLink, data: Bytes, now: Timestamp)
    ensures forall b :: IsGenesis(H, b, data, now) <==> b == Genesis(H, data, now)
    ensures forall b :: Follows(H, b, previous, data, now) <==> b == Next(H, previous, data, now)
  {
  }

  function AppendAll(H: BlockHash, blocks: seq<HashLink>, items: seq<(Bytes, Timestamp)>): seq<HashLink>
    requires blocks != []
  {
    if items == [] then blocks else
      var n := |items| - 1;
      var before := AppendAll(H, blocks, items[..n]);
      before + [Next(H, before[|before| - 1], items[n].0, items[n].1)]
  }

  /** A verifying chain whose blocks hold exactly these items after the genesis block, in order,
      numbered from 0 (as far as 64 bits go). */
  predicate Keeps(H: BlockHash, blocks: seq<HashLink>, items: seq<(Bytes, Timestamp)>) {
    && |blocks| == 1 + |items| && ValidChain(H, blocks)
    && (forall i :: 0 <= i < |items| ==> Holds(H, blocks[i + 1], items[i].0, items[i].1))
    && forall i :: 0 <= i < |blocks| ==> blocks[i].index == i % 0x1_0000_0000_0000_0000
  }

  lemma AppendKeepsItems(H: BlockHash, blocks: seq<HashLink>, items: seq<(Bytes, Timestamp)>, data: Bytes, now: Timestamp)
    requires Keeps(H, blocks, items)
    ensures Keeps(H, blocks + [Next(H, blocks[|blocks| - 1], data, now)], items + [(data, now)])
  {
    AppendKeepsValid(H, blocks, data, now);
  }

  /** Any number of appends to a new chain are all kept. */
  lemma {:induction false} AppendsAreKept(H: BlockHash, data: Bytes, now: Timestamp, items: seq<(Bytes, Timestamp)>)
    ensures
      var blocks := AppendAll(H, [Genesis(H, data, now)], items);
      Keeps(H, blocks, items) && IsGenesis(H, blocks[0], data, now)
  {
    if items != [] {
      var n := |items| - 1;
      AppendsAreKept(H, data, now, items[..n]);
      AppendKeepsItems(H, AppendAll(H, [Genesis(H, data, now)], items[..n]), items[..n], items[n].0, items[n].1);
      assert items == items[..n] + [(items[n].0, items[n].1)];
    }
  }

  lemma AppendKeepsValid(H: BlockHash, blocks: seq<HashLink>, data: Bytes, now: Timestamp)
    requires ValidChain(H, blocks)
    ensures ValidChain(H, blocks + [Next(H, blocks[|blocks| - 1], data, now)])
  {
    var blocks' := blocks + [Next(H, blocks[|blocks| - 1], data, now)];
    forall i | 0 <= i < |blocks'| ensures BlockOk(H, blocks', i) {
      if i < |blocks| {
        assert BlockOk(H, blocks, i);
      }
    }
  }

  // ----- the head commits to the history -----

  predicate Collision(H: BlockHash, p: (Fields, Fields)) {
    p.0 != p.1 && |p.0.previousHash| == |p.1.previousHash| && H(p.0) == H(p.1)
  }

  /** Walks back from two heads to the first pair of blocks that differ. */
  function LastDifference(a: seq<HashLink>, b: seq<HashLink>): (Fields, Fields)
    requires a != [] && b != []
  {
    var x, y := a[|a| - 1], b[|b| - 1];
    if x != y || |a| == 1 || |b| == 1 then (FieldsOf(x), FieldsOf(y))
    else LastDifference(a[..|a| - 1], b[..|b| - 1])
  }

  /** Where the longer of two chains continues below the shorter one's genesis block. */
  function BelowGenesis(a: seq<HashLink>, b: seq<HashLink>): Fields
    requires |a| != |b|
  {
    if |a| > |b| then FieldsOf(a[|a| - |b| - 1]) else FieldsOf(b[|b| - |a| - 1])
  }

  lemma ValidPrefix(H: BlockHash, blocks: seq<HashLink>, n: nat)
    requires ValidChain(H, blocks) && 0 < n <= |blocks|
    ensures ValidChain(H, blocks[..n])
  {
    forall i | 0 <= i < n ensures BlockOk(H, blocks[..n], i) {
      assert BlockOk(H, blocks, i);
    }
  }

  lemma PreviousIsDigest(H: BlockHash, blocks: seq<HashLink>, i: nat)
    requires ValidChain(H, blocks) && i < |blocks|
    ensures |blocks[i].previousHash| == 64
    ensures 0 < i ==> blocks[i].previousHash == H(FieldsOf(blocks[i - 1]))
  {
    assert BlockOk(H, blocks, i);
    if 0 < i {
      assert BlockOk(H, blocks, i - 1);
    }
  }

  lemma HashCommitsToBlock(H: BlockHash, x: HashLink, y: HashLink)
    requires VerifySelf(H, x) && VerifySelf(H, y) && x.hash == y.hash
    requires |x.previousHash| == |y.previousHash|
    ensures x == y || Collision(H, (FieldsOf(x), FieldsOf(y)))
  {
  }

  ghost predicate SameOrBroken(H: BlockHash, a: seq<HashLink>, b: seq<HashLink>)
    requires a != [] && b != []
  {
    a == b || Collision(H, LastDifference(a, b)) || (|a| != |b| && H(BelowGenesis(a, b)) == ZEROS)
  }

  /** The genesis block of one chain cannot lie above the other's, unless zeros are a digest. */
  lemma GenesisAbove(H: BlockHash, a: seq<HashLink>, b: seq<HashLink>)
    requires ValidChain(H, a) && ValidChain(H, b) && a[|a| - 1] == b[|b| - 1]
    requires |a| == 1 < |b|
    ensures H(BelowGenesis(a, b)) == H(BelowGenesis(b, a)) == ZEROS
  {
    PreviousIsDigest(H, b, |b| - 1);
    assert BlockOk(H, a, 0);
  }

  lemma ReachedGenesis(H: BlockHash, a: seq<HashLink>, b: seq<HashLink>)
    requires ValidChain(H, a) && ValidChain(H, b) && a[|a| - 1] == b[|b| - 1]
    requires |a| == 1 || |b| == 1
    ensures SameOrBroken(H, a, b)
  {
    if |a| < |b| {
      GenesisAbove(H, a, b);
    } else if |b| < |a| {
      GenesisAbove(H, b, a);
    } else {
      assert a == [a[0]] && b == [b[0]];
    }
  }

  lemma ExtendBoth(H: BlockHash, a: seq<HashLink>, b: seq<HashLink>)
    requires 1 < |a| && 1 < |b| && a[|a| - 1] == b[|b| - 1]
    requires SameOrBroken(H, a[..|a| - 1], b[..|b| - 1])
    ensures SameOrBroken(H, a, b)
  {
    assert a == a[..|a| - 1] + [a[|a| - 1]] && b == b[..|b| - 1] + [b[|b| - 1]];
    if |a| != |b| {
      assert BelowGenesis(a, b) == BelowGenesis(a[..|a| - 1], b[..|b| - 1]);
    }
  }

  lemma {:induction false} HeadCommits(H: BlockHash, a: seq<HashLink>, b: seq<HashLink>)
    requires ValidChain(H, a) && ValidChain(H, b) && a[|a| - 1].hash == b[|b| - 1].hash
    ensures SameOrBroken(H, a, b)
  {
    var m, n := |a| - 1, |b| - 1;
    assert BlockOk(H, a, m) && BlockOk(H, b, n);
    PreviousIsDigest(H, a, m);
    PreviousIsDigest(H, b, n);
    HashCommitsToBlock(H, a[m], b[n]);
    if a[m] == b[n] {
      if m == 0 || n == 0 {
        ReachedGenesis(H, a, b);
      } else {
        ValidPrefix(H, a, m);
        ValidPrefix(H, b, n);
        HeadCommits(H, a[..m], b[..n]);
        ExtendBoth(H, a, b);
      }
    }
  }

  predicate BytesCollide(sha256: Hash, x: Bytes, y: Bytes) {
    x != y && sha256(x) == sha256(y)
  }

  /** A colliding pair of blocks is a colliding pair of byte strings. */
  lemma CollisionOfBytes(sha256: Hash, p: (Fields, Fields))
    requires Collision(Sha(sha256), p)
    ensures BytesCollide(sha256, Preimage(p.0), Preimage(p.1))
  {
    if Preimage(p.0) == Preimage(p.1) {
      PreimageInjective(p.0, p.1);
    }
  }

  /** Two accepted chains of any lengths with the same head hash are the same chain, or a
      SHA-256 collision, or a preimage of the 64 zeros, can be read off them. */
  lemma HeadCommitsToHistory(sha256: Hash, a: seq<HashLink>, b: seq<HashLink>)
    requires ValidChain(Sha(sha256), a) && ValidChain(Sha(sha256), b) && a[|a| - 1].hash == b[|b| - 1].hash
    ensures
      || a == b
      || (var p := LastDifference(a, b); BytesCollide(sha256, Preimage(p.0), Preimage(p.1)))
      || (|a| != |b| && sha256(Preimage(BelowGenesis(a, b))) == ZEROS)
  {
    HeadCommits(Sha(sha256), a, b);
    if Collision(Sha(sha256), LastDifference(a, b)) {
      CollisionOfBytes(sha256, LastDifference(a, b));
    }
  }

  /** The third possibility is a real one: if a genesis block's digest is the 64 zeros, any other
      genesis block can follow it, and its chains of one and of two blocks have the same head. */
  lemma ZeroDigestForksHistory(sha256: Hash, x: HashLink, g: HashLink)
    requires VerifySelf(Sha(sha256), x) && VerifySelf(Sha(sha256), g)
    requires x.previousHash == g.previousHash == x.hash == ZEROS
    ensures ValidChain(Sha(sha256), [g]) && ValidChain(Sha(sha256), [x, g])
    ensures var p := LastDifference([g], [x, g]); !BytesCollide(sha256, Preimage(p.0), Preimage(p.1))
  {
    assert BlockOk(Sha(sha256), [g], 0);
    assert BlockOk(Sha(sha256), [x, g], 0) && BlockOk(Sha(sha256), [x, g], 1);
  }

  function ZeroAt(preimage: Bytes): Hash {
    b => if b == preimage then ZEROS else Decimal(1, 64)
  }

  /** And some function to digests makes it so, for any two genesis blocks that differ. */
  lemma ZeroDigestIsPossible(data: Bytes, now: Timestamp, data': Bytes, now': Timestamp)
    requires (data, now) != (data', now')
    ensures
      var sha256 := ZeroAt(Preimage(Fields(ZEROS, 0, data, now, 0)));
      var x, g := Genesis(Sha(sha256), data, now), Genesis(Sha(sha256), data', now');
      && x != g && ValidChain(Sha(sha256), [g]) && ValidChain(Sha(sha256), [x, g])
  {
    var sha256 := ZeroAt(Preimage(Fields(ZEROS, 0, data, now, 0)));
    var x, g := Genesis(Sha(sha256), data, now), Genesis(Sha(sha256), data', now');
    ZeroDigestForksHistory(sha256, x, g);
  }

  // ----- redaction -----

  /** Recomputes the hashes of blocks j, j+1, ... and relinks each successor. */
  function Rehash(H: BlockHash, blocks: seq<HashLink>, j: nat): seq<HashLink>
    requires j <= |blocks|
    decreases |blocks| - j
  {
    if j == |blocks| then blocks else
      var b := blocks[j];
      var hash := H(FieldsOf(b).(previousHash := PreviousHash(blocks, j)));
      var hashed := blocks[j := b.(hash := hash)];
      var linked := if j + 1 < |blocks| then hashed[j + 1 := hashed[j + 1].(previousHash := hash)] else hashed;
      Rehash(H, linked, j + 1)
  }

  function Redacted(H: BlockHash, blocks: seq<HashLink>, i: nat): seq<HashLink>
    requires i < |blocks|
  {
    Rehash(H, blocks[i := blocks[i].(data := REDACTED)], i)
  }

  predicate SameContent(a: HashLink, b: HashLink) {
    a.index == b.index && a.data == b.data && a.timestamp == b.timestamp && a.nonce == b.nonce
  }

  lemma {:induction false} RehashEffect(H: BlockHash, blocks: seq<HashLink>, j: nat)
    requires j <= |blocks|
    ensures
      var r := Rehash(H, blocks, j);
      && |r| == |blocks| && r[..j] == blocks[..j]
      && (j < |r| ==> r[j].previousHash == blocks[j].previousHash)
      && forall k :: j <= k < |r| ==>
           && SameContent(r[k], blocks[k])
           && r[k].hash == H(FieldsOf(r[k]).(previousHash := PreviousHash(r, k)))
           && (j < k ==> LinkedAt(r, k))
    decreases |blocks| - j
  {
    if j < |blocks| {
      var b := blocks[j];
      var hash := H(FieldsOf(b).(previousHash := PreviousHash(blocks, j)));
      var hashed := blocks[j := b.(hash := hash)];
      var linked := if j + 1 < |blocks| then hashed[j + 1 := hashed[j + 1].(previousHash := hash)] else hashed;
      RehashEffect(H, linked, j + 1);
      var r := Rehash(H, blocks, j);
      assert r[..j + 1] == linked[..j + 1];
      assert r[j] == r[..j + 1][j] == linked[j];
      assert j > 0 ==> r[j - 1] == r[..j + 1][j - 1] == blocks[j - 1];
      assert r[..j] == r[..j + 1][..j] == blocks[..j];
    }
  }

  /** Redaction touches neither the earlier blocks, nor any index, timestamp or nonce, nor any
      data but the redacted block's. */
  lemma RedactionKeeps(H: BlockHash, blocks: seq<HashLink>, i: nat)
    requires 0 < i < |blocks|
    ensures
      var r := Redacted(H, blocks, i);
      && |r| == |blocks| && r[..i] == blocks[..i]
      && SameContent(r[i], blocks[i].(data := REDACTED))
      && (forall k :: i < k < |r| ==> SameContent(r[k], blocks[k]))
      && r[i].previousHash == blocks[i].previousHash
  {
    var blocks0 := blocks[i := blocks[i].(data := REDACTED)];
    RehashEffect(H, blocks0, i);
    assert Redacted(H, blocks, i)[..i] == blocks0[..i] == blocks[..i];
  }

  /** The redacted chain verifies exactly when the blocks before i did and block i names its
      predecessor, whatever the hashes and links of the later blocks were. */
  lemma RedactionIsExact(H: BlockHash, blocks: seq<HashLink>, i: nat)
    requires 0 < i < |blocks|
    ensures |Redacted(H, blocks, i)| == |blocks|
    ensures ValidChain(H, Redacted(H, blocks, i)) <==> ValidChain(H, blocks[..i]) && LinkedAt(blocks, i)
  {
    var r := Redacted(H, blocks, i);
    RedactionKeeps(H, blocks, i);
    assert r[i - 1] == r[..i][i - 1] == blocks[i - 1];
    if ValidChain(H, r) {
      ValidPrefix(H, r, i);
      assert BlockOk(H, r, i);
    }
    if ValidChain(H, blocks[..i]) && LinkedAt(blocks, i) {
      forall k | 0 <= k < |r| ensures BlockOk(H, r, k) {
        if k < i {
          assert BlockOk(H, blocks[..i], k);
          assert r[k] == r[..i][k] && (k > 0 ==> r[k - 1] == r[..i][k - 1]);
        } else {
          RehashedBlockOk(H, blocks, i, k);
        }
      }
    }
  }

  lemma RehashedBlockOk(H: BlockHash, blocks: seq<HashLink>, i: nat, k: nat)
    requires 0 < i <= k < |blocks| && LinkedAt(blocks, i)
    ensures |Redacted(H, blocks, i)| == |blocks| && BlockOk(H, Redacted(H, blocks, i), k)
  {
    var blocks0 := blocks[i := blocks[i].(data := REDACTED)];
    RehashEffect(H, blocks0, i);
    var r := Redacted(H, blocks, i);
    assert r[i - 1] == r[..i][i - 1] == blocks0[..i][i - 1];
    assert LinkedAt(r, k);
  }

  lemma RedactedChainDiffers(H: BlockHash, blocks: seq<HashLink>, i: nat)
    requires 0 < i < |blocks| && ValidChain(H, blocks) && blocks[i].data != REDACTED
    ensures
      var r := Redacted(H, blocks, i);
      |r| == |blocks| && r != blocks && ValidChain(H, r)
  {
    RedactionIsExact(H, blocks, i);
    RedactionKeeps(H, blocks, i);
    ValidPrefix(H, blocks, i);
    assert BlockOk(H, blocks, i);
    assert Redacted(H, blocks, i)[i].data == REDACTED;
  }

  /** A redaction that hides something cannot keep the published head hash, short of a SHA-256
      collision. */
  lemma RedactionChangesHead(sha256: Hash, blocks: seq<HashLink>, i: nat)
    requires 0 < i < |blocks| && ValidChain(Sha(sha256), blocks) && blocks[i].data != REDACTED
    ensures
      var r := Redacted(Sha(sha256), blocks, i);
      && |r| == |blocks|
      && (|| r[|r| - 1].hash != blocks[|blocks| - 1].hash
          || (var p := LastDifference(r, blocks); BytesCollide(sha256, Preimage(p.0), Preimage(p.1))))
  {
    var r := Redacted(Sha(sha256), blocks, i);
    RedactedChainDiffers(Sha(sha256), blocks, i);
    if r[|r| - 1].hash == blocks[|blocks| - 1].hash {
      HeadCommitsToHistory(sha256, r, blocks);
    }
  }

  // ----- verification -----

  /** What `verify_chain` reports: each entry is the index of a faulty block, or the 0 that
      stands for a bad genesis link, and every fault is reported. */
  ghost predicate Reports(H: BlockHash, blocks: seq<HashLink>, tampered: seq<U64>)
    requires blocks != []
  {
    forall x :: x in tampered <==>
      || (x == 0 && !LinkedAt(blocks, 0))
      || (exists i :: 0 <= i < |blocks| && FaultAt(H, blocks, i, x))
  }

  ghost predicate FaultAt(H: BlockHash, blocks: seq<HashLink>, i: nat, x: U64)
    requires i < |blocks|
  {
    blocks[i].index == x && (!VerifySelf(H, blocks[i]) || (0 < i && !LinkedAt(blocks, i)))
  }

  /** Faults among the first n blocks: broken self-hashes, or also broken links. */
  ghost predicate SelfFault(H: BlockHash, blocks: seq<HashLink>, n: nat, x: U64)
    requires n <= |blocks|
  {
    exists i :: 0 <= i < n && blocks[i].index == x && !VerifySelf(H, blocks[i])
  }

  ghost predicate LinkFault(blocks: seq<HashLink>, n: nat, x: U64)
    requires n <= |blocks|
  {
    exists i :: 0 < i < n && blocks[i].index == x && !LinkedAt(blocks, i)
  }

  lemma ExtendFaults(H: BlockHash, blocks: seq<HashLink>, n: nat)
    requires n < |blocks|
    ensures forall x :: SelfFault(H, blocks, n + 1, x) <==>
      SelfFault(H, blocks, n, x) || (blocks[n].index == x && !VerifySelf(H, blocks[n]))
    ensures forall x :: LinkFault(blocks, n + 1, x) <==>
      LinkFault(blocks, n, x) || (0 < n && blocks[n].index == x && !LinkedAt(blocks, n))
  {
    forall x | LinkFault(blocks, n + 1, x) && !LinkFault(blocks, n, x)
      ensures 0 < n && blocks[n].index == x && !LinkedAt(blocks, n)
    {
      var i :| 0 < i < n + 1 && blocks[i].index == x && !LinkedAt(blocks, i);
      assert i == n;
    }
    forall x | LinkFault(blocks, n, x) ensures LinkFault(blocks, n + 1, x) {
      var i :| 0 < i < n && blocks[i].index == x && !LinkedAt(blocks, i);
      assert 0 < i < n + 1;
    }
  }

  method VerifyChain(H: BlockHash, blocks: seq<HashLink>) returns (valid: bool, tampered: seq<U64>)
    requires blocks != []
    ensures valid == (tampered == []) && valid == ValidChain(H, blocks)
    ensures Reports(H, blocks, tampered)
  {
    tampered := [];
    if blocks[0].previousHash != ZEROS {
      tampered := tampered + [0];
    }
    ghost var genesis := tampered;
    for i := 0 to |blocks|
      invariant forall x :: x in tampered <==> x in genesis || SelfFault(H, blocks, i, x)
    {
      ExtendFaults(H, blocks, i);
      if !VerifySelf(H, blocks[i]) {
        tampered := tampered + [blocks[i].index];
      }
    }
    for i := 1 to |blocks|
      invariant forall x :: x in tampered <==> x in genesis || SelfFault(H, blocks, |blocks|, x) || LinkFault(blocks, i, x)
    {
      ExtendFaults(H, blocks, i);
      if blocks[i].previousHash != blocks[i - 1].hash && blocks[i].index !in tampered {
        tampered := tampered + [blocks[i].index];
      }
    }
    FaultsAreReported(H, blocks, tampered);
    return tampered == [], tampered;
  }

  lemma FaultsAreReported(H: BlockHash, blocks: seq<HashLink>, tampered: seq<U64>)
    requires blocks != []
    requires forall x :: x in tampered <==>
      (x == 0 && !LinkedAt(blocks, 0)) || SelfFault(H, blocks, |blocks|, x) || LinkFault(blocks, |blocks|, x)
    ensures Reports(H, blocks, tampered)
    ensures tampered == [] <==> ValidChain(H, blocks)
  {
    forall x
      ensures SelfFault(H, blocks, |blocks|, x) || LinkFault(blocks, |blocks|, x) <==>
              exists i :: 0 <= i < |blocks| && FaultAt(H, blocks, i, x)
    {
      if SelfFault(H, blocks, |blocks|, x) {
        var i :| 0 <= i < |blocks| && blocks[i].index == x && !VerifySelf(H, blocks[i]);
        assert FaultAt(H, blocks, i, x);
      }
      if LinkFault(blocks, |blocks|, x) {
        var i :| 0 < i < |blocks| && blocks[i].index == x && !LinkedAt(blocks, i);
        assert FaultAt(H, blocks, i, x);
      }
    }
    if tampered == [] {
      forall i | 0 <= i < |blocks| ensures BlockOk(H, blocks, i) {
        assert blocks[i].index !in tampered && 0 !in tampered;
        assert !FaultAt(H, blocks, i, blocks[i].index);
      }
    } else {
      var x := tampered[0];
      if i :| 0 <= i < |blocks| && FaultAt(H, blocks, i, x) {
        assert !BlockOk(H, blocks, i);
      } else {
        assert x in tampered && !LinkedAt(blocks, 0);
        assert !BlockOk(H, blocks, 0);
      }
    }
  }

  class HashChain {
    const H: BlockHash
    var blocks: seq<HashLink>

    constructor (H: BlockHash, now: Timestamp)
      ensures this.H == H && |blocks| == 1 && ValidChain(H, blocks)
      ensures IsGenesis(H, blocks[0], GENESIS_DATA, now)
    {
      this.H := H;
      this.blocks := [Genesis(H, GENESIS_DATA, now)];
    }

    method Append(data: Bytes, now: Timestamp) returns (b: HashLink)
      requires blocks != []
      modifies this`blocks
      ensures |blocks| == |old(blocks)| + 1 && blocks[..|old(blocks)|] == old(blocks)
      ensures b == blocks[|old(blocks)|] && Follows(H, b, old(blocks)[|old(blocks)| - 1], data, now)
      ensures blocks == AppendAll(H, old(blocks), [(data, now)])
      ensures old(ValidChain(H, blocks)) ==> ValidChain(H, blocks)
    {
      if ValidChain(H, blocks) {
        AppendKeepsValid(H, blocks, data, now);
      }
      b := Next(H, blocks[|blocks| - 1], data, now);
      blocks := blocks + [b];
    }

    method Redact(index: nat) returns (r: Result<(), RedactError>)
      modifies this`blocks
      ensures
        if index >= |old(blocks)| then r == Failure(IndexOutOfBounds) && blocks == old(blocks)
        else if index == 0 then r == Failure(CannotRedactGenesis) && blocks == old(blocks)
        else r == Success(()) && blocks == Redacted(H, old(blocks), index)
    {
      if index >= |blocks| {
        return Failure(IndexOutOfBounds);
      }
      if index == 0 {
        return Failure(CannotRedactGenesis);
      }
      blocks := blocks[index := blocks[index].(data := REDACTED)];
      ghost var blocks0 := blocks;
      var j := index;
      while j < |blocks|
        invariant index <= j <= |blocks| && |blocks| == |blocks0|
        invariant Rehash(H, blocks, j) == Rehash(H, blocks0, index)
      {
        var newHash := H(FieldsOf(blocks[j]).(previousHash := blocks[j - 1].hash));
        blocks := blocks[j := blocks[j].(hash := newHash)];
        if j + 1 < |blocks| {
          blocks := blocks[j + 1 := blocks[j + 1].(previousHash := newHash)];
        }
        j := j + 1;
      }
      return Success(());
    }
  }

  datatype RedactError = IndexOutOfBounds | CannotRedactGenesis
}
