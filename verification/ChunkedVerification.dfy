/**
 * Verification in chunks (`batch_verify_parallel`, `parallel_verify_chain`). The chunks are
 * independent, so running them one after another gives the parallel result. Slicing with a
 * start past the end panics in the source; that outcome is None here.
 */
module ChunkedVerification {
  import opened Wrappers
  import opened Encoding
  import opened HashChain

  type Report = (bool, seq<U64>)

  /** Unlike `verify_self`, a chunk hashes block i with its predecessor's actual hash and never
      looks at the block's own previous_hash field. */
  predicate ChunkBlockOk(H: BlockHash, blocks: seq<HashLink>, i: nat)
    requires i < |blocks|
  {
    H(FieldsOf(blocks[i]).(previousHash := PreviousHash(blocks, i))) == blocks[i].hash
  }

  function Findings(H: BlockHash, blocks: seq<HashLink>, lo: nat, hi: nat): seq<U64>
    requires lo <= hi <= |blocks|
    decreases hi - lo
  {
    if lo == hi then [] else
      Findings(H, blocks, lo, hi - 1) + (if ChunkBlockOk(H, blocks, hi - 1) then [] else [blocks[hi - 1].index])
  }

  /** Boundaries j*size, for 1 <= j < n, whose first block names a wrong predecessor. */
  function BoundaryFindings(blocks: seq<HashLink>, size: nat, n: nat): seq<U64>
    decreases n
  {
    if n <= 1 then [] else
      BoundaryFindings(blocks, size, n - 1) +
      (if 0 < (n - 1) * size < |blocks| && !LinkedAt(blocks, (n - 1) * size) then [blocks[(n - 1) * size].index] else [])
  }

  lemma {:induction false} FindingsSplit(H: BlockHash, blocks: seq<HashLink>, lo: nat, mid: nat, hi: nat)
    requires lo <= mid <= hi <= |blocks|
    ensures Findings(H, blocks, lo, hi) == Findings(H, blocks, lo, mid) + Findings(H, blocks, mid, hi)
    decreases hi
  {
    if mid < hi {
      FindingsSplit(H, blocks, lo, mid, hi - 1);
    }
  }

  /** What is reported: the indices of exactly the blocks whose hash does not follow from their
      content and the actual hash before them, and of those whose link at a chunk start is wrong. */
  lemma {:induction false} FindingsAreFaults(H: BlockHash, blocks: seq<HashLink>, lo: nat, hi: nat, x: U64)
    requires lo <= hi <= |blocks|
    ensures x in Findings(H, blocks, lo, hi) <==>
      exists i :: lo <= i < hi && !ChunkBlockOk(H, blocks, i) && blocks[i].index == x
    decreases hi
  {
    if lo < hi {
      FindingsAreFaults(H, blocks, lo, hi - 1, x);
    }
  }

  lemma {:induction false} BoundaryFindingsAreFaults(blocks: seq<HashLink>, size: nat, n: nat, x: U64)
    ensures x in BoundaryFindings(blocks, size, n) <==>
      exists j :: 0 < j < n && 0 < j * size < |blocks| && !LinkedAt(blocks, j * size) && blocks[j * size].index == x
  {
    if n > 1 {
      BoundaryFindingsAreFaults(blocks, size, n - 1, x);
      var last := (n - 1) * size;
      if 0 < last < |blocks| && !LinkedAt(blocks, last) && blocks[last].index == x {
        assert x in BoundaryFindings(blocks, size, n);
      }
    }
  }

  lemma {:induction false} NoFindings(H: BlockHash, blocks: seq<HashLink>, lo: nat, hi: nat)
    requires lo <= hi <= |blocks|
    ensures Findings(H, blocks, lo, hi) == [] <==> forall i :: lo <= i < hi ==> ChunkBlockOk(H, blocks, i)
    decreases hi
  {
    if lo < hi {
      NoFindings(H, blocks, lo, hi - 1);
    }
  }

  lemma {:induction false} NoBoundaryFindings(blocks: seq<HashLink>, size: nat, n: nat)
    ensures BoundaryFindings(blocks, size, n) == [] <==>
      forall j :: 0 < j < n && 0 < j * size < |blocks| ==> LinkedAt(blocks, j * size)
  {
    if n > 1 {
      NoBoundaryFindings(blocks, size, n - 1);
    }
  }

  function CeilDiv(a: nat, b: nat): nat
    requires b > 0
  {
    (a + b - 1) / b
  }

  /** Chains too short for the chunk count, and counts below two, are verified in sequence. */
  predicate FallsBack(length: nat, chunks: nat) {
    chunks <= 1 || length < chunks * 2
  }

  /** The chunk count is used, and the last chunk starts past the end. */
  predicate Panics(length: nat, chunks: nat) {
    !FallsBack(length, chunks) && (chunks - 1) * CeilDiv(length, chunks) > length
  }

  method VerifyChunk(H: BlockHash, blocks: seq<HashLink>, start: nat, end: nat) returns (tampered: seq<U64>)
    requires start <= end <= |blocks|
    ensures tampered == Findings(H, blocks, start, end)
  {
    tampered := [];
    var prevHash: Bytes := PreviousHash(blocks, start);
    for i := start to end
      invariant tampered == Findings(H, blocks, start, i) && prevHash == PreviousHash(blocks, i)
    {
      if H(FieldsOf(blocks[i]).(previousHash := prevHash)) != blocks[i].hash {
        tampered := tampered + [blocks[i].index];
      }
      prevHash := blocks[i].hash;
    }
  }

  lemma ChunksCover(length: nat, chunks: nat)
    requires chunks > 0
    ensures chunks * CeilDiv(length, chunks) >= length
  {
    var q := CeilDiv(length, chunks);
    assert length + chunks - 1 == chunks * q + (length + chunks - 1) % chunks;
  }

  lemma StartsAreMonotone(i: nat, n: nat, size: nat)
    requires i < n
    ensures i * size <= (n - 1) * size && (i + 1) * size == i * size + size
  {
  }

  /** The one pass that the chunks add up to. */
  predicate ChunkedAccepts(H: BlockHash, blocks: seq<HashLink>, chunks: nat)
    requires chunks > 0
  {
    && Findings(H, blocks, 0, |blocks|) == []
    && BoundaryFindings(blocks, CeilDiv(|blocks|, chunks), chunks) == []
  }

  /** All chunks, the first of which that starts past the end panics. */
  method VerifyChunks(H: BlockHash, blocks: seq<HashLink>, chunks: nat, size: nat) returns (r: Option<seq<U64>>)
    requires chunks > 0 && chunks * size >= |blocks|
    ensures r.None? <==> (chunks - 1) * size > |blocks|
    ensures r.Some? ==> r.value == Findings(H, blocks, 0, |blocks|)
  {
    var all := [];
    ghost var covered := 0;
    for c := 0 to chunks
      invariant covered == if c * size < |blocks| then c * size else |blocks|
      invariant c > 0 ==> (c - 1) * size <= |blocks|
      invariant all == Findings(H, blocks, 0, covered)
    {
      StartsAreMonotone(c, chunks, size);
      var start := c * size;
      if start > |blocks| {
        return None;
      }
      var end := if start + size < |blocks| then start + size else |blocks|;
      var tampered := VerifyChunk(H, blocks, start, end);
      FindingsSplit(H, blocks, 0, start, end);
      all := all + tampered;
      covered := end;
    }
    return Some(all);
  }

  /** The cross-validation of chunk boundaries, for a positive chunk size. */
  method CheckBoundaries(blocks: seq<HashLink>, chunks: nat, size: nat) returns (tampered: seq<U64>)
    requires chunks > 0 && size > 0
    ensures tampered == BoundaryFindings(blocks, size, chunks)
  {
    tampered := [];
    for i := 0 to chunks - 1
      invariant tampered == BoundaryFindings(blocks, size, i + 1)
    {
      var nextStart := (i + 1) * size;
      if nextStart < |blocks| {
        StartsAreMonotone(i, i + 1, size);
        var chunkEnd := nextStart - 1;
        if blocks[nextStart].previousHash != blocks[chunkEnd].hash {
          tampered := tampered + [blocks[nextStart].index];
        }
      }
    }
  }

  /** The verdict of `batch_verify_parallel`; None is a panic. */
  function BatchVerdict(H: BlockHash, blocks: seq<HashLink>, chunks: nat): Option<bool> {
    if blocks == [] then Some(true)
    else if FallsBack(|blocks|, chunks) then Some(ValidChain(H, blocks))
    else if Panics(|blocks|, chunks) then None
    else Some(ChunkedAccepts(H, blocks, chunks))
  }

  method BatchVerify(H: BlockHash, blocks: seq<HashLink>, chunks: nat) returns (r: Option<Report>)
    ensures BatchVerdict(H, blocks, chunks) == if r.Some? then Some(r.value.0) else None
    ensures r.None? <==> Panics(|blocks|, chunks)
    ensures blocks == [] ==> r == Some((true, []))
    ensures blocks != [] && FallsBack(|blocks|, chunks) ==>
      r.Some? && r.value.0 == ValidChain(H, blocks) && Reports(H, blocks, r.value.1)
    ensures r.Some? && blocks != [] && !FallsBack(|blocks|, chunks) ==>
      && r.value.1 == Findings(H, blocks, 0, |blocks|) + BoundaryFindings(blocks, CeilDiv(|blocks|, chunks), chunks)
      && r.value.0 == ChunkedAccepts(H, blocks, chunks)
  {
    if blocks == [] {
      return Some((true, []));
    }
    if FallsBack(|blocks|, chunks) {
      var valid, tampered := VerifyChain(H, blocks);
      return Some((valid, tampered));
    }
    var size := CeilDiv(|blocks|, chunks);
    ChunksCover(|blocks|, chunks);
    assert size > 0;
    var found := VerifyChunks(H, blocks, chunks, size);
    if found.None? {
      return None;
    }
    var boundary := CheckBoundaries(blocks, chunks, size);
    var all := found.value + boundary;
    return Some((all == [], all));
  }

  // ----- what chunked acceptance means -----

  /** Exactly what the chunks leave unchecked: a chain verifies if and only if the chunks accept
      it and every block names its predecessor. */
  lemma ChunkedVerificationIsExact(H: BlockHash, blocks: seq<HashLink>, chunks: nat)
    requires blocks != [] && chunks > 0
    ensures ValidChain(H, blocks) <==>
      ChunkedAccepts(H, blocks, chunks) && forall i :: 0 <= i < |blocks| ==> LinkedAt(blocks, i)
  {
    NoFindings(H, blocks, 0, |blocks|);
    if ValidChain(H, blocks) {
      forall i | 0 <= i < |blocks| ensures LinkedAt(blocks, i) && ChunkBlockOk(H, blocks, i) {
        assert BlockOk(H, blocks, i);
      }
      NoBoundaryFindings(blocks, CeilDiv(|blocks|, chunks), chunks);
    }
    if ChunkedAccepts(H, blocks, chunks) && forall i :: 0 <= i < |blocks| ==> LinkedAt(blocks, i) {
      forall i | 0 <= i < |blocks| ensures BlockOk(H, blocks, i) {
        assert LinkedAt(blocks, i) && ChunkBlockOk(H, blocks, i);
      }
    }
  }

  lemma {:induction false} FindingsIgnoreLinks(H: BlockHash, a: seq<HashLink>, b: seq<HashLink>, hi: nat)
    requires |a| == |b| && hi <= |a|
    requires forall i :: 0 <= i < |a| ==> b[i] == a[i].(previousHash := b[i].previousHash)
    ensures Findings(H, a, 0, hi) == Findings(H, b, 0, hi)
  {
    if hi > 0 {
      FindingsIgnoreLinks(H, a, b, hi - 1);
      assert ChunkBlockOk(H, a, hi - 1) == ChunkBlockOk(H, b, hi - 1);
    }
  }

  lemma {:induction false} BoundariesIgnoreOthers(a: seq<HashLink>, b: seq<HashLink>, size: nat, n: nat)
    requires |a| == |b|
    requires forall i :: 0 <= i < |a| ==> b[i].hash == a[i].hash && b[i].index == a[i].index
    requires forall j :: 0 < j < n && 0 < j * size < |a| ==> b[j * size] == a[j * size]
    ensures BoundaryFindings(a, size, n) == BoundaryFindings(b, size, n)
  {
    if n > 1 {
      BoundariesIgnoreOthers(a, b, size, n - 1);
    }
  }

  /** So the verdict, unless it is a panic, is right about every chain whose links are. */
  lemma BatchVerdictIsExact(H: BlockHash, blocks: seq<HashLink>, chunks: nat)
    requires blocks != [] && !Panics(|blocks|, chunks)
    ensures ValidChain(H, blocks) <==>
      BatchVerdict(H, blocks, chunks) == Some(true) && forall i :: 0 <= i < |blocks| ==> LinkedAt(blocks, i)
  {
    if FallsBack(|blocks|, chunks) {
      forall i | ValidChain(H, blocks) && 0 <= i < |blocks| ensures LinkedAt(blocks, i) {
        assert BlockOk(H, blocks, i);
      }
    } else {
      ChunkedVerificationIsExact(H, blocks, chunks);
    }
  }

  predicate IsChunkStart(length: nat, chunks: nat, i: nat)
    requires chunks > 0
  {
    exists j :: 0 < j < chunks && i == j * CeilDiv(length, chunks)
  }

  /** A single forged link in a valid chain is accepted exactly when the chunks are used, do not
      panic, and the link is not at a chunk start; sequential verification never accepts it. */
  lemma ForgedLinkIsMissed(H: BlockHash, blocks: seq<HashLink>, chunks: nat, i: nat, forged: Bytes)
    requires ValidChain(H, blocks) && 0 < i < |blocks| && forged != blocks[i - 1].hash
    ensures
      var blocks' := blocks[i := blocks[i].(previousHash := forged)];
      && !ValidChain(H, blocks')
      && (BatchVerdict(H, blocks', chunks) == Some(true) <==>
            !FallsBack(|blocks|, chunks) && !Panics(|blocks|, chunks) && !IsChunkStart(|blocks|, chunks, i))
  {
    var blocks' := blocks[i := blocks[i].(previousHash := forged)];
    assert !LinkedAt(blocks', i) && !BlockOk(H, blocks', i);
    if !FallsBack(|blocks|, chunks) {
      var size := CeilDiv(|blocks|, chunks);
      ChunkedVerificationIsExact(H, blocks, chunks);
      FindingsIgnoreLinks(H, blocks, blocks', |blocks|);
      if IsChunkStart(|blocks|, chunks, i) {
        NoBoundaryFindings(blocks', size, chunks);
      } else {
        BoundariesIgnoreOthers(blocks, blocks', size, chunks);
      }
    }
  }

  // ----- the automatic chunk count -----

  function AutoChunks(length: nat): nat {
    var n := length / 256;
    var atLeastOne := if n < 1 then 1 else n;
    if atLeastOne > 16 then 16 else atLeastOne
  }

  /** One chunk for every full 256 blocks, but at least one and at most 16; so the chain is split
      exactly from 512 blocks on. */
  lemma AutoChunksIsExact(length: nat)
    ensures 1 <= AutoChunks(length) <= 16
    ensures 256 <= length < 4352 ==> 256 * AutoChunks(length) <= length < 256 * (AutoChunks(length) + 1)
    ensures length < 256 ==> AutoChunks(length) == 1
    ensures length >= 4096 ==> AutoChunks(length) == 16
    ensures FallsBack(length, AutoChunks(length)) <==> length < 512
  {
  }

  /** Rounding the chunk size up cannot push the last start past the end while (n-1)^2 fits. */
  lemma LastStartFits(length: nat, n: nat)
    requires n > 0 && (n - 1) * (n - 1) <= length
    ensures (n - 1) * CeilDiv(length, n) <= length
  {
    var q := CeilDiv(length, n);
    assert n * q <= length + n - 1;
    assert (n - 1) * (n * q) <= (n - 1) * (length + n - 1) by {
      MulMonotone(n - 1, n * q, length + n - 1);
    }
    assert (n - 1) * (n * q) == n * ((n - 1) * q);
    assert (n - 1) * (length + n - 1) == n * length - length + (n - 1) * (n - 1);
    assert n * ((n - 1) * q) <= n * length;
    CancelFactor(n, (n - 1) * q, length);
  }

  lemma MulMonotone(k: nat, a: int, b: int)
    requires a <= b
    ensures k * a <= k * b
  {
  }

  lemma CancelFactor(n: nat, a: int, b: int)
    requires n > 0 && n * a <= n * b
    ensures a <= b
  {
    assert n * (b + 1) == n * b + n;
    if b + 1 <= a {
      MulMonotone(n, b + 1, a);
      assert false;
    }
  }

  lemma AutoChunksNeverPanic(length: nat)
    ensures !Panics(length, AutoChunks(length))
  {
    var n := AutoChunks(length);
    assert (n - 1) * (n - 1) <= length by {
      MulMonotone(n - 1, n - 1, 15);
    }
    LastStartFits(length, n);
  }

  method ParallelVerifyChain(H: BlockHash, blocks: seq<HashLink>) returns (r: Report)
    ensures BatchVerdict(H, blocks, AutoChunks(|blocks|)) == Some(r.0)
    ensures blocks == [] ==> r == (true, [])
    ensures blocks != [] ==>
      (ValidChain(H, blocks) <==> r.0 && forall i :: 0 <= i < |blocks| ==> LinkedAt(blocks, i))
  {
    AutoChunksNeverPanic(|blocks|);
    var batch := BatchVerify(H, blocks, AutoChunks(|blocks|));
    if blocks != [] {
      ChunkedVerificationIsExact(H, blocks, AutoChunks(|blocks|));
    }
    return batch.value;
  }

  /** Eleven blocks in five chunks of three: the fifth chunk would start at twelve. */
  lemma ElevenBlocksInFiveChunksPanic()
    ensures Panics(11, 5)
  {
  }
}
