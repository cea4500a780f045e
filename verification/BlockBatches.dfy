/** Enciphering runs of blocks: the batched paths and the one-block loop compute the same bytes. */
module BlockBatches {
  import opened Base
  import opened CipherTable

  const BLOCK := 16

  /** One cipher under one key schedule, as block functions. */
  datatype BlockCipher = BlockCipher(enc: seq<Byte> -> seq<Byte>, dec: seq<Byte> -> seq<Byte>)

  ghost predicate Lawful(b: BlockCipher) {
    && (forall s :: |s| == BLOCK ==> |b.enc(s)| == BLOCK && b.dec(b.enc(s)) == s)
    && (forall s :: |s| == BLOCK ==> |b.dec(s)| == BLOCK && b.enc(b.dec(s)) == s)
  }

  ghost predicate KeepsBlocks(f: seq<Byte> -> seq<Byte>) {
    forall s :: |s| == BLOCK ==> |f(s)| == BLOCK
  }

  /** What the machine offers. */
  datatype Cpu = Cpu(aesHw: bool, sse2: bool, x64Asm: bool)

  /** f applied to every block of data on its own. */
  function EachBlock(f: seq<Byte> -> seq<Byte>, data: seq<Byte>): seq<Byte>
    requires |data| % BLOCK == 0
  {
    if data == [] then [] else f(data[..BLOCK]) + EachBlock(f, data[BLOCK..])
  }

  lemma {:induction false} EachBlockLength(f: seq<Byte> -> seq<Byte>, data: seq<Byte>)
    requires |data| % BLOCK == 0 && KeepsBlocks(f)
    ensures |EachBlock(f, data)| == |data|
  {
    if data != [] {
      EachBlockLength(f, data[BLOCK..]);
    }
  }

  /** Block k of the result is f of block k, and of nothing else. */
  lemma {:induction false} EachBlockAt(f: seq<Byte> -> seq<Byte>, data: seq<Byte>, k: nat)
    requires |data| % BLOCK == 0 && KeepsBlocks(f) && 16 * k < |data|
    ensures |EachBlock(f, data)| == |data|
    ensures EachBlock(f, data)[16 * k..16 * k + 16] == f(data[16 * k..16 * k + 16])
  {
    EachBlockLength(f, data);
    var head, tail := f(data[..BLOCK]), EachBlock(f, data[BLOCK..]);
    if k > 0 {
      EachBlockAt(f, data[BLOCK..], k - 1);
      assert (head + tail)[16 * k..16 * k + 16] == tail[16 * (k - 1)..16 * (k - 1) + 16];
      assert data[16 * k..16 * k + 16] == data[BLOCK..][16 * (k - 1)..16 * (k - 1) + 16];
    }
  }

  lemma {:induction false} EachBlockSplit(f: seq<Byte> -> seq<Byte>, a: seq<Byte>, b: seq<Byte>)
    requires |a| % BLOCK == 0 && |b| % BLOCK == 0
    ensures EachBlock(f, a + b) == EachBlock(f, a) + EachBlock(f, b)
  {
    if a == [] {
      assert a + b == b;
    } else {
      assert (a + b)[..BLOCK] == a[..BLOCK] && (a + b)[BLOCK..] == a[BLOCK..] + b;
      EachBlockSplit(f, a[BLOCK..], b);
    }
  }

  /** Undoing block by block undoes the whole run. */
  lemma {:induction false} EachBlockInverse(f: seq<Byte> -> seq<Byte>, g: seq<Byte> -> seq<Byte>, data: seq<Byte>)
    requires |data| % BLOCK == 0 && KeepsBlocks(f)
    requires forall s :: |s| == BLOCK ==> g(f(s)) == s
    ensures |EachBlock(f, data)| == |data| && EachBlock(g, EachBlock(f, data)) == data
  {
    if data != [] {
      var head, tail := f(data[..BLOCK]), EachBlock(f, data[BLOCK..]);
      EachBlockInverse(f, g, data[BLOCK..]);
      assert (head + tail)[..BLOCK] == head && (head + tail)[BLOCK..] == tail;
    }
  }

  /** A primitive working in place on n consecutive blocks (a batch routine of the cipher's own file, or one block). */
  method TransformRun(f: seq<Byte> -> seq<Byte>, data: array<Byte>, pos: nat, n: nat)
    requires KeepsBlocks(f) && pos + BLOCK * n <= data.Length
    modifies data
    ensures data[pos..pos + BLOCK * n] == EachBlock(f, old(data[pos..pos + BLOCK * n]))
    ensures data[..pos] == old(data[..pos]) && data[pos + BLOCK * n..] == old(data[pos + BLOCK * n..])
  {
    EachBlockLength(f, data[pos..pos + BLOCK * n]);
    var r := EachBlock(f, data[pos..pos + BLOCK * n]);
    forall i | 0 <= i < BLOCK * n {
      data[pos + i] := r[i];
    }
  }

  /** The first pos bytes of was have been transformed, the others are as they were. */
  ghost predicate Done(f: seq<Byte> -> seq<Byte>, was: seq<Byte>, now: seq<Byte>, pos: nat) {
    && pos % BLOCK == 0 && pos <= |was| == |now|
    && now[..pos] == EachBlock(f, was[..pos]) && now[pos..] == was[pos..]
  }

  lemma DoneNext(f: seq<Byte> -> seq<Byte>, was: seq<Byte>, before: seq<Byte>, now: seq<Byte>, pos: nat, n: nat)
    requires Done(f, was, before, pos) && pos + BLOCK * n <= |was| == |now|
    requires now[..pos] == before[..pos] && now[pos + BLOCK * n..] == before[pos + BLOCK * n..]
    requires now[pos..pos + BLOCK * n] == EachBlock(f, before[pos..pos + BLOCK * n])
    ensures Done(f, was, now, pos + BLOCK * n)
  {
    var next := pos + BLOCK * n;
    assert before[pos..next] == before[pos..][..BLOCK * n] == was[pos..][..BLOCK * n] == was[pos..next];
    assert before[next..] == before[pos..][BLOCK * n..] == was[pos..][BLOCK * n..] == was[next..];
    assert was[..next] == was[..pos] + was[pos..next];
    EachBlockSplit(f, was[..pos], was[pos..next]);
    assert now[..next] == now[..pos] + now[pos..next];
  }

  /** One step of a run: the next n blocks are done on top of the first ones. */
  method Advance(f: seq<Byte> -> seq<Byte>, data: array<Byte>, pos: nat, n: nat, ghost was: seq<Byte>)
    requires KeepsBlocks(f) && pos + BLOCK * n <= data.Length && Done(f, was, data[..], pos)
    modifies data
    ensures Done(f, was, data[..], pos + BLOCK * n)
  {
    var next := pos + BLOCK * n;
    ghost var before := data[..];
    assert before[pos..next] == data[pos..next] && before[..pos] == data[..pos] && before[next..] == data[next..];
    TransformRun(f, data, pos, n);
    ghost var now := data[..];
    assert now[pos..next] == data[pos..next] && now[..pos] == data[..pos] && now[next..] == data[next..];
    DoneNext(f, was, before, now, pos, n);
  }

  /** The branches of both directions: f is applied to every block, whatever the machine offers. */
  method TransformBlocks(f: seq<Byte> -> seq<Byte>, cpu: Cpu, cipher: int, data: array<Byte>, blockCount: nat)
    requires KeepsBlocks(f) && BLOCK * blockCount <= data.Length
    modifies data
    ensures Done(f, old(data[..]), data[..], BLOCK * blockCount)
  {
    ghost var was := data[..];
    var pos, left := 0, blockCount;
    assert was[..0] == [];
    if cipher == AES && blockCount % 32 == 0 && cpu.aesHw {
      while left > 0
        invariant 0 <= left <= blockCount && left % 32 == 0 && pos == BLOCK * (blockCount - left)
        invariant Done(f, was, data[..], pos)
      {
        Advance(f, data, pos, 32, was);
        pos, left := pos + 32 * BLOCK, left - 32;
      }
    } else if (cipher == SERPENT && blockCount >= 4 && cpu.sse2)
           || (cipher == TWOFISH && cpu.x64Asm)
           || (cipher == CAMELLIA && cpu.x64Asm)
           || (cipher == KUZNYECHIK && cpu.sse2) {
      Advance(f, data, 0, blockCount, was);
      pos := BLOCK * blockCount;
    } else {
      while left > 0
        invariant 0 <= left <= blockCount && pos == BLOCK * (blockCount - left)
        invariant Done(f, was, data[..], pos)
      {
        Advance(f, data, pos, 1, was);
        pos, left := pos + BLOCK, left - 1;
      }
    }
    assert pos == BLOCK * blockCount;
  }

  method EncipherBlocks(b: BlockCipher, cpu: Cpu, cipher: int, data: array<Byte>, blockCount: nat)
    requires Lawful(b) && BLOCK * blockCount <= data.Length
    modifies data
    ensures Done(b.enc, old(data[..]), data[..], BLOCK * blockCount)
  {
    TransformBlocks(b.enc, cpu, cipher, data, blockCount);
  }

  method DecipherBlocks(b: BlockCipher, cpu: Cpu, cipher: int, data: array<Byte>, blockCount: nat)
    requires Lawful(b) && BLOCK * blockCount <= data.Length
    modifies data
    ensures Done(b.dec, old(data[..]), data[..], BLOCK * blockCount)
  {
    TransformBlocks(b.dec, cpu, cipher, data, blockCount);
  }

  /** Runs enciphered on one machine are deciphered on any other, and the other way round. */
  lemma RunsUndoEachOther(b: BlockCipher, data: seq<Byte>)
    requires Lawful(b) && |data| % BLOCK == 0
    ensures |EachBlock(b.enc, data)| == |EachBlock(b.dec, data)| == |data|
    ensures EachBlock(b.dec, EachBlock(b.enc, data)) == data
    ensures EachBlock(b.enc, EachBlock(b.dec, data)) == data
  {
    EachBlockInverse(b.enc, b.dec, data);
    EachBlockInverse(b.dec, b.enc, data);
  }
}
