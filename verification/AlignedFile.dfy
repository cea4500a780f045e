/** Byte-granular file access on devices that transfer only multiples of 4096 bytes. */
module AlignedFile {
  import opened Base

  const ALIGNMENT := 4096
  const TC_SECTOR_SIZE_BIOS := 512

  // -------------------------------------------------------------------------
  // The operating system's side
  // -------------------------------------------------------------------------

  datatype Error = InvalidParameter | WriteProtect | OtherError

  /** What the next system call meets. */
  datatype Luck = Fine | Fails(code: Error)

  /** An open handle: the medium, the file pointer, the error of the last failed call, and what calls to come meet. */
  datatype Handle = Handle(bytes: seq<Byte>, pos: nat, strict: bool, lastError: Error, script: seq<Luck>)

  function Min(a: int, b: int): int {
    if a < b then a else b
  }

  function Meets(h: Handle): Luck {
    if h.script == [] then Fine else h.script[0]
  }

  function Next(h: Handle): Handle {
    if h.script == [] then h else h.(script := h.script[1..])
  }

  /** How many bytes a transfer of size bytes reaches before the end of the medium. */
  function Reach(h: Handle, size: nat): (n: nat)
    ensures n <= size && (n > 0 ==> h.pos + n <= |h.bytes|)
  {
    if h.pos <= |h.bytes| then Min(size, |h.bytes| - h.pos) else 0
  }

  /** The bytes an ideal byte-addressed device has for a read of size bytes. */
  function Ahead(h: Handle, size: nat): (r: seq<Byte>)
    ensures |r| <= size
  {
    if h.pos <= |h.bytes| then h.bytes[h.pos..h.pos + Min(size, |h.bytes| - h.pos)] else []
  }

  /** Whether a transfer of this size fails, and how. */
  function Verdict(h: Handle, size: nat): Luck {
    if Meets(h).Fails? then Meets(h)
    else if h.strict && size % ALIGNMENT != 0 then Fails(InvalidParameter)
    else Fine
  }

  function AfterFailure(h: Handle, code: Error): Handle {
    Next(h).(lastError := code)
  }

  /** A failed transfer moves nothing; a successful one moves what it reaches and advances the pointer by that. */
  function ReadFile(h: Handle, size: nat): (Handle, Option<seq<Byte>>) {
    match Verdict(h, size)
    case Fails(code) => (AfterFailure(h, code), None)
    case Fine =>
      (Next(h).(pos := h.pos + |Ahead(h, size)|), Some(Ahead(h, size)))
  }

  function WriteFile(h: Handle, data: seq<Byte>): (Handle, Option<nat>) {
    match Verdict(h, |data|)
    case Fails(code) => (AfterFailure(h, code), None)
    case Fine =>
      var n := Reach(h, |data|);
      (Next(h).(pos := h.pos + n, bytes := if n == 0 then h.bytes else Spliced(h.bytes, h.pos, data[..n])), Some(n))
  }

  /** Moving the pointer backward from where it is. */
  function MoveBack(h: Handle, distance: nat): (Handle, bool) {
    if Meets(h).Fails? then (AfterFailure(h, Meets(h).code), false)
    else if distance > h.pos then (AfterFailure(h, OtherError), false)
    else (Next(h).(pos := h.pos - distance), true)
  }

  /** The driver call that writes one sector of the boot drive, here the same medium. */
  function WriteBootDriveSector(h: Handle, offset: nat, sector: seq<Byte>): (Handle, bool) {
    if Meets(h).Fails? || offset + |sector| > |h.bytes| then
      (AfterFailure(h, if Meets(h).Fails? then Meets(h).code else OtherError), false)
    else (Next(h).(bytes := Spliced(h.bytes, offset, sector)), true)
  }

  // -------------------------------------------------------------------------
  // What File::Read gets from the medium
  // -------------------------------------------------------------------------

  /** The incomplete block after the bytes already read, with the pointer put back behind what was asked for. */
  function BlockRead(h: Handle, front: seq<Byte>, remaining: nat): (Handle, Option<seq<Byte>>) {
    var (h1, block) := ReadFile(h, ALIGNMENT);
    if block == None then (h1, None)
    else
      var effective := Min(|block.value|, remaining);
      var (h2, moved) := MoveBack(h1, |block.value| - effective);
      (h2, if moved then Some(front + block.value[..effective]) else None)
  }

  function FallbackRead(h: Handle, size: nat): (Handle, Option<seq<Byte>>) {
    var aligned := size - size % ALIGNMENT;
    if aligned == 0 then BlockRead(h, [], size % ALIGNMENT)
    else
      var (h1, front) := ReadFile(h, aligned);
      if front == None || |front.value| < aligned then (h1, front)
      else BlockRead(h1, front.value, size % ALIGNMENT)
  }

  /** The bytes a read of size bytes delivers, None when it throws. */
  function ReadOutcome(h: Handle, isDevice: bool, size: nat): (Handle, Option<seq<Byte>>) {
    var (h1, got) := ReadFile(h, size);
    if got == None && h1.lastError == InvalidParameter && isDevice && size % ALIGNMENT != 0
    then FallbackRead(h1, size) else (h1, got)
  }

  lemma BlockReadIsIdeal(h: Handle, front: seq<Byte>, remaining: nat)
    requires remaining < ALIGNMENT && BlockRead(h, front, remaining).1.Some?
    ensures var (h', data) := BlockRead(h, front, remaining);
            && h'.bytes == h.bytes && h'.pos == h.pos + |Ahead(h, remaining)|
            && data.value == front + Ahead(h, remaining)
  {
    AheadShorter(h, remaining, ALIGNMENT);
  }

  /** Reading a part and then the rest is reading the whole. */
  lemma AheadSplits(h: Handle, h': Handle, a: nat, b: nat)
    requires h'.bytes == h.bytes && h'.pos == h.pos + a && |Ahead(h, a)| == a
    ensures Ahead(h, a) + Ahead(h', b) == Ahead(h, a + b)
  {
  }

  lemma AheadShorter(h: Handle, a: nat, b: nat)
    requires a <= b
    ensures Ahead(h, b)[..Min(|Ahead(h, b)|, a)] == Ahead(h, a)
  {
  }

  /** A read that returns has delivered what an ideal device would, and left the pointer right behind it. */
  lemma ReadIsIdeal(h: Handle, isDevice: bool, size: nat)
    requires ReadOutcome(h, isDevice, size).1.Some?
    ensures var (h', data) := ReadOutcome(h, isDevice, size);
            h'.bytes == h.bytes && h'.pos == h.pos + |data.value| && data.value == Ahead(h, size)
  {
    var (h1, got) := ReadFile(h, size);
    if got == None {
      FallbackReadIsIdeal(h1, size);
    }
  }

  lemma FallbackReadIsIdeal(h: Handle, size: nat)
    requires FallbackRead(h, size).1.Some?
    ensures var (h', data) := FallbackRead(h, size);
            h'.bytes == h.bytes && h'.pos == h.pos + |data.value| && data.value == Ahead(h, size)
  {
    hide BlockRead, Ahead;
    var aligned, remaining := size - size % ALIGNMENT, size % ALIGNMENT;
    if aligned == 0 {
      BlockReadIsIdeal(h, [], remaining);
    } else {
      var (h1, front) := ReadFile(h, aligned);
      if |front.value| == aligned {
        BlockReadIsIdeal(h1, front.value, remaining);
        AheadSplits(h, h1, aligned, remaining);
      } else {
        AheadAtEnd(h, aligned, size);
      }
    }
  }

  lemma AheadAtEnd(h: Handle, a: nat, b: nat)
    requires a <= b && |Ahead(h, a)| < a
    ensures Ahead(h, b) == Ahead(h, a)
  {
  }

  // -------------------------------------------------------------------------
  // What File::Write does to the medium
  // -------------------------------------------------------------------------

  /** Written, or an exception; rest is what the buffer pointer still pointed at when it was thrown. */
  datatype Direct = Written | Thrown(code: Error, rest: seq<Byte>)

  /** Read-modify-write of the last, incomplete block. */
  function BlockWrite(h: Handle, rest: seq<Byte>): (Handle, Direct)
    requires |rest| < ALIGNMENT
  {
    var (h1, got) := ReadFile(h, ALIGNMENT);
    if got == None || |got.value| != ALIGNMENT then (h1, Thrown(h1.lastError, rest))
    else
      var (h2, moved) := MoveBack(h1, ALIGNMENT);
      if !moved then (h2, Thrown(h2.lastError, rest))
      else
        var (h3, n) := WriteFile(h2, rest + got.value[|rest|..]);
        if n == Some(ALIGNMENT) then (h3, Written) else (h3, Thrown(h3.lastError, rest))
  }

  function FallbackWrite(h: Handle, data: seq<Byte>): (Handle, Direct) {
    var aligned := |data| - |data| % ALIGNMENT;
    if aligned == 0 then BlockWrite(h, data)
    else
      var (h1, n) := WriteFile(h, data[..aligned]);
      if n == Some(aligned) then BlockWrite(h1, data[aligned..]) else (h1, Thrown(h1.lastError, data))
  }

  function DirectWrite(h: Handle, isDevice: bool, readOnly: bool, data: seq<Byte>): (Handle, Direct) {
    var (h1, n) := WriteFile(h, data);
    if n == Some(|data|) then (h1, Written)
    else if n == None && h1.lastError == InvalidParameter && isDevice && !readOnly && |data| % ALIGNMENT != 0 then
      FallbackWrite(h1, data)
    else (h1, Thrown(h1.lastError, data))
  }

  /** The write-protection fallback: whole sectors through the driver, from the remembered position on. */
  function SectorWrites(h: Handle, at: nat, rest: seq<Byte>): (Handle, bool)
    decreases |rest|
  {
    if |rest| < TC_SECTOR_SIZE_BIOS then (h, true)
    else
      var (h1, ok) := WriteBootDriveSector(h, at, rest[..TC_SECTOR_SIZE_BIOS]);
      if ok then SectorWrites(h1, at + TC_SECTOR_SIZE_BIOS, rest[TC_SECTOR_SIZE_BIOS..]) else (h1, false)
  }

  /** The medium after a write at the remembered position at, and whether the call returned normally. */
  function WriteOutcome(h: Handle, isDevice: bool, readOnly: bool, at: nat, data: seq<Byte>): (Handle, bool) {
    var (h1, r) := DirectWrite(h, isDevice, readOnly, data);
    match r
    case Written => (h1, true)
    case Thrown(code, rest) =>
      if isDevice && code == WriteProtect then SectorWrites(h1, at, rest) else (h1, false)
  }

  /**
   * Every byte outside [at, at + |data|) is as before, and every byte inside is the old one or the one to be
   * written.
   */
  ghost predicate OldOrNew(before: seq<Byte>, after: seq<Byte>, at: nat, data: seq<Byte>) {
    |before| == |after| &&
    forall i | 0 <= i < |before| :: after[i] == before[i] || (at <= i < at + |data| && after[i] == data[i - at])
  }

  /** Nothing of what is still to come, nor the error remembered from before, is a write protection error. */
  ghost predicate NeverProtected(h: Handle) {
    h.lastError != WriteProtect && forall i | 0 <= i < |h.script| :: h.script[i] != Fails(WriteProtect)
  }

  ghost predicate Exact(before: seq<Byte>, after: seq<Byte>, at: nat, data: seq<Byte>) {
    if data == [] then after == before
    else at + |data| <= |before| && after == Spliced(before, at, data)
  }

  lemma NothingWritten(before: seq<Byte>, at: nat, data: seq<Byte>)
    ensures OldOrNew(before, before, at, data)
  {
  }

  /** A part written and then the rest is the whole written; anything less still is old or new byte by byte. */
  lemma WrittenInParts(a: seq<Byte>, b: seq<Byte>, c: seq<Byte>, at: nat, data: seq<Byte>, k: nat)
    requires k <= |data| && OldOrNew(a, b, at, data[..k]) && OldOrNew(b, c, at + k, data[k..])
    ensures OldOrNew(a, b, at, data) && OldOrNew(a, c, at, data)
    ensures Exact(a, b, at, data[..k]) && Exact(b, c, at + k, data[k..]) ==> Exact(a, c, at, data)
  {
  }

  /** Writing back bytes that are already there after the data changes nothing more. */
  lemma PaddedWithOld(a: seq<Byte>, b: seq<Byte>, at: nat, data: seq<Byte>, n: nat)
    requires |data| <= n && at + n <= |a|
    requires OldOrNew(a, b, at, data + a[at + |data|..at + n])
    ensures OldOrNew(a, b, at, data)
    ensures Exact(a, b, at, data + a[at + |data|..at + n]) ==> Exact(a, b, at, data)
  {
  }

  lemma WriteFileFacts(h: Handle, data: seq<Byte>)
    ensures var (h', n) := WriteFile(h, data);
            && OldOrNew(h.bytes, h'.bytes, h.pos, data)
            && (n == Some(|data|) ==> Exact(h.bytes, h'.bytes, h.pos, data) && h'.pos == h.pos + |data|)
            && (n == None ==> h'.bytes == h.bytes && h'.pos == h.pos)
            && (NeverProtected(h) ==> NeverProtected(h'))
  {
  }

  lemma AheadFull(h: Handle, n: nat, k: nat)
    requires |Ahead(h, n)| == n > 0 && k <= n
    ensures h.pos + n <= |h.bytes| && Ahead(h, n)[k..] == h.bytes[h.pos + k..h.pos + n]
  {
  }

  lemma BlockWriteFacts(h: Handle, rest: seq<Byte>)
    requires |rest| < ALIGNMENT
    ensures var (h', r) := BlockWrite(h, rest);
            && OldOrNew(h.bytes, h'.bytes, h.pos, rest)
            && (r == Written ==> Exact(h.bytes, h'.bytes, h.pos, rest))
            && (r != Written ==> r.rest == rest && r.code == h'.lastError)
            && (NeverProtected(h) ==> NeverProtected(h'))
  {
    hide WriteFile, OldOrNew, Exact, Spliced, Ahead;
    NothingWritten(h.bytes, h.pos, rest);
    var (h1, got) := ReadFile(h, ALIGNMENT);
    if got.Some? && |got.value| == ALIGNMENT {
      var (h2, moved) := MoveBack(h1, ALIGNMENT);
      if moved {
        WriteFileFacts(h2, rest + got.value[|rest|..]);
        AheadFull(h, ALIGNMENT, |rest|);
        PaddedWithOld(h.bytes, WriteFile(h2, rest + got.value[|rest|..]).0.bytes, h.pos, rest, ALIGNMENT);
      }
    }
  }

  /** What is left to write after an exception: everything, or just the incomplete block. */
  predicate Leaves(data: seq<Byte>, rest: seq<Byte>) {
    rest == data || (|data| > ALIGNMENT && |data| % ALIGNMENT != 0 && rest == data[|data| - |data| % ALIGNMENT..])
  }

  lemma FallbackWriteFacts(h: Handle, data: seq<Byte>)
    requires |data| % ALIGNMENT != 0
    ensures var (h', r) := FallbackWrite(h, data);
            && OldOrNew(h.bytes, h'.bytes, h.pos, data)
            && (r == Written ==> Exact(h.bytes, h'.bytes, h.pos, data))
            && (r != Written ==> Leaves(data, r.rest) && r.code == h'.lastError)
            && (NeverProtected(h) ==> NeverProtected(h'))
  {
    hide BlockWrite, WriteFile, OldOrNew, Exact;
    var aligned := |data| - |data| % ALIGNMENT;
    if aligned == 0 {
      BlockWriteFacts(h, data);
    } else {
      var (h1, n) := WriteFile(h, data[..aligned]);
      WriteFileFacts(h, data[..aligned]);
      NothingWritten(h1.bytes, h.pos + aligned, data[aligned..]);
      WrittenInParts(h.bytes, h1.bytes, h1.bytes, h.pos, data, aligned);
      if n == Some(aligned) {
        BlockWriteFacts(h1, data[aligned..]);
        WrittenInParts(h.bytes, h1.bytes, BlockWrite(h1, data[aligned..]).0.bytes, h.pos, data, aligned);
      }
    }
  }

  lemma DirectWriteFacts(h: Handle, isDevice: bool, readOnly: bool, data: seq<Byte>)
    ensures var (h', r) := DirectWrite(h, isDevice, readOnly, data);
            && OldOrNew(h.bytes, h'.bytes, h.pos, data)
            && (r == Written ==> Exact(h.bytes, h'.bytes, h.pos, data))
            && (r != Written ==> Leaves(data, r.rest) && r.code == h'.lastError)
            && (NeverProtected(h) ==> NeverProtected(h'))
  {
    hide FallbackWrite, WriteFile, OldOrNew, Exact;
    var (h1, n) := WriteFile(h, data);
    WriteFileFacts(h, data);
    if n == None && |data| % ALIGNMENT != 0 {
      FallbackWriteFacts(h1, data);
    }
  }

  /** The whole sectors of what is left. */
  function Sectors(rest: seq<Byte>): seq<Byte> {
    rest[..|rest| - |rest| % TC_SECTOR_SIZE_BIOS]
  }

  lemma SectorFacts(h: Handle, at: nat, sector: seq<Byte>)
    ensures var (h', ok) := WriteBootDriveSector(h, at, sector);
            OldOrNew(h.bytes, h'.bytes, at, sector) && (ok ==> Exact(h.bytes, h'.bytes, at, sector))
  {
  }

  lemma {:induction false} SectorWritesFacts(h: Handle, at: nat, rest: seq<Byte>)
    ensures var (h', ok) := SectorWrites(h, at, rest);
            OldOrNew(h.bytes, h'.bytes, at, Sectors(rest)) && (ok ==> Exact(h.bytes, h'.bytes, at, Sectors(rest)))
    decreases |rest|
  {
    hide WriteBootDriveSector, OldOrNew, Exact;
    NothingWritten(h.bytes, at, Sectors(rest));
    if |rest| < TC_SECTOR_SIZE_BIOS {
      assert Sectors(rest) == [];
      assert Exact(h.bytes, h.bytes, at, []) by { ExactNothing(h.bytes, at); }
    } else {
      var first, others := rest[..TC_SECTOR_SIZE_BIOS], rest[TC_SECTOR_SIZE_BIOS..];
      var (h1, ok) := WriteBootDriveSector(h, at, first);
      SectorFacts(h, at, first);
      SectorWritesFacts(h1, at + TC_SECTOR_SIZE_BIOS, others);
      assert Sectors(rest)[..TC_SECTOR_SIZE_BIOS] == first && Sectors(rest)[TC_SECTOR_SIZE_BIOS..] == Sectors(others);
      WrittenInParts(h.bytes, h1.bytes, SectorWrites(h1, at + TC_SECTOR_SIZE_BIOS, others).0.bytes,
                     at, Sectors(rest), TC_SECTOR_SIZE_BIOS);
    }
  }

  lemma ExactNothing(before: seq<Byte>, at: nat)
    ensures Exact(before, before, at, [])
  {
  }

  /** Whatever fails, no byte outside the range to be written changes. */
  lemma WriteStaysInRange(h: Handle, isDevice: bool, readOnly: bool, data: seq<Byte>)
    ensures var (h', ok) := WriteOutcome(h, isDevice, readOnly, h.pos, data);
            && |h'.bytes| == |h.bytes|
            && forall i | 0 <= i < |h.bytes| && !(h.pos <= i < h.pos + |data|) :: h'.bytes[i] == h.bytes[i]
  {
    hide DirectWrite, SectorWrites;
    var (h1, r) := DirectWrite(h, isDevice, readOnly, data);
    DirectWriteFacts(h, isDevice, readOnly, data);
    if r != Written {
      SectorWritesFacts(h1, h.pos, r.rest);
    }
  }

  /** Sizes whose last, incomplete block holds no whole sector behind an aligned part. */
  predicate NothingToMisplace(n: nat) {
    n < ALIGNMENT || n % ALIGNMENT < TC_SECTOR_SIZE_BIOS
  }

  lemma OldOrNewTwice(a: seq<Byte>, b: seq<Byte>, c: seq<Byte>, at: nat, data: seq<Byte>, k: nat)
    requires k <= |data| && OldOrNew(a, b, at, data) && OldOrNew(b, c, at, data[..k])
    ensures OldOrNew(a, c, at, data)
  {
  }

  /** With a safe size everything is left, and it is whole sectors. */
  lemma SafeSizeLeavesAll(data: seq<Byte>, rest: seq<Byte>)
    requires SafeSize(|data|) && Leaves(data, rest)
    ensures rest == data && Sectors(data) == data
  {
    if |data| % ALIGNMENT == 0 {
      BlocksAreSectors(|data|);
    }
    assert data[..|data|] == data;
  }

  lemma BlocksAreSectors(n: nat)
    requires n % ALIGNMENT == 0
    ensures n % TC_SECTOR_SIZE_BIOS == 0
  {
    var blocks := n / ALIGNMENT;
    assert n == TC_SECTOR_SIZE_BIOS * (8 * blocks);
  }

  lemma ExactOverOldOrNew(a: seq<Byte>, b: seq<Byte>, c: seq<Byte>, at: nat, data: seq<Byte>)
    requires OldOrNew(a, b, at, data) && Exact(b, c, at, data)
    ensures Exact(a, c, at, data)
  {
  }

  lemma SectorsInFront(data: seq<Byte>, rest: seq<Byte>)
    requires NothingToMisplace(|data|) && Leaves(data, rest)
    ensures |Sectors(rest)| <= |data| && Sectors(rest) == data[..|Sectors(rest)|]
  {
  }

  /** For these sizes every byte is the old one or the one to be written there, whatever fails. */
  lemma SmallWriteOldOrNew(h: Handle, isDevice: bool, readOnly: bool, data: seq<Byte>)
    requires NothingToMisplace(|data|)
    ensures OldOrNew(h.bytes, WriteOutcome(h, isDevice, readOnly, h.pos, data).0.bytes, h.pos, data)
  {
    hide DirectWrite, SectorWrites, OldOrNew, Exact, Leaves, Sectors;
    var (h1, r) := DirectWrite(h, isDevice, readOnly, data);
    DirectWriteFacts(h, isDevice, readOnly, data);
    if r != Written {
      SectorWritesFacts(h1, h.pos, r.rest);
      var whole := Sectors(r.rest);
      SectorsInFront(data, r.rest);
      OldOrNewTwice(h.bytes, h1.bytes, SectorWrites(h1, h.pos, r.rest).0.bytes, h.pos, data, |whole|);
    }
  }

  /** Without a write protection error a write that returns has changed exactly its range, to exactly its data. */
  lemma UnprotectedWriteExact(h: Handle, isDevice: bool, readOnly: bool, data: seq<Byte>)
    requires NeverProtected(h) && WriteOutcome(h, isDevice, readOnly, h.pos, data).1
    ensures Exact(h.bytes, WriteOutcome(h, isDevice, readOnly, h.pos, data).0.bytes, h.pos, data)
  {
    DirectWriteFacts(h, isDevice, readOnly, data);
  }

  /** Sizes for which even the write protection fallback does what it should. */
  predicate SafeSize(n: nat) {
    n % ALIGNMENT == 0 || (n < ALIGNMENT && n % TC_SECTOR_SIZE_BIOS == 0)
  }

  /**
   * Right after a seek, that is with the remembered position being the handle's, and for these sizes, all is
   * written.
   */
  lemma SafeSizeWriteExact(h: Handle, isDevice: bool, readOnly: bool, data: seq<Byte>)
    requires SafeSize(|data|) && WriteOutcome(h, isDevice, readOnly, h.pos, data).1
    ensures Exact(h.bytes, WriteOutcome(h, isDevice, readOnly, h.pos, data).0.bytes, h.pos, data)
  {
    hide DirectWrite, SectorWrites, OldOrNew, Exact, Leaves, SafeSize, Sectors;
    var (h1, r) := DirectWrite(h, isDevice, readOnly, data);
    DirectWriteFacts(h, isDevice, readOnly, data);
    if r != Written {
      SafeSizeLeavesAll(data, r.rest);
      SectorWritesFacts(h1, h.pos, data);
      ExactOverOldOrNew(h.bytes, h1.bytes, SectorWrites(h1, h.pos, data).0.bytes, h.pos, data);
    }
  }

  lemma {:induction false} SectorsSucceed(h: Handle, at: nat, rest: seq<Byte>)
    requires h.script == [] && at + |rest| <= |h.bytes|
    ensures SectorWrites(h, at, rest).1
    decreases |rest|
  {
    hide Spliced;
    if |rest| >= TC_SECTOR_SIZE_BIOS {
      var (h1, ok) := WriteBootDriveSector(h, at, rest[..TC_SECTOR_SIZE_BIOS]);
      assert ok && h1.script == [] && |h1.bytes| == |h.bytes|;
      SectorsSucceed(h1, at + TC_SECTOR_SIZE_BIOS, rest[TC_SECTOR_SIZE_BIOS..]);
    }
  }

  /** The handle fails with a write protection error: the data is left to the sector writes. */
  lemma ProtectedAtOnce(h: Handle, data: seq<Byte>) returns (h1: Handle)
    requires h.script == [Fails(WriteProtect)]
    ensures DirectWrite(h, true, false, data) == (h1, Thrown(WriteProtect, data))
    ensures h1.bytes == h.bytes && h1.script == []
  {
    h1 := AfterFailure(h, WriteProtect);
  }

  /** The end of the data, short of a sector, is silently dropped. */
  lemma TailDropped(n: nat) returns (h: Handle, data: seq<Byte>)
    requires n % TC_SECTOR_SIZE_BIOS != 0
    ensures |data| == n && WriteOutcome(h, true, false, h.pos, data).1
    ensures !Exact(h.bytes, WriteOutcome(h, true, false, h.pos, data).0.bytes, h.pos, data)
  {
    hide DirectWrite, SectorWrites, Exact, OldOrNew;
    h, data := Handle(Repeated<Byte>(0, n), 0, false, OtherError, [Fails(WriteProtect)]), Repeated<Byte>(1, n);
    var h1 := ProtectedAtOnce(h, data);
    SectorsSucceed(h1, 0, data);
    SectorWritesFacts(h1, 0, data);
    var after := SectorWrites(h1, 0, data).0.bytes;
    assert h.bytes[n - 1] == 0 && data[n - 1] == 1;
    ExactAt(h.bytes, after, 0, Sectors(data), n - 1);
    if Exact(h.bytes, after, 0, data) {
      ExactAt(h.bytes, after, 0, data, n - 1);
    }
  }

  /** After an exact write a byte is the one written there, or as before. */
  lemma ExactAt(before: seq<Byte>, after: seq<Byte>, at: nat, data: seq<Byte>, i: nat)
    requires Exact(before, after, at, data) && i < |before|
    ensures |after| == |before| && after[i] == if at <= i < at + |data| then data[i - at] else before[i]
  {
  }

  lemma ExactIsOldOrNew(before: seq<Byte>, after: seq<Byte>, at: nat, data: seq<Byte>)
    requires Exact(before, after, at, data)
    ensures OldOrNew(before, after, at, data)
  {
  }

  /** After the aligned part has been written, the sectors of the last block go to the start of the range. */
  lemma LastBlockMisplaced(n: nat) returns (h: Handle, data: seq<Byte>)
    requires !NothingToMisplace(n)
    ensures |data| == n && WriteOutcome(h, true, false, h.pos, data).1
    ensures !OldOrNew(h.bytes, WriteOutcome(h, true, false, h.pos, data).0.bytes, h.pos, data)
    ensures !Exact(h.bytes, WriteOutcome(h, true, false, h.pos, data).0.bytes, h.pos, data)
  {
    hide DirectWrite, SectorWrites, Exact, OldOrNew;
    var aligned := n - n % ALIGNMENT;
    var rest := Repeated<Byte>(1, n % ALIGNMENT);
    data := Repeated<Byte>(0, aligned) + rest;
    h := Handle(Repeated<Byte>(0, n + ALIGNMENT), 0, true, OtherError, [Fine, Fine, Fine, Fine, Fails(WriteProtect)]);
    assert data[..aligned] == Repeated<Byte>(0, aligned) && data[aligned..] == rest;
    var h5 := AlignedThenProtected(h, data);
    SectorsSucceed(h5, 0, rest);
    SectorWritesFacts(h5, 0, rest);
    var after := SectorWrites(h5, 0, rest).0.bytes;
    assert |Sectors(rest)| > 0 && Sectors(rest)[0] == 1 && data[0] == 0 && h.bytes[0] == 0;
    ExactAt(h5.bytes, after, 0, Sectors(rest), 0);
    NeitherOldNorNew(h.bytes, after, 0, data, 0);
    if Exact(h.bytes, after, 0, data) {
      ExactIsOldOrNew(h.bytes, after, 0, data);
    }
  }

  lemma NeitherOldNorNew(before: seq<Byte>, after: seq<Byte>, at: nat, data: seq<Byte>, i: nat)
    requires i < |before| == |after| && at <= i < at + |data| && after[i] != before[i] && after[i] != data[i - at]
    ensures !OldOrNew(before, after, at, data)
  {
  }

  /** Whatever fails right after a seek, every byte is the old one or the one to be written there. */
  ghost predicate AlwaysOldOrNew(n: nat) {
    forall h: Handle, data: seq<Byte> | |data| == n ::
      OldOrNew(h.bytes, WriteOutcome(h, true, false, h.pos, data).0.bytes, h.pos, data)
  }

  /** A write on a writable device can put bytes in wrong places exactly when there are sectors to misplace. */
  lemma OldOrNewExactly(n: nat)
    ensures AlwaysOldOrNew(n) <==> NothingToMisplace(n)
  {
    hide WriteOutcome, OldOrNew;
    if NothingToMisplace(n) {
      forall h: Handle, data: seq<Byte> | |data| == n
        ensures OldOrNew(h.bytes, WriteOutcome(h, true, false, h.pos, data).0.bytes, h.pos, data)
      {
        SmallWriteOldOrNew(h, true, false, data);
      }
    } else {
      var h, data := LastBlockMisplaced(n);
    }
  }

  lemma AlignedThenProtected(h: Handle, data: seq<Byte>) returns (h5: Handle)
    requires |data| > ALIGNMENT && |data| % ALIGNMENT != 0
    requires h.strict && h.script == [Fine, Fine, Fine, Fine, Fails(WriteProtect)]
    requires h.pos + |data| + ALIGNMENT <= |h.bytes|
    ensures DirectWrite(h, true, false, data) == (h5, Thrown(WriteProtect, data[|data| - |data| % ALIGNMENT..]))
    ensures |h5.bytes| == |h.bytes| && h5.script == []
  {
    hide BlockWrite, Spliced;
    var aligned := |data| - |data| % ALIGNMENT;
    var h1 := AfterFailure(h, InvalidParameter);
    assert h1.script == [Fine, Fine, Fine, Fails(WriteProtect)];
    var (h2, n) := WriteFile(h1, data[..aligned]);
    assert n == Some(aligned) && h2.script == [Fine, Fine, Fails(WriteProtect)] && |h2.bytes| == |h.bytes|;
    h5 := BlockProtected(h2, data[aligned..]);
  }

  lemma BlockProtected(h: Handle, rest: seq<Byte>) returns (h': Handle)
    requires |rest| < ALIGNMENT && h.pos + ALIGNMENT <= |h.bytes|
    requires h.script == [Fine, Fine, Fails(WriteProtect)]
    ensures BlockWrite(h, rest) == (h', Thrown(WriteProtect, rest))
    ensures h'.bytes == h.bytes && h'.script == []
  {
    hide Spliced;
    var (h1, got) := ReadFile(h, ALIGNMENT);
    assert got.Some? && |got.value| == ALIGNMENT && h1.script == [Fine, Fails(WriteProtect)];
    var (h2, moved) := MoveBack(h1, ALIGNMENT);
    assert moved && h2.script == [Fails(WriteProtect)];
    h' := AfterFailure(h2, WriteProtect);
    assert h'.script == [];
  }

  /** Right after a seek, the data given are exactly what a write that returns has left, whatever fails on the way. */
  ghost predicate AlwaysExact(n: nat) {
    forall h: Handle, data: seq<Byte> | |data| == n && WriteOutcome(h, true, false, h.pos, data).1 ::
      Exact(h.bytes, WriteOutcome(h, true, false, h.pos, data).0.bytes, h.pos, data)
  }

  /** On a writable device right after a seek, returning means having written exactly when the size is a safe one. */
  lemma ExactForSafeSizes(n: nat)
    ensures AlwaysExact(n) <==> SafeSize(n)
  {
    hide WriteOutcome, Exact;
    if SafeSize(n) {
      forall h: Handle, data: seq<Byte> | |data| == n && WriteOutcome(h, true, false, h.pos, data).1
        ensures Exact(h.bytes, WriteOutcome(h, true, false, h.pos, data).0.bytes, h.pos, data)
      {
        SafeSizeWriteExact(h, true, false, data);
      }
    } else if n % TC_SECTOR_SIZE_BIOS != 0 {
      var h, data := TailDropped(n);
    } else {
      var h, data := LastBlockMisplaced(n);
    }
  }

  /**
   * The same wherever the remembered position is, as after an earlier transfer without a new seek: the
   * data are then expected at the remembered position, or at the handle's.
   */
  ghost predicate AlwaysExactUnsought(n: nat, remembered: bool) {
    forall h: Handle, at: nat, data: seq<Byte> | |data| == n && WriteOutcome(h, true, false, at, data).1 ::
      Exact(h.bytes, WriteOutcome(h, true, false, at, data).0.bytes, if remembered then at else h.pos, data)
  }

  /** Without a seek only the empty write is reliable, at either position. */
  lemma ExactUnsoughtOnlyNothing(n: nat, remembered: bool)
    ensures AlwaysExactUnsought(n, remembered) <==> n == 0
  {
    hide WriteOutcome, Exact;
    if n == 0 {
      forall h: Handle, at: nat, data: seq<Byte> | |data| == n && WriteOutcome(h, true, false, at, data).1
        ensures Exact(h.bytes, WriteOutcome(h, true, false, at, data).0.bytes, if remembered then at else h.pos, data)
      {
        NothingUnsought(h, at, if remembered then at else h.pos);
      }
    } else if remembered {
      var h, at, data := WrittenElsewhere(n);
    } else {
      var h, at, data := SectorsElsewhere(n);
    }
  }

  lemma NothingUnsought(h: Handle, at: nat, expected: nat)
    ensures Exact(h.bytes, WriteOutcome(h, true, false, at, []).0.bytes, expected, [])
  {
    hide DirectWrite;
    DirectWriteFacts(h, true, false, []);
  }

  /** An undisturbed write goes to the handle's position, not to the remembered one. */
  lemma WrittenElsewhere(n: nat) returns (h: Handle, at: nat, data: seq<Byte>)
    requires n > 0
    ensures |data| == n && WriteOutcome(h, true, false, at, data).1
    ensures !Exact(h.bytes, WriteOutcome(h, true, false, at, data).0.bytes, at, data)
  {
    hide Exact, FallbackWrite;
    h, at, data := Handle(Repeated<Byte>(0, 2 * n), n, false, OtherError, []), 0, Repeated<Byte>(1, n);
    assert data[..n] == data;
    var after := WriteOutcome(h, true, false, at, data).0.bytes;
    assert after == Spliced(h.bytes, n, data) && after[0] == 0 && data[0] == 1;
    if Exact(h.bytes, after, at, data) {
      ExactAt(h.bytes, after, at, data, 0);
    }
  }

  /** The sectors written after a write protection error go to the remembered position, not to the handle's. */
  lemma SectorsElsewhere(n: nat) returns (h: Handle, at: nat, data: seq<Byte>)
    requires n > 0
    ensures |data| == n && WriteOutcome(h, true, false, at, data).1
    ensures !Exact(h.bytes, WriteOutcome(h, true, false, at, data).0.bytes, h.pos, data)
  {
    hide DirectWrite, SectorWrites, Exact, OldOrNew;
    h, at := Handle(Repeated<Byte>(0, 2 * n), n, false, OtherError, [Fails(WriteProtect)]), 0;
    data := Repeated<Byte>(1, n);
    var h1 := ProtectedAtOnce(h, data);
    SectorsSucceed(h1, 0, data);
    SectorWritesFacts(h1, 0, data);
    var after := SectorWrites(h1, 0, data).0.bytes;
    ExactAt(h.bytes, after, 0, Sectors(data), n);
    assert after[n] == 0 && data[0] == 1;
    if Exact(h.bytes, after, n, data) {
      ExactAt(h.bytes, after, n, data, n);
    }
  }

  // -------------------------------------------------------------------------
  // When calls return
  // -------------------------------------------------------------------------

  /** A read that no call's failure disturbs returns exactly when the device takes its size, or blocks can be used. */
  lemma UndisturbedReadReturns(h: Handle, isDevice: bool, size: nat)
    requires h.script == []
    ensures ReadOutcome(h, isDevice, size).1.Some? <==> !h.strict || size % 4096 == 0 || isDevice
  {
    var (h1, got) := ReadFile(h, size);
    if got == None && isDevice {
      BlockReadReturns(h1, [], size % ALIGNMENT);
      var (h2, front) := ReadFile(h1, size - size % ALIGNMENT);
      if front.Some? {
        BlockReadReturns(h2, front.value, size % ALIGNMENT);
      }
    }
  }

  lemma BlockReadReturns(h: Handle, front: seq<Byte>, remaining: nat)
    requires h.script == []
    ensures BlockRead(h, front, remaining).1.Some?
  {
  }

  /** A first call that fails otherwise than with an invalid parameter ends the read. */
  lemma OtherFailureEndsRead(h: Handle, isDevice: bool, size: nat)
    requires Meets(h).Fails? && Meets(h).code != InvalidParameter
    ensures var (h', data) := ReadOutcome(h, isDevice, size);
            data == None && h'.bytes == h.bytes && h'.pos == h.pos && h'.lastError == Meets(h).code
  {
  }

  /** The range of a write is inside the medium, or empty. */
  predicate Fits(h: Handle, n: nat) {
    n == 0 || h.pos + n <= |h.bytes|
  }

  /**
   * A write right after a seek that no call's failure disturbs returns exactly when the device takes its
   * size and its range fits; or, on a writable device that does not take the size, when the blocks it
   * touches fit; or when an old write protection error is mistaken for one and the whole sectors fit.
   */
  lemma UndisturbedWriteReturns(h: Handle, isDevice: bool, readOnly: bool, data: seq<Byte>)
    requires h.script == []
    ensures WriteOutcome(h, isDevice, readOnly, h.pos, data).1
            <==> if !h.strict || |data| % 4096 == 0
                 then || Fits(h, |data|)
                      || (isDevice && h.lastError == WriteProtect && Fits(h, |data| - |data| % 512))
                 else isDevice && !readOnly && h.pos + |data| - |data| % 4096 + 4096 <= |h.bytes|
  {
    hide FallbackWrite, SectorWrites;
    var (h1, n) := WriteFile(h, data);
    if n == None && |data| % ALIGNMENT != 0 {
      FallbackReturns(h1, data);
    } else if n != Some(|data|) {
      SectorsReturn(h1, h.pos, data);
      if h1.bytes != h.bytes {
        assert |h1.bytes| == |h.bytes|;
      }
    }
  }

  lemma FallbackReturns(h: Handle, data: seq<Byte>)
    requires h.script == [] && |data| % ALIGNMENT != 0 && h.lastError == InvalidParameter
    ensures var r := FallbackWrite(h, data).1;
            if h.pos + |data| - |data| % ALIGNMENT + ALIGNMENT <= |h.bytes| then r == Written
            else r.Thrown? && r.code == InvalidParameter
  {
    hide BlockWrite;
    var aligned := |data| - |data| % ALIGNMENT;
    if aligned == 0 {
      BlockWriteReturns(h, data);
    } else {
      var (h1, n) := WriteFile(h, data[..aligned]);
      if n == Some(aligned) {
        BlockWriteReturns(h1, data[aligned..]);
      }
    }
  }

  lemma BlockWriteReturns(h: Handle, rest: seq<Byte>)
    requires h.script == [] && |rest| < ALIGNMENT
    ensures var (h', r) := BlockWrite(h, rest);
            if h.pos + ALIGNMENT <= |h.bytes| then r == Written else r == Thrown(h.lastError, rest)
  {
    hide Spliced;
    var (h1, got) := ReadFile(h, ALIGNMENT);
    if got.Some? && |got.value| == ALIGNMENT {
      var (h2, moved) := MoveBack(h1, ALIGNMENT);
      assert moved && h2.pos == h.pos && h2.bytes == h.bytes;
    }
  }

  lemma {:induction false} SectorsReturn(h: Handle, at: nat, rest: seq<Byte>)
    requires h.script == []
    ensures SectorWrites(h, at, rest).1
            <==> |rest| < TC_SECTOR_SIZE_BIOS || at + |rest| - |rest| % TC_SECTOR_SIZE_BIOS <= |h.bytes|
    decreases |rest|
  {
    hide Spliced;
    if |rest| >= TC_SECTOR_SIZE_BIOS {
      var (h1, ok) := WriteBootDriveSector(h, at, rest[..TC_SECTOR_SIZE_BIOS]);
      if ok {
        SectorsReturn(h1, at + TC_SECTOR_SIZE_BIOS, rest[TC_SECTOR_SIZE_BIOS..]);
      }
    }
  }

  /** A first call that fails otherwise than with an invalid parameter or write protection ends the write untouched. */
  lemma OtherFailureEndsWrite(h: Handle, isDevice: bool, readOnly: bool, at: nat, data: seq<Byte>)
    requires Meets(h) == Fails(OtherError)
    ensures var (h', ok) := WriteOutcome(h, isDevice, readOnly, at, data);
            !ok && h'.bytes == h.bytes && h'.pos == h.pos && h'.lastError == OtherError
  {
  }

  /** Write protection met at once on a device leaves everything to the sectors, at the remembered position. */
  lemma ProtectionGoesToSectors(h: Handle, isDevice: bool, readOnly: bool, at: nat, data: seq<Byte>)
    requires h.script == [Fails(WriteProtect)]
    ensures var (h', ok) := WriteOutcome(h, isDevice, readOnly, at, data);
            && (!isDevice ==> !ok && h'.bytes == h.bytes)
            && (isDevice ==> (ok <==> |data| < 512 || at + |data| - |data| % 512 <= |h.bytes|))
            && (isDevice && ok ==> Exact(h.bytes, h'.bytes, at, data[..|data| - |data| % 512]))
  {
    hide SectorWrites, Exact;
    var h1 := AfterFailure(h, WriteProtect);
    SectorsReturn(h1, at, data);
    SectorWritesFacts(h1, at, data);
  }

  // -------------------------------------------------------------------------
  // Writing one sector
  // -------------------------------------------------------------------------

  /** Of one sector inside the medium, the system's write transfers all or nothing. */
  lemma SectorFileWrite(h: Handle, data: seq<Byte>)
    requires h.pos + |data| <= |h.bytes| && data != []
    ensures var (h', n) := WriteFile(h, data);
            if n == None then h'.bytes == h.bytes && h'.pos == h.pos
            else n == Some(|data|) && Exact(h.bytes, h'.bytes, h.pos, data)
  {
  }

  lemma BlockWriteAllOrNothing(h: Handle, rest: seq<Byte>)
    requires 0 < |rest| < ALIGNMENT
    ensures var (h', r) := BlockWrite(h, rest);
            r == Written || (h'.bytes == h.bytes && r.rest == rest)
  {
    hide WriteFile, Exact;
    var (h1, got) := ReadFile(h, ALIGNMENT);
    if got.Some? && |got.value| == ALIGNMENT {
      var (h2, moved) := MoveBack(h1, ALIGNMENT);
      if moved {
        SectorFileWrite(h2, rest + got.value[|rest|..]);
      }
    }
  }

  lemma SectorDirectWrite(h: Handle, isDevice: bool, readOnly: bool, data: seq<Byte>)
    requires |data| == TC_SECTOR_SIZE_BIOS && h.pos + |data| <= |h.bytes|
    ensures var (h', r) := DirectWrite(h, isDevice, readOnly, data);
            if r == Written then Exact(h.bytes, h'.bytes, h.pos, data) else h'.bytes == h.bytes && r.rest == data
  {
    hide WriteFile, BlockWrite, Exact;
    DirectWriteFacts(h, isDevice, readOnly, data);
    var (h1, n) := WriteFile(h, data);
    SectorFileWrite(h, data);
    if n == None {
      BlockWriteAllOrNothing(h1, data);
    }
  }

  lemma OneSectorWrite(h: Handle, at: nat, data: seq<Byte>)
    requires |data| == TC_SECTOR_SIZE_BIOS
    ensures var (h', ok) := SectorWrites(h, at, data);
            if ok then Exact(h.bytes, h'.bytes, at, data) else h'.bytes == h.bytes
  {
    hide Exact;
    SectorWritesFacts(h, at, data);
    assert Sectors(data) == data && data[..TC_SECTOR_SIZE_BIOS] == data;
  }

  /** A sector written right after a seek is written when the call returns, and untouched when it throws. */
  lemma SectorAllOrNothing(h: Handle, isDevice: bool, readOnly: bool, data: seq<Byte>)
    requires |data| == TC_SECTOR_SIZE_BIOS && h.pos + |data| <= |h.bytes|
    ensures var (h', ok) := WriteOutcome(h, isDevice, readOnly, h.pos, data);
            if ok then Exact(h.bytes, h'.bytes, h.pos, data) else h'.bytes == h.bytes
  {
    hide DirectWrite, SectorWrites, Exact;
    SectorDirectWrite(h, isDevice, readOnly, data);
    var (h1, r) := DirectWrite(h, isDevice, readOnly, data);
    if r != Written {
      OneSectorWrite(h1, h.pos, data);
    }
  }

  // -------------------------------------------------------------------------
  // The class
  // -------------------------------------------------------------------------

  datatype Result = Returned(count: nat) | Threw(code: Error)

  class File {
    var handle: Handle
    var fileOpen: bool
    var filePointerPosition: nat
    const isDevice: bool
    const readOnly: bool
    const readBuffer: array<Byte>

    constructor (handle: Handle, isDevice: bool, readOnly: bool)
      ensures this.handle == handle && this.isDevice == isDevice && this.readOnly == readOnly
      ensures fileOpen && filePointerPosition == 0 && fresh(readBuffer) && readBuffer.Length == ALIGNMENT
    {
      this.handle, this.isDevice, this.readOnly := handle, isDevice, readOnly;
      fileOpen, filePointerPosition := true, 0;
      readBuffer := new Byte[ALIGNMENT](_ => 0);
    }

    method SeekAt(position: nat) returns (r: Result)
      modifies this`handle, this`filePointerPosition
      ensures handle.bytes == old(handle.bytes)
      ensures r.Returned? ==> handle.pos == filePointerPosition == position && handle.strict == old(handle.strict)
      ensures !fileOpen ==> r.Threw?
    {
      if !fileOpen {
        return Threw(handle.lastError);
      }
      filePointerPosition := position;
      if Meets(handle).Fails? {
        handle := AfterFailure(handle, Meets(handle).code);
        return Threw(handle.lastError);
      }
      handle := Next(handle).(pos := position);
      return Returned(0);
    }

    method Read(buffer: array<Byte>, size: nat) returns (r: Result)
      requires size <= buffer.Length && buffer != readBuffer && readBuffer.Length == ALIGNMENT
      modifies this`handle, buffer, readBuffer
      ensures !fileOpen ==> r.Threw? && handle == old(handle)
      ensures fileOpen ==>
                var (h, data) := ReadOutcome(old(handle), isDevice, size);
                && handle == h && r.Returned? == data.Some?
                && (data.Some? ==> r.count == |data.value| <= size && buffer[..r.count] == data.value
                                   && buffer[r.count..] == old(buffer[r.count..]))
    {
      hide Ahead, BlockRead;
      if !fileOpen {
        return Threw(handle.lastError);
      }
      ghost var was := buffer[..];
      var (h1, got) := ReadFile(handle, size);
      handle := h1;
      if got.Some? {
        CopyInto(buffer, 0, got.value);
        return Returned(|got.value|);
      }
      if !(handle.lastError == InvalidParameter && isDevice && size % ALIGNMENT != 0) {
        return Threw(handle.lastError);
      }
      var remainingSize := size % ALIGNMENT;
      var alignedSize := size - remainingSize;
      ghost var front := [];
      if alignedSize > 0 {
        var (h2, got) := ReadFile(handle, alignedSize);
        handle := h2;
        if got == None {
          return Threw(handle.lastError);
        }
        CopyInto(buffer, 0, got.value);
        if |got.value| < alignedSize {
          return Returned(|got.value|);
        }
        front := got.value;
      }
      assert buffer[alignedSize..] == was[alignedSize..];
      r := ReadLastBlock(buffer, alignedSize, remainingSize, front);
      if r.Returned? {
        assert buffer[r.count..] == was[alignedSize..][r.count - alignedSize..];
      }
    }

    /** The end of Read: one whole block through the internal buffer, of which what was asked for is kept. */
    method ReadLastBlock(buffer: array<Byte>, alignedSize: nat, remainingSize: nat,
                         ghost front: seq<Byte>) returns (r: Result)
      requires remainingSize < ALIGNMENT && alignedSize + remainingSize <= buffer.Length
      requires buffer != readBuffer && readBuffer.Length == ALIGNMENT
      requires front == buffer[..alignedSize]
      modifies this`handle, buffer, readBuffer
      ensures var (h, data) := BlockRead(old(handle), front, remainingSize);
              && handle == h && r.Returned? == data.Some?
              && (data.Some? ==>
                    && alignedSize <= r.count == |data.value| <= alignedSize + remainingSize
                    && buffer[..r.count] == data.value && buffer[r.count..] == old(buffer[r.count..]))
    {
      hide Ahead;
      var (h3, block) := ReadFile(handle, ALIGNMENT);
      handle := h3;
      if block == None {
        return Threw(handle.lastError);
      }
      CopyInto(readBuffer, 0, block.value);
      var effectiveSize := Min(|block.value|, remainingSize);
      CopyInto(buffer, alignedSize, readBuffer[..effectiveSize]);
      var count := alignedSize + effectiveSize;
      assert buffer[..count] == buffer[..alignedSize] + buffer[alignedSize..count];
      var (h4, moved) := MoveBack(handle, |block.value| - effectiveSize);
      handle := h4;
      if !moved {
        return Threw(handle.lastError);
      }
      return Returned(count);
    }

    method Write(buffer: seq<Byte>) returns (r: Result)
      requires readBuffer.Length == ALIGNMENT
      modifies this`handle, this`filePointerPosition, readBuffer
      ensures !fileOpen ==> r.Threw? && handle == old(handle)
      ensures fileOpen ==>
                (handle, r.Returned?) == WriteOutcome(old(handle), isDevice, readOnly, old(filePointerPosition), buffer)
    {
      if !fileOpen {
        return Threw(handle.lastError);
      }
      var direct := WriteThroughHandle(buffer);
      if direct == Written {
        return Returned(|buffer|);
      }
      if !isDevice || direct.code != WriteProtect {
        return Threw(direct.code);
      }
      ghost var h0, at0 := handle, filePointerPosition;
      var rest := direct.rest;
      while |rest| >= TC_SECTOR_SIZE_BIOS
        invariant SectorWrites(handle, filePointerPosition, rest) == SectorWrites(h0, at0, direct.rest)
        decreases |rest|
      {
        var (h1, ok) := WriteBootDriveSector(handle, filePointerPosition, rest[..TC_SECTOR_SIZE_BIOS]);
        handle := h1;
        if !ok {
          return Threw(handle.lastError);
        }
        filePointerPosition := filePointerPosition + TC_SECTOR_SIZE_BIOS;
        rest := rest[TC_SECTOR_SIZE_BIOS..];
      }
      return Returned(|buffer|);
    }

    /** The part of Write inside its try block. */
    method WriteThroughHandle(buffer: seq<Byte>) returns (r: Direct)
      requires readBuffer.Length == ALIGNMENT
      modifies this`handle, readBuffer
      ensures (handle, r) == DirectWrite(old(handle), isDevice, readOnly, buffer)
    {
      hide Ahead, BlockWrite;
      var (h1, n) := WriteFile(handle, buffer);
      handle := h1;
      if n != None {
        if n.value != |buffer| {
          return Thrown(handle.lastError, buffer);
        }
        return Written;
      }
      if !(handle.lastError == InvalidParameter && isDevice && !readOnly && |buffer| % ALIGNMENT != 0) {
        return Thrown(handle.lastError, buffer);
      }
      var remainingSize := |buffer| % ALIGNMENT;
      var alignedSize := |buffer| - remainingSize;
      var rest := buffer;
      if alignedSize > 0 {
        var (h2, m) := WriteFile(handle, buffer[..alignedSize]);
        handle := h2;
        if m != Some(alignedSize) {
          return Thrown(handle.lastError, rest);
        }
        rest := buffer[alignedSize..];
      }
      r := WriteLastBlock(rest);
    }

    /** The end of the fallback: read the block, put the pointer back, write the block with the rest in front. */
    method WriteLastBlock(rest: seq<Byte>) returns (r: Direct)
      requires |rest| < ALIGNMENT && readBuffer.Length == ALIGNMENT
      modifies this`handle, readBuffer
      ensures (handle, r) == BlockWrite(old(handle), rest)
    {
      hide Ahead;
      var (h1, got) := ReadFile(handle, ALIGNMENT);
      handle := h1;
      if got == None || |got.value| != ALIGNMENT {
        return Thrown(handle.lastError, rest);
      }
      CopyInto(readBuffer, 0, got.value);
      var (h2, moved) := MoveBack(handle, ALIGNMENT);
      handle := h2;
      if !moved {
        return Thrown(handle.lastError, rest);
      }
      CopyInto(readBuffer, 0, rest);
      assert readBuffer[..] == rest + got.value[|rest|..];
      var (h3, n) := WriteFile(handle, readBuffer[..]);
      handle := h3;
      if n != Some(ALIGNMENT) {
        return Thrown(handle.lastError, rest);
      }
      return Written;
    }
  }
}
