/** Changing the system encryption password: the volume headers are rewritten in many passes. */
module HeaderRewrite {
  import opened Base
  import AlignedFile

  const ERR_SUCCESS := 0
  const ERR_OS_ERROR := 1
  const ERR_PASSWORD_WRONG := 3
  const ERR_SYSENC_XTS_MASTERKEY_VULNERABLE := 37

  const TC_SECTOR_SIZE_BIOS := 512
  const TC_BOOT_LOADER_AREA_SECTOR_COUNT := 63
  const TC_BOOT_VOLUME_HEADER_SECTOR_OFFSET := (TC_BOOT_LOADER_AREA_SECTOR_COUNT - 1) * TC_SECTOR_SIZE_BIOS
  const TC_VOLUME_HEADER_SIZE := 64 * 1024
  const TC_HIDDEN_VOLUME_HEADER_OFFSET := TC_VOLUME_HEADER_SIZE

  // -------------------------------------------------------------------------
  // Headers and the device
  // -------------------------------------------------------------------------

  type Header = seq<Byte>
  type Password = seq<Byte>

  datatype MasterKey = MasterKey(bytes: seq<Byte>, vulnerable: bool)

  /** What making a new header in memory yields. */
  datatype Creation = Made(header: Header) | Failed(status: int)

  /**
   * The header format: what opens with which password, and what the n-th creation in a run yields
   * for a password, a master key and the wipe-mode flag. Creations of one run differ in their salt.
   */
  datatype Format = Format(open: (Header, Password) -> Option<MasterKey>,
                           create: (Password, MasterKey, nat, bool) -> Creation)

  /** A header that was made opens with the password it was made for and holds the key it was made with. */
  ghost predicate Lawful(f: Format) {
    && (forall p, key, n, wipe ::
          f.create(p, key, n, wipe).Made? ==> f.open(f.create(p, key, n, wipe).header, p) == Some(key))
    && (forall p, key, n, wipe :: f.create(p, key, n, wipe).Failed? ==> f.create(p, key, n, wipe).status != ERR_SUCCESS)
  }

  type Content = map<int, Header>
  type Writes = seq<(int, Header)>

  /** What the header locations hold after some writes, each of one sector and so either done or not done. */
  function ContentAfter(initial: Content, writes: Writes): Content {
    if writes == [] then initial
    else ContentAfter(initial, writes[..|writes| - 1])[writes[|writes| - 1].0 := writes[|writes| - 1].1]
  }

  /** The locations are apart by a sector at least, and inside a medium of this size. */
  predicate Apart(locations: set<int>, size: nat) {
    && (forall loc | loc in locations :: 0 <= loc && loc + TC_SECTOR_SIZE_BIOS <= size)
    && (forall a, b | a in locations && b in locations && a < b :: a + TC_SECTOR_SIZE_BIOS <= b)
  }

  /** What a medium holds at the locations. */
  function ContentOf(bytes: seq<Byte>, locations: set<int>): Content
    requires Apart(locations, |bytes|)
  {
    map loc | loc in locations :: bytes[loc..loc + TC_SECTOR_SIZE_BIOS]
  }

  /**
   * A header of one sector written through a file right after a seek changes its own location alone and
   * completely, or nothing when the call throws; so the device below may take each write as done or not done.
   */
  lemma HeaderWriteDoneOrNot(h: AlignedFile.Handle, readOnly: bool, header: Header, locations: set<int>)
    requires Apart(locations, |h.bytes|) && h.pos in locations && |header| == TC_SECTOR_SIZE_BIOS
    ensures var (h', ok) := AlignedFile.WriteOutcome(h, true, readOnly, h.pos, header);
            && |h'.bytes| == |h.bytes|
            && ContentOf(h'.bytes, locations)
               == if ok then ContentOf(h.bytes, locations)[h.pos := header] else ContentOf(h.bytes, locations)
  {
    hide AlignedFile.WriteOutcome;
    AlignedFile.SectorAllOrNothing(h, true, readOnly, header);
    var (h', ok) := AlignedFile.WriteOutcome(h, true, readOnly, h.pos, header);
    if ok {
      SpliceContent(h.bytes, h'.bytes, h.pos, header, locations);
    }
  }

  lemma SpliceContent(before: seq<Byte>, after: seq<Byte>, at: nat, header: Header, locations: set<int>)
    requires Apart(locations, |before|) && at in locations && |header| == TC_SECTOR_SIZE_BIOS
    requires after == Spliced(before, at, header)
    ensures ContentOf(after, locations) == ContentOf(before, locations)[at := header]
  {
    hide Spliced;
    forall loc | loc in locations
      ensures ContentOf(after, locations)[loc] == ContentOf(before, locations)[at := header][loc]
    {
      if loc != at {
        assert loc + TC_SECTOR_SIZE_BIOS <= at || at + TC_SECTOR_SIZE_BIOS <= loc;
      }
    }
  }

  class Device {
    var content: Content
    /** Every write since the device was opened, in order. */
    var writes: Writes

    constructor (content: Content)
      ensures this.content == content && writes == []
    {
      this.content, this.writes := content, [];
    }

    /** ok is false where the source throws; that nothing is written then is HeaderWriteDoneOrNot. */
    method SeekAndWrite(offset: int, header: Header, fails: bool) returns (ok: bool)
      modifies this
      ensures ok == !fails
      ensures ok ==> content == old(content)[offset := header] && writes == old(writes) + [(offset, header)]
      ensures !ok ==> content == old(content) && writes == old(writes)
    {
      if !fails {
        content := content[offset := header];
        writes := writes + [(offset, header)];
      }
      ok := !fails;
    }
  }

  // -------------------------------------------------------------------------
  // The plan of a run
  // -------------------------------------------------------------------------

  /** The parts of a run that stay the same: passwords, key, locations (backup only for a hidden system), passes. */
  datatype Plan = Plan(oldPassword: Password, newPassword: Password, key: MasterKey,
                       primary: int, backup: Option<int>, passes: nat)

  function Total(plan: Plan): nat {
    if plan.backup.Some? then 2 * plan.passes else plan.passes
  }

  /** The location of the k-th write. */
  function Target(plan: Plan, k: nat): int
    requires k < Total(plan)
  {
    if k < plan.passes then plan.primary else plan.backup.value
  }

  /** The number of the k-th step within its location. */
  function PassOf(plan: Plan, k: nat): nat {
    if k < plan.passes then k else k - plan.passes
  }

  /** The k-th creation; all but the last pass over a location are made in wipe mode. */
  function Created(f: Format, plan: Plan, k: nat): Creation {
    f.create(plan.newPassword, plan.key, k, PassOf(plan, k) < plan.passes - 1)
  }

  predicate AllMade(f: Format, plan: Plan, m: nat) {
    forall j: nat | j < m :: Created(f, plan, j).Made?
  }

  /** Step k is carried out: its header is made and the device takes it. */
  predicate Succeeds(f: Format, plan: Plan, faults: nat -> bool, k: nat) {
    Created(f, plan, k).Made? && !faults(k)
  }

  /** How many steps are carried out before the first one that is not, counting from k. */
  function DoneFrom(f: Format, plan: Plan, faults: nat -> bool, k: nat): (m: nat)
    requires k <= Total(plan)
    ensures k <= m <= Total(plan)
    ensures forall j: nat | k <= j < m :: Created(f, plan, j).Made? && !faults(j)
    ensures m < Total(plan) ==> !Succeeds(f, plan, faults, m)
    decreases Total(plan) - k
  {
    if k < Total(plan) && Succeeds(f, plan, faults, k) then DoneFrom(f, plan, faults, k + 1) else k
  }

  /** The first m writes of the run. */
  function Planned(f: Format, plan: Plan, m: nat): (w: Writes)
    requires m <= Total(plan) && AllMade(f, plan, m)
    ensures |w| == m
  {
    if m == 0 then [] else Planned(f, plan, m - 1) + [(Target(plan, m - 1), Created(f, plan, m - 1).header)]
  }

  // -------------------------------------------------------------------------
  // What holds after every write
  // -------------------------------------------------------------------------

  ghost predicate OpensOldOrNew(f: Format, plan: Plan, content: Content, location: int) {
    && location in content
    && (|| f.open(content[location], plan.oldPassword) == Some(plan.key)
        || f.open(content[location], plan.newPassword) == Some(plan.key))
  }

  ghost predicate OpensNew(f: Format, plan: Plan, content: Content, location: int) {
    location in content && f.open(content[location], plan.newPassword) == Some(plan.key)
  }

  ghost predicate Locations(plan: Plan, location: int) {
    location == plan.primary || plan.backup == Some(location)
  }

  /** The m-th write puts the m-th header at its location. */
  lemma LastWrite(f: Format, plan: Plan, initial: Content, m: nat)
    requires 0 < m <= Total(plan) && AllMade(f, plan, m)
    ensures ContentAfter(initial, Planned(f, plan, m))
         == ContentAfter(initial, Planned(f, plan, m - 1))[Target(plan, m - 1) := Created(f, plan, m - 1).header]
  {
    var w := Planned(f, plan, m);
    assert w[..|w| - 1] == Planned(f, plan, m - 1);
  }

  /** A header that was made opens with the new password. */
  lemma MadeOpensNew(f: Format, plan: Plan, k: nat)
    requires Lawful(f) && Created(f, plan, k).Made?
    ensures f.open(Created(f, plan, k).header, plan.newPassword) == Some(plan.key)
  {
  }

  /** Writing a header that opens with the new password closes no location. */
  lemma WriteKeeps(f: Format, plan: Plan, content: Content, target: int, header: Header)
    requires f.open(header, plan.newPassword) == Some(plan.key)
    ensures OpensNew(f, plan, content[target := header], target)
    ensures forall loc | OpensOldOrNew(f, plan, content, loc) :: OpensOldOrNew(f, plan, content[target := header], loc)
    ensures forall loc | OpensNew(f, plan, content, loc) :: OpensNew(f, plan, content[target := header], loc)
  {
  }

  /** However many writes were done when the run ended or was cut off, every header opens with one of the passwords. */
  lemma {:induction false} AlwaysOpens(f: Format, plan: Plan, initial: Content, m: nat)
    requires Lawful(f) && m <= Total(plan) && AllMade(f, plan, m)
    requires forall loc | Locations(plan, loc) :: OpensOldOrNew(f, plan, initial, loc)
    ensures forall loc | Locations(plan, loc) :: OpensOldOrNew(f, plan, ContentAfter(initial, Planned(f, plan, m)), loc)
    ensures m > 0 ==> OpensNew(f, plan, ContentAfter(initial, Planned(f, plan, m)), plan.primary)
    ensures m > plan.passes ==> OpensNew(f, plan, ContentAfter(initial, Planned(f, plan, m)), plan.backup.value)
  {
    if m > 0 {
      hide ContentAfter, Planned, Created, Lawful, OpensOldOrNew, OpensNew;
      AlwaysOpens(f, plan, initial, m - 1);
      LastWrite(f, plan, initial, m);
      MadeOpensNew(f, plan, m - 1);
      WriteKeeps(f, plan, ContentAfter(initial, Planned(f, plan, m - 1)),
                 Target(plan, m - 1), Created(f, plan, m - 1).header);
    }
  }

  /** The backup location keeps its header until the last pass over the primary one is written. */
  lemma {:induction false} BackupUntouchedBefore(f: Format, plan: Plan, initial: Content, m: nat)
    requires m <= plan.passes && AllMade(f, plan, m)
    requires plan.backup.Some? && plan.backup.value != plan.primary && plan.backup.value in initial
    ensures var content := ContentAfter(initial, Planned(f, plan, m));
            plan.backup.value in content && content[plan.backup.value] == initial[plan.backup.value]
  {
    if m > 0 {
      BackupUntouchedBefore(f, plan, initial, m - 1);
      LastWrite(f, plan, initial, m);
    }
  }

  /** After a run that was carried out to its end every rewritten header opens with the new password. */
  lemma CompleteRunOpensNew(f: Format, plan: Plan, initial: Content)
    requires Lawful(f) && plan.passes > 0 && AllMade(f, plan, Total(plan))
    requires forall loc | Locations(plan, loc) :: OpensOldOrNew(f, plan, initial, loc)
    ensures forall loc | Locations(plan, loc) ::
              OpensNew(f, plan, ContentAfter(initial, Planned(f, plan, Total(plan))), loc)
  {
    AlwaysOpens(f, plan, initial, Total(plan));
  }

  // -------------------------------------------------------------------------
  // The run itself
  // -------------------------------------------------------------------------

  datatype Partition = Partition(startingOffset: int, partitionLength: int)

  datatype Outcome = ParameterIncorrect | OtherException | Status(code: int)

  /** The first partition that starts at the given offset. */
  function FindPartition(partitions: seq<Partition>, start: int): Option<Partition> {
    if partitions == [] then None
    else if partitions[0].startingOffset == start then Some(partitions[0])
    else FindPartition(partitions[1..], start)
  }

  /** The run has carried out its first done steps: they are what has been written, and what the locations now hold. */
  ghost predicate Reached(f: Format, plan: Plan, faults: nat -> bool, done: nat, before: Writes, initial: Content,
                          now: Writes, content: Content) {
    && done <= Total(plan) && AllMade(f, plan, done)
    && DoneFrom(f, plan, faults, done) == DoneFrom(f, plan, faults, 0)
    && now == before + Planned(f, plan, done)
    && content == ContentAfter(initial, Planned(f, plan, done))
  }

  lemma ReachedStart(f: Format, plan: Plan, faults: nat -> bool, before: Writes, initial: Content)
    ensures Reached(f, plan, faults, 0, before, initial, before, initial)
  {
  }

  lemma ReachedNext(f: Format, plan: Plan, faults: nat -> bool, done: nat, before: Writes, initial: Content,
                    now: Writes, content: Content)
    requires Reached(f, plan, faults, done, before, initial, now, content) && done < Total(plan)
    requires Succeeds(f, plan, faults, done)
    ensures var (target, header) := (Target(plan, done), Created(f, plan, done).header);
            Reached(f, plan, faults, done + 1, before, initial, now + [(target, header)], content[target := header])
  {
    LastWrite(f, plan, initial, done + 1);
  }

  lemma ReachedStop(f: Format, plan: Plan, faults: nat -> bool, done: nat, before: Writes, initial: Content,
                    now: Writes, content: Content)
    requires Reached(f, plan, faults, done, before, initial, now, content)
    requires done < Total(plan) ==> !Succeeds(f, plan, faults, done)
    ensures done == DoneFrom(f, plan, faults, 0) && now == before + Planned(f, plan, done)
    ensures content == ContentAfter(initial, Planned(f, plan, done))
  {
  }

  /** The result of a run that carried out the first done of its steps. */
  function ResultOf(f: Format, plan: Plan, done: nat): int {
    if done == Total(plan) then ERR_SUCCESS
    else if Created(f, plan, done).Failed? then Created(f, plan, done).status
    else ERR_OS_ERROR
  }

  /** The pass loops; done counts the writes carried out. */
  method RewriteHeaders(f: Format, plan: Plan, faults: nat -> bool, device: Device) returns (result: int, done: nat)
    modifies device
    ensures done == DoneFrom(f, plan, faults, 0)
    ensures device.writes == old(device.writes) + Planned(f, plan, done)
    ensures device.content == ContentAfter(old(device.content), Planned(f, plan, done))
    ensures result == ResultOf(f, plan, done)
  {
    hide Reached, Planned, DoneFrom, ContentAfter;
    var location, onBackup := plan.primary, false;
    ghost var before, initial := device.writes, device.content;
    done := 0;
    ReachedStart(f, plan, faults, before, initial);
    while true
      invariant done == if onBackup then plan.passes else 0
      invariant if onBackup then plan.backup == Some(location) else location == plan.primary
      invariant Reached(f, plan, faults, done, before, initial, device.writes, device.content)
      decreases !onBackup
    {
      ghost var first := done;
      for wipePass := 0 to plan.passes
        invariant done == first + wipePass
        invariant Reached(f, plan, faults, done, before, initial, device.writes, device.content)
      {
        var creation := f.create(plan.newPassword, plan.key, done, wipePass < plan.passes - 1);
        assert creation == Created(f, plan, done) && Target(plan, done) == location;
        if creation.Failed? {
          ReachedStop(f, plan, faults, done, before, initial, device.writes, device.content);
          return creation.status, done;
        }
        ghost var now, content := device.writes, device.content;
        var ok := device.SeekAndWrite(location, creation.header, faults(done));
        if !ok {
          ReachedStop(f, plan, faults, done, before, initial, device.writes, device.content);
          return ERR_OS_ERROR, done;
        }
        ReachedNext(f, plan, faults, done, before, initial, now, content);
        done := done + 1;
      }
      if plan.backup == None || onBackup {
        break;
      }
      onBackup := true;
      location := plan.backup.value;
    }
    ReachedStop(f, plan, faults, done, before, initial, device.writes, device.content);
    return ERR_SUCCESS, done;
  }

  /** Cutting the run off earlier leaves the writes it had done by then. */
  lemma {:induction false} PlannedPrefix(f: Format, plan: Plan, m: nat, j: nat)
    requires j <= m <= Total(plan) && AllMade(f, plan, m)
    ensures Planned(f, plan, m)[..j] == Planned(f, plan, j)
  {
    if j < m {
      PlannedPrefix(f, plan, m - 1, j);
    }
  }

  /** What the caller asks for, with the state of the system it is asked in. */
  datatype Request = Request(setupInProgress: bool, hiddenSystem: bool, hiddenSystemPartitionStart: int,
                             partitions: seq<Partition>, wipePassCount: int, pkcs5: int,
                             oldPassword: Password, newPassword: Password)

  /** Everything outside the routine that can fail. */
  datatype Luck = Luck(openFails: bool, readFails: bool, randomFails: bool, writeFails: nat -> bool)

  datatype Preparation = Refuse(outcome: Outcome) | Go(plan: Plan)

  function BackupOffset(partitions: seq<Partition>, start: int): int {
    match FindPartition(partitions, start)
    case None => -1
    case Some(p) => start + p.partitionLength - TC_VOLUME_HEADER_SIZE
  }

  /** The decision taken before anything is written. */
  function Prepare(f: Format, r: Request, luck: Luck, content: Content): Preparation {
    var headerOffset := if r.hiddenSystem then r.hiddenSystemPartitionStart + TC_HIDDEN_VOLUME_HEADER_OFFSET
                        else TC_BOOT_VOLUME_HEADER_SECTOR_OFFSET;
    var backupOffset := BackupOffset(r.partitions, r.hiddenSystemPartitionStart);
    if r.setupInProgress || r.wipePassCount <= 0 then Refuse(ParameterIncorrect)
    else if luck.openFails then Refuse(OtherException)
    else if r.pkcs5 != 0 || (r.hiddenSystem && backupOffset == -1) then Refuse(ParameterIncorrect)
    else if luck.readFails || headerOffset !in content then Refuse(OtherException)
    else
      match f.open(content[headerOffset], r.oldPassword)
      case None => Refuse(Status(ERR_PASSWORD_WRONG))
      case Some(key) =>
        if key.vulnerable then Refuse(Status(ERR_SYSENC_XTS_MASTERKEY_VULNERABLE))
        else if luck.randomFails then Refuse(OtherException)
        else Go(Plan(r.oldPassword, r.newPassword, key, headerOffset,
                     if r.hiddenSystem then Some(backupOffset) else None, r.wipePassCount))
  }

  /** What the call as a whole answers. */
  function FinalOutcome(f: Format, r: Request, luck: Luck, content: Content): Outcome {
    match Prepare(f, r, luck, content)
    case Refuse(o) => o
    case Go(plan) => Status(ResultOf(f, plan, DoneFrom(f, plan, luck.writeFails, 0)))
  }

  /** What the header locations hold after the call as a whole. */
  function FinalContent(f: Format, r: Request, luck: Luck, content: Content): Content {
    match Prepare(f, r, luck, content)
    case Refuse(_) => content
    case Go(plan) => ContentAfter(content, Planned(f, plan, DoneFrom(f, plan, luck.writeFails, 0)))
  }

  method FindBackupHeader(partitions: seq<Partition>, start: int) returns (offset: int)
    ensures offset == BackupOffset(partitions, start)
  {
    offset := -1;
    for i := 0 to |partitions|
      invariant offset == -1 && FindPartition(partitions, start) == FindPartition(partitions[i..], start)
    {
      if partitions[i].startingOffset == start {
        return partitions[i].startingOffset + partitions[i].partitionLength - TC_VOLUME_HEADER_SIZE;
      }
    }
  }

  /** reopened tells whether the driver was asked to reopen the header with the new password. */
  method ChangePassword(f: Format, r: Request, luck: Luck, device: Device) returns (outcome: Outcome, reopened: bool)
    modifies device
    ensures match Prepare(f, r, luck, old(device.content))
            case Refuse(o) =>
              && outcome == o && !reopened
              && device.writes == old(device.writes) && device.content == old(device.content)
            case Go(plan) =>
              var done := DoneFrom(f, plan, luck.writeFails, 0);
              && device.writes == old(device.writes) + Planned(f, plan, done)
              && device.content == ContentAfter(old(device.content), Planned(f, plan, done))
              && outcome == Status(ResultOf(f, plan, done))
              && reopened == (done > 0 && (done == Total(plan) || Created(f, plan, done).Made?))
    ensures outcome == FinalOutcome(f, r, luck, old(device.content))
    ensures device.content == FinalContent(f, r, luck, old(device.content))
  {
    reopened := false;
    if r.setupInProgress || r.wipePassCount <= 0 {
      return ParameterIncorrect, false;
    }
    if luck.openFails {
      return OtherException, false;
    }
    if r.pkcs5 != 0 {
      return ParameterIncorrect, false;
    }
    var headerOffset := TC_BOOT_VOLUME_HEADER_SECTOR_OFFSET;
    var backupHeaderOffset := -1;
    if r.hiddenSystem {
      headerOffset := r.hiddenSystemPartitionStart + TC_HIDDEN_VOLUME_HEADER_OFFSET;
      backupHeaderOffset := FindBackupHeader(r.partitions, r.hiddenSystemPartitionStart);
      if backupHeaderOffset == -1 {
        return ParameterIncorrect, false;
      }
    }
    if luck.readFails || headerOffset !in device.content {
      return OtherException, false;
    }
    var unlocked := f.open(device.content[headerOffset], r.oldPassword);
    if unlocked == None {
      return Status(ERR_PASSWORD_WRONG), false;
    }
    if unlocked.value.vulnerable {
      return Status(ERR_SYSENC_XTS_MASTERKEY_VULNERABLE), false;
    }
    if luck.randomFails {
      return OtherException, false;
    }
    var backup := if r.hiddenSystem then Some(backupHeaderOffset) else None;
    var plan := Plan(r.oldPassword, r.newPassword, unlocked.value, headerOffset, backup, r.wipePassCount);
    var result, done := RewriteHeaders(f, plan, luck.writeFails, device);
    if done < Total(plan) && Created(f, plan, done).Failed? {
      return Status(result), false;
    }
    reopened := done > 0;
    return Status(result), reopened;
  }

  /**
   * Safety of the whole change: whatever it was asked and whatever failed, after each of its writes both
   * header locations open with the old or the new password under the master key they had, provided that
   * they opened with the old password before, and a normal end leaves them open with the new one.
   */
  lemma ChangeIsSafe(f: Format, r: Request, luck: Luck, initial: Content, j: nat)
    requires Lawful(f) && Prepare(f, r, luck, initial).Go?
    requires var plan := Prepare(f, r, luck, initial).plan;
             && j <= DoneFrom(f, plan, luck.writeFails, 0)
             && (plan.backup.Some? ==> OpensOldOrNew(f, plan, initial, plan.backup.value))
    ensures var plan := Prepare(f, r, luck, initial).plan;
            var done := DoneFrom(f, plan, luck.writeFails, 0);
            && (forall loc | Locations(plan, loc) ::
                  OpensOldOrNew(f, plan, ContentAfter(initial, Planned(f, plan, done)[..j]), loc))
            && (j == done && ResultOf(f, plan, done) == ERR_SUCCESS ==>
                  forall loc | Locations(plan, loc) ::
                    OpensNew(f, plan, ContentAfter(initial, Planned(f, plan, done)[..j]), loc))
  {
    var plan := Prepare(f, r, luck, initial).plan;
    var done := DoneFrom(f, plan, luck.writeFails, 0);
    PlannedPrefix(f, plan, done, j);
    AlwaysOpens(f, plan, initial, j);
    if j == done == Total(plan) {
      CompleteRunOpensNew(f, plan, initial);
    }
  }

  // -------------------------------------------------------------------------
  // What a call comes to, in terms of the request alone
  // -------------------------------------------------------------------------

  /**
   * Where the header in use is: in the sector before the last of the boot loader area, or 64 KB into the
   * hidden system.
   */
  function InUse(r: Request): int {
    if r.hiddenSystem then r.hiddenSystemPartitionStart + 65536 else 31744
  }

  /** The i-th partition is the first one that starts where the hidden system does. */
  predicate HostsSystem(r: Request, i: nat) {
    && i < |r.partitions| && r.partitions[i].startingOffset == r.hiddenSystemPartitionStart
    && forall j | 0 <= j < i :: r.partitions[j].startingOffset != r.hiddenSystemPartitionStart
  }

  /** The location is 64 KB before the end of the partition that hosts the hidden system. */
  ghost predicate IsBackup(r: Request, loc: int) {
    r.hiddenSystem &&
    exists i: nat | HostsSystem(r, i) :: loc == r.hiddenSystemPartitionStart + r.partitions[i].partitionLength - 65536
  }

  lemma {:induction false} FoundIsFirst(partitions: seq<Partition>, start: int, i: nat)
    requires i <= |partitions| && forall j | 0 <= j < i :: partitions[j].startingOffset != start
    requires i < |partitions| ==> partitions[i].startingOffset == start
    ensures FindPartition(partitions, start) == if i < |partitions| then Some(partitions[i]) else None
  {
    if i > 0 {
      FoundIsFirst(partitions[1..], start, i - 1);
    }
  }

  lemma {:induction false} SomeFirst(r: Request, n: nat) returns (i: nat)
    requires n <= |r.partitions|
    requires forall j | 0 <= j < n :: r.partitions[j].startingOffset != r.hiddenSystemPartitionStart
    ensures n <= i <= |r.partitions| && (i < |r.partitions| ==> HostsSystem(r, i))
    ensures forall j | 0 <= j < i :: r.partitions[j].startingOffset != r.hiddenSystemPartitionStart
    decreases |r.partitions| - n
  {
    if n == |r.partitions| || r.partitions[n].startingOffset == r.hiddenSystemPartitionStart {
      i := n;
    } else {
      i := SomeFirst(r, n + 1);
    }
  }

  /** The backup location the routine finds is the only one, and it finds one when there is one, but for -1. */
  lemma BackupFound(r: Request, loc: int)
    requires r.hiddenSystem
    ensures var found := BackupOffset(r.partitions, r.hiddenSystemPartitionStart);
            && (IsBackup(r, loc) ==> found == loc)
            && (found != -1 ==> IsBackup(r, found))
  {
    var i := SomeFirst(r, 0);
    FoundIsFirst(r.partitions, r.hiddenSystemPartitionStart, i);
    if i < |r.partitions| {
      assert HostsSystem(r, i);
    }
  }

  lemma BackupExactly(r: Request)
    requires r.hiddenSystem
    ensures var found := BackupOffset(r.partitions, r.hiddenSystemPartitionStart);
            && (found != -1 <==> exists loc | loc != -1 :: IsBackup(r, loc))
            && (found != -1 ==> forall loc :: IsBackup(r, loc) <==> loc == found)
  {
    hide BackupOffset, IsBackup;
    forall loc: int
      ensures IsBackup(r, loc) ==> BackupOffset(r.partitions, r.hiddenSystemPartitionStart) == loc
    {
      BackupFound(r, loc);
    }
    BackupFound(r, 0);
  }

  lemma BackupOnlyHidden(r: Request, loc: int)
    requires IsBackup(r, loc)
    ensures r.hiddenSystem
  {
  }

  /** The caller asked for something the routine does not do, or there is no backup header to rewrite. */
  ghost predicate Improper(r: Request, luck: Luck) {
    || r.setupInProgress || r.wipePassCount <= 0
    || (!luck.openFails && (r.pkcs5 != 0 || (r.hiddenSystem && !exists loc | loc != -1 :: IsBackup(r, loc))))
  }

  /** The header in use opens with the old password, and its key may be kept. */
  predicate Opens(f: Format, r: Request, content: Content) {
    InUse(r) in content &&
    match f.open(content[InUse(r)], r.oldPassword)
    case None => false
    case Some(key) => !key.vulnerable
  }

  /** The plan of a call that is not refused, and when there is one. */
  lemma GoesAhead(f: Format, r: Request, luck: Luck, content: Content)
    ensures Prepare(f, r, luck, content).Go?
            <==> && !Improper(r, luck) && !luck.openFails && !luck.readFails && !luck.randomFails
                 && Opens(f, r, content)
    ensures Prepare(f, r, luck, content).Go? ==>
              var plan := Prepare(f, r, luck, content).plan;
              && plan.oldPassword == r.oldPassword && plan.newPassword == r.newPassword
              && plan.passes == r.wipePassCount && plan.primary == InUse(r)
              && Some(plan.key) == f.open(content[InUse(r)], r.oldPassword)
              && (forall loc :: Locations(plan, loc) <==> loc == InUse(r) || IsBackup(r, loc))
              && (r.hiddenSystem <==> plan.backup.Some?)
  {
    hide BackupOffset, IsBackup;
    if r.hiddenSystem {
      BackupExactly(r);
    } else {
      forall loc: int
        ensures !IsBackup(r, loc)
      {
        if IsBackup(r, loc) {
          BackupOnlyHidden(r, loc);
        }
      }
    }
  }

  /** Each refusal has its own condition, and leaves everything as it was. */
  lemma Refusals(f: Format, r: Request, luck: Luck, content: Content)
    ensures FinalOutcome(f, r, luck, content) == ParameterIncorrect <==> Improper(r, luck)
    ensures FinalOutcome(f, r, luck, content) == OtherException
            <==> !Improper(r, luck)
                 && (luck.openFails || luck.readFails || InUse(r) !in content
                     || (luck.randomFails && Opens(f, r, content)))
    ensures !Improper(r, luck) && !luck.openFails && !luck.readFails && InUse(r) in content ==>
              var found := f.open(content[InUse(r)], r.oldPassword);
              && (found == None ==> FinalOutcome(f, r, luck, content) == Status(3))
              && (found.Some? && found.value.vulnerable ==> FinalOutcome(f, r, luck, content) == Status(37))
    ensures !Prepare(f, r, luck, content).Go? ==> FinalContent(f, r, luck, content) == content
  {
    hide BackupOffset, IsBackup;
    GoesAhead(f, r, luck, content);
    if r.hiddenSystem {
      BackupExactly(r);
    }
  }

  lemma {:induction false} OthersUntouched(f: Format, plan: Plan, initial: Content, m: nat, loc: int)
    requires m <= Total(plan) && AllMade(f, plan, m) && !Locations(plan, loc)
    ensures var content := ContentAfter(initial, Planned(f, plan, m));
            (loc in content <==> loc in initial) && (loc in initial ==> content[loc] == initial[loc])
  {
    if m > 0 {
      hide ContentAfter, Planned, Created;
      OthersUntouched(f, plan, initial, m - 1, loc);
      LastWrite(f, plan, initial, m);
    } else {
      NoWrites(f, plan, initial);
    }
  }

  lemma NoWrites(f: Format, plan: Plan, initial: Content)
    ensures ContentAfter(initial, Planned(f, plan, 0)) == initial
  {
  }

  /** A call that succeeds has gone through all passes over each location. */
  lemma SuccessIsComplete(f: Format, r: Request, luck: Luck, content: Content)
    requires Lawful(f) && FinalOutcome(f, r, luck, content) == Status(0)
    ensures Prepare(f, r, luck, content).Go?
    ensures var plan := Prepare(f, r, luck, content).plan;
            DoneFrom(f, plan, luck.writeFails, 0) == Total(plan) == r.wipePassCount * (if r.hiddenSystem then 2 else 1)
  {
    Refusals(f, r, luck, content);
    GoesAhead(f, r, luck, content);
    var plan := Prepare(f, r, luck, content).plan;
    var done := DoneFrom(f, plan, luck.writeFails, 0);
  }

  /**
   * After a call that succeeds, the header in use and, for a hidden system, the backup header open with the
   * new password, under the key that the first one opened with before.
   */
  lemma SuccessOpensNew(f: Format, r: Request, luck: Luck, content: Content, loc: int)
    requires Lawful(f) && FinalOutcome(f, r, luck, content) == Status(0)
    requires loc == InUse(r) || IsBackup(r, loc)
    ensures InUse(r) in content && f.open(content[InUse(r)], r.oldPassword).Some?
    ensures var after := FinalContent(f, r, luck, content);
            loc in after && f.open(after[loc], r.newPassword) == f.open(content[InUse(r)], r.oldPassword)
  {
    SuccessIsComplete(f, r, luck, content);
    GoesAhead(f, r, luck, content);
    var plan := Prepare(f, r, luck, content).plan;
    assert Locations(plan, loc);
    AllWritten(f, plan, content, Total(plan), loc);
  }

  /** After all passes over a location it opens with the new password, whatever was there before. */
  lemma {:induction false} AllWritten(f: Format, plan: Plan, initial: Content, m: nat, loc: int)
    requires Lawful(f) && m <= Total(plan) && AllMade(f, plan, m)
    requires (loc == plan.primary && m > 0) || (plan.backup == Some(loc) && m > plan.passes)
    ensures OpensNew(f, plan, ContentAfter(initial, Planned(f, plan, m)), loc)
  {
    hide ContentAfter, Planned, Created, Lawful, OpensNew;
    LastWrite(f, plan, initial, m);
    MadeOpensNew(f, plan, m - 1);
    var before := ContentAfter(initial, Planned(f, plan, m - 1));
    WriteKeeps(f, plan, before, Target(plan, m - 1), Created(f, plan, m - 1).header);
    if Target(plan, m - 1) != loc {
      AllWritten(f, plan, initial, m - 1, loc);
    }
  }

  /** Whatever the outcome, no other location changes. */
  lemma ElsewhereUntouched(f: Format, r: Request, luck: Luck, content: Content, loc: int)
    requires loc != InUse(r) && !IsBackup(r, loc)
    ensures var after := FinalContent(f, r, luck, content);
            (loc in after <==> loc in content) && (loc in content ==> after[loc] == content[loc])
  {
    GoesAhead(f, r, luck, content);
    if Prepare(f, r, luck, content).Go? {
      var plan := Prepare(f, r, luck, content).plan;
      OthersUntouched(f, plan, content, DoneFrom(f, plan, luck.writeFails, 0), loc);
    }
  }

  /** All headers of a location but the last are made in wipe mode, with the new password and the old key. */
  lemma WipeModes(f: Format, plan: Plan, k: nat)
    requires k < Total(plan)
    ensures k < plan.passes ==> Target(plan, k) == plan.primary
    ensures k >= plan.passes ==> plan.backup == Some(Target(plan, k))
    ensures Created(f, plan, k)
         == f.create(plan.newPassword, plan.key, k, k + 1 != plan.passes && k + 1 != 2 * plan.passes)
  {
  }

  /** The first step that is not carried out decides the result: the failed creation's status, or a failed write's. */
  lemma FirstFailureDecides(f: Format, r: Request, luck: Luck, content: Content, k: nat)
    requires Prepare(f, r, luck, content).Go?
    requires var plan := Prepare(f, r, luck, content).plan;
             && k < Total(plan) && !Succeeds(f, plan, luck.writeFails, k)
             && forall j: nat | j < k :: Succeeds(f, plan, luck.writeFails, j)
    ensures var creation := Created(f, Prepare(f, r, luck, content).plan, k);
            FinalOutcome(f, r, luck, content) == Status(if creation.Failed? then creation.status else 1)
  {
    hide Prepare;
    var plan := Prepare(f, r, luck, content).plan;
    assert DoneFrom(f, plan, luck.writeFails, 0) == k;
  }
}
