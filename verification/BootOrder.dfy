/** Entering the boot loader into the firmware's boot order and taking it out again. */
module BootOrder {
  import opened Base
  import LoadOption

  /** Entries the routine's buffer can hold. */
  const CAPACITY := 1024

  type Order = seq<U16>

  // -------------------------------------------------------------------------
  // The order as a list
  // -------------------------------------------------------------------------

  /** The first position of num from i on, |order| when there is none. */
  function IndexFrom(order: Order, num: U16, i: nat): (k: nat)
    requires i <= |order|
    ensures i <= k <= |order| && num !in order[i..k] && (k < |order| ==> order[k] == num)
    decreases |order| - i
  {
    if i == |order| || order[i] == num then i else IndexFrom(order, num, i + 1)
  }

  function Index(order: Order, num: U16): (k: nat)
    ensures k <= |order| && num !in order[..k] && (k < |order| ==> order[k] == num)
    ensures k == |order| <==> num !in order
  {
    assert order[..|order|] == order;
    IndexFrom(order, num, 0)
  }

  function Removed(order: Order, k: nat): Order
    requires k < |order|
  {
    order[..k] + order[k + 1..]
  }

  /** front: a forced first place, and the first entry is the Windows one. */
  function AfterSet(order: Order, num: U16, deviceKnown: bool, front: bool): Order {
    var k := Index(order, num);
    if k == |order| then
      if !deviceKnown then order else if front then [num] + order else order + [num]
    else if k > 0 && front then [num] + Removed(order, k)
    else order
  }

  function AfterDelete(order: Order, num: U16): Order {
    var k := Index(order, num);
    if k == |order| then order else Removed(order, k)
  }

  /**
   * What a set makes of the stored order; an overrun is a write behind the buffer, from where on nothing is
   * defined.
   */
  datatype Outcome = Stored(order: Order) | Overrun

  /** Inserting into an order that fills the buffer writes behind it. */
  predicate Overruns(order: Order, num: U16, deviceKnown: bool) {
    |order| == CAPACITY && num !in order && deviceKnown
  }

  function SetOutcome(order: Order, num: U16, deviceKnown: bool, front: bool): Outcome {
    if Overruns(order, num, deviceKnown) then Overrun
    else if |order| > CAPACITY then Stored(if deviceKnown then [num] else order)
    else Stored(AfterSet(order, num, deviceKnown, front))
  }

  /** A delete finds nothing in an order too long for the buffer. */
  function DeleteOutcome(order: Order, num: U16): Order {
    if |order| <= CAPACITY then AfterDelete(order, num) else order
  }

  /** The entries other than num, in their order. */
  function Others(order: Order, num: U16): Order {
    if order == [] then []
    else Others(order[..|order| - 1], num) + (if order[|order| - 1] == num then [] else [order[|order| - 1]])
  }

  lemma {:induction false} OthersSplit(a: Order, b: Order, num: U16)
    ensures Others(a + b, num) == Others(a, num) + Others(b, num)
  {
    if b == [] {
      assert a + b == a;
    } else {
      var n := |b| - 1;
      assert (a + b)[..|a| + n] == a + b[..n];
      OthersSplit(a, b[..n], num);
    }
  }

  function Occurrences(order: Order, num: U16): nat {
    if order == [] then 0
    else Occurrences(order[..|order| - 1], num) + (if order[|order| - 1] == num then 1 else 0)
  }

  lemma {:induction false} OthersLength(order: Order, num: U16)
    ensures |Others(order, num)| + Occurrences(order, num) == |order|
    ensures Occurrences(order, num) == 0 <==> num !in order
  {
    if order != [] {
      var n := |order| - 1;
      OthersLength(order[..n], num);
      assert order == order[..n] + [order[n]];
    }
  }

  /** Taking out an occurrence of num, or putting one in, leaves the others as they are. */
  lemma OthersKept(a: Order, b: Order, num: U16)
    ensures Others(a + [num] + b, num) == Others(a + b, num)
    ensures Occurrences(a + [num] + b, num) == Occurrences(a + b, num) + 1
  {
    hide Others, Occurrences;
    OthersSplit(a + [num], b, num);
    OthersSplit(a, [num], num);
    OthersSplit(a, b, num);
    JustNum(num);
    OthersLength(a + [num] + b, num);
    OthersLength(a + b, num);
  }

  lemma JustNum(num: U16)
    ensures Others([num], num) == []
  {
    assert [num][..0] == [];
  }

  lemma RemovedKept(order: Order, k: nat, num: U16)
    requires k < |order| && order[k] == num
    ensures Others(Removed(order, k), num) == Others(order, num)
    ensures Occurrences(Removed(order, k), num) == Occurrences(order, num) - 1
  {
    assert order == order[..k] + [num] + order[k + 1..];
    OthersKept(order[..k], order[k + 1..], num);
  }

  lemma FrontKept(order: Order, num: U16)
    ensures Others([num] + order, num) == Others(order, num)
    ensures Occurrences([num] + order, num) == Occurrences(order, num) + 1
  {
    OthersKept([], order, num);
    assert [] + [num] + order == [num] + order && [] + order == order;
  }

  lemma BackKept(order: Order, num: U16)
    ensures Others(order + [num], num) == Others(order, num)
    ensures Occurrences(order + [num], num) == Occurrences(order, num) + 1
  {
    OthersKept(order, [], num);
    assert order + [num] + [] == order + [num] && order + [] == order;
  }

  /** Setting keeps the other entries in their order and never makes a second occurrence. */
  lemma SetKeepsOthers(order: Order, num: U16, deviceKnown: bool, front: bool)
    ensures var after := AfterSet(order, num, deviceKnown, front);
            && Others(after, num) == Others(order, num)
            && Occurrences(after, num) == if num in order || !deviceKnown then Occurrences(order, num) else 1
  {
    hide Others, Occurrences;
    OthersLength(order, num);
    var k := Index(order, num);
    if k == |order| {
      FrontKept(order, num);
      BackKept(order, num);
    } else {
      RemovedKept(order, k, num);
      FrontKept(Removed(order, k), num);
    }
  }

  lemma DeleteKeepsOthers(order: Order, num: U16)
    ensures Others(AfterDelete(order, num), num) == Others(order, num)
    ensures Occurrences(AfterDelete(order, num), num) == if num in order then Occurrences(order, num) - 1 else 0
  {
    OthersLength(order, num);
    var k := Index(order, num);
    if k < |order| {
      RemovedKept(order, k, num);
    }
  }

  /** Where the entry ends up: first when forced in front of Windows, else where it was, else last. */
  lemma SetPlaces(order: Order, num: U16, deviceKnown: bool, front: bool)
    requires deviceKnown || num in order
    ensures var after := AfterSet(order, num, deviceKnown, front);
            && Index(after, num) == (if front then 0 else Index(order, num))
            && num in after
  {
    var after := AfterSet(order, num, deviceKnown, front);
    var k := Index(order, num);
    if front {
      assert after[0] == num;
    } else if k == |order| {
      IndexIs(order + [num], num, |order|);
    }
  }

  lemma {:induction false} IndexFromIs(order: Order, num: U16, i: nat, k: nat)
    requires i <= k < |order| && order[k] == num && num !in order[i..k]
    ensures IndexFrom(order, num, i) == k
    decreases k - i
  {
    if i < k {
      assert order[i] == order[i..k][0] && order[i + 1..k] == order[i..k][1..];
      IndexFromIs(order, num, i + 1, k);
    }
  }

  lemma IndexIs(order: Order, num: U16, k: nat)
    requires k < |order| && order[k] == num && num !in order[..k]
    ensures Index(order, num) == k
  {
    IndexFromIs(order, num, 0, k);
  }

  /** Deleting forgets a set before it; so deleting after a set that inserted gives back the original order. */
  lemma DeleteForgetsSet(order: Order, num: U16, deviceKnown: bool, front: bool)
    ensures AfterDelete(AfterSet(order, num, deviceKnown, front), num) == AfterDelete(order, num)
    ensures num !in order ==> AfterDelete(AfterSet(order, num, deviceKnown, front), num) == order
  {
    var after := AfterSet(order, num, deviceKnown, front);
    var k := Index(order, num);
    if after != order {
      if front {
        IndexIs(after, num, 0);
        assert Removed(after, 0) == after[1..];
      } else {
        IndexIs(after, num, |order|);
        assert Removed(after, |order|) == order;
      }
    }
  }

  /** With the buffer in between this holds exactly when the set does not insert, or has room to. */
  lemma DeleteForgetsSetExactly(order: Order, num: U16, deviceKnown: bool, front: bool)
    ensures var outcome := SetOutcome(order, num, deviceKnown, front);
            outcome.Stored? && DeleteOutcome(outcome.order, num) == DeleteOutcome(order, num)
            <==> !deviceKnown || |order| < CAPACITY || (|order| == CAPACITY && num in order)
  {
    if |order| <= CAPACITY {
      DeleteForgetsSet(order, num, deviceKnown, front);
    } else {
      IndexIs([num], num, 0);
    }
  }

  lemma SetTwiceIsOnce(order: Order, num: U16, deviceKnown: bool, front: bool)
    ensures var once := AfterSet(order, num, deviceKnown, front);
            AfterSet(once, num, deviceKnown, front) == once
  {
    if deviceKnown || num in order {
      SetPlaces(order, num, deviceKnown, front);
    }
  }

  /** An order is its part in front of the first num, num, and what follows. */
  lemma SetAround(a: Order, num: U16, b: Order, deviceKnown: bool)
    requires num !in a
    ensures AfterSet(a + [num] + b, num, deviceKnown, false) == a + [num] + b
    ensures AfterSet(a + [num] + b, num, deviceKnown, true) == [num] + a + b
    ensures AfterDelete(a + [num] + b, num) == a + b
  {
    var order := a + [num] + b;
    assert order[..|a|] == a && order[|a| + 1..] == b;
    IndexIs(order, num, |a|);
  }

  lemma SetInto(a: Order, num: U16)
    requires num !in a
    ensures AfterSet(a, num, true, true) == [num] + a && AfterSet(a, num, true, false) == a + [num]
    ensures forall front :: AfterSet(a, num, false, front) == a
    ensures AfterDelete(a, num) == a
  {
  }

  /** In front of 1024 entries there is nothing between this and the list; a full buffer is overrun. */
  lemma SetThroughBuffer(order: Order, num: U16, deviceKnown: bool, front: bool)
    ensures |order| < 1024 || (|order| == 1024 && (num in order || !deviceKnown)) ==>
              SetOutcome(order, num, deviceKnown, front) == Stored(AfterSet(order, num, deviceKnown, front))
    ensures SetOutcome(order, num, deviceKnown, front) == Overrun
            <==> |order| == 1024 && deviceKnown && num !in order
    ensures |order| > 1024 ==>
              SetOutcome(order, num, deviceKnown, front) == Stored(if deviceKnown then [num] else order)
    ensures |order| <= 1024 ==> DeleteOutcome(order, num) == AfterDelete(order, num)
    ensures |order| > 1024 ==> DeleteOutcome(order, num) == order
  {
  }

  // -------------------------------------------------------------------------
  // Runs
  // -------------------------------------------------------------------------

  datatype Op = Set(deviceKnown: bool, front: bool) | Delete

  /** What one call of either routine makes of the stored order. */
  function Step(order: Order, num: U16, op: Op): Outcome {
    match op
    case Set(deviceKnown, front) => SetOutcome(order, num, deviceKnown, front)
    case Delete => Stored(DeleteOutcome(order, num))
  }

  /** What a run leaves stored; nothing comes after an overrun. */
  function After(order: Order, num: U16, ops: seq<Op>): Outcome {
    if ops == [] then Stored(order)
    else
      match After(order, num, ops[..|ops| - 1])
      case Overrun => Overrun
      case Stored(before) => Step(before, num, ops[|ops| - 1])
  }

  /** The others leave a place in the buffer for num, or there are none. */
  predicate Roomy(order: Order, num: U16) {
    Others(order, num) == [] || (|order| <= CAPACITY && |Others(order, num)| < CAPACITY)
  }

  lemma StepKeepsOthers(order: Order, num: U16, op: Op)
    requires Roomy(order, num)
    ensures var after := Step(order, num, op);
            after.Stored? && Others(after.order, num) == Others(order, num) && Roomy(after.order, num)
  {
    hide Others, Occurrences;
    OthersLength(order, num);
    JustNum(num);
    match op
    case Set(deviceKnown, front) =>
      SetKeepsOthers(order, num, deviceKnown, front);
      OthersLength(AfterSet(order, num, deviceKnown, front), num);
    case Delete =>
      DeleteKeepsOthers(order, num);
      OthersLength(AfterDelete(order, num), num);
  }

  /** With room to start with, every run stays inside the buffer and never changes the order of the other entries. */
  lemma {:induction false} RunKeepsOthers(order: Order, num: U16, ops: seq<Op>)
    requires Roomy(order, num)
    ensures var after := After(order, num, ops);
            after.Stored? && Others(after.order, num) == Others(order, num) && Roomy(after.order, num)
  {
    hide Others, Step, Roomy;
    if ops != [] {
      RunKeepsOthers(order, num, ops[..|ops| - 1]);
      StepKeepsOthers(After(order, num, ops[..|ops| - 1]).order, num, ops[|ops| - 1]);
    }
  }

  /** Over every run of every order, num occurs at most once if it did at the start. */
  lemma {:induction false} RunAddsNoSecond(order: Order, num: U16, ops: seq<Op>)
    requires Occurrences(order, num) <= 1 && After(order, num, ops).Stored?
    ensures Occurrences(After(order, num, ops).order, num) <= 1
  {
    hide Occurrences;
    if ops != [] {
      RunAddsNoSecond(order, num, ops[..|ops| - 1]);
      var before := After(order, num, ops[..|ops| - 1]).order;
      OthersLength([num], num);
      match ops[|ops| - 1]
      case Set(deviceKnown, front) => SetKeepsOthers(before, num, deviceKnown, front);
      case Delete => DeleteKeepsOthers(before, num);
    }
  }

  /** The run stays inside the buffer and keeps the other entries. */
  predicate Harmless(order: Order, num: U16, ops: seq<Op>) {
    var after := After(order, num, ops);
    after.Stored? && Others(after.order, num) == Others(order, num)
  }

  /** Every run is harmless exactly when the others leave a place in the buffer, or there are none. */
  lemma RunsHarmlessExactly(order: Order, num: U16)
    ensures (forall ops :: Harmless(order, num, ops)) <==> Roomy(order, num)
  {
    if Roomy(order, num) {
      forall ops
        ensures Harmless(order, num, ops)
      {
        RunKeepsOthers(order, num, ops);
      }
    } else {
      OneSetHarms(order, num);
    }
  }

  /** Without room one set of a known device does the harm: it overruns the buffer, or replaces the whole order. */
  lemma OneSetHarms(order: Order, num: U16)
    requires !Roomy(order, num)
    ensures !Harmless(order, num, [Set(true, false)])
  {
    hide Others, Occurrences, AfterSet;
    var ops := [Set(true, false)];
    assert ops[..0] == [];
    assert After(order, num, ops) == SetOutcome(order, num, true, false);
    OthersLength(order, num);
    JustNum(num);
  }

  // -------------------------------------------------------------------------
  // The routines on the firmware's variables
  // -------------------------------------------------------------------------

  /** The firmware's boot variables, with the entry variables under their numbers. */
  class Firmware {
    var order: Order
    var next: Option<U16>
    var entries: map<U16, seq<U8>>

    constructor (order: Order, next: Option<U16>, entries: map<U16, seq<U8>>)
      ensures this.order == order && this.next == next && this.entries == entries
    {
      this.order, this.next, this.entries := order, next, entries;
    }

    /** Reads the boot order into a buffer; a variable too large for the buffer is not read at all. */
    method GetOrder(buffer: array<U16>) returns (count: nat)
      modifies buffer
      ensures count == |Readable(order, buffer.Length)| <= buffer.Length
      ensures buffer[..count] == Readable(order, buffer.Length)
    {
      if |order| > buffer.Length {
        return 0;
      }
      forall i | 0 <= i < |order| {
        buffer[i] := order[i];
      }
      return |order|;
    }
  }

  /** What a buffer of this capacity gets to see of the order. */
  function Readable(order: Order, capacity: nat): Order {
    if |order| <= capacity then order else []
  }

  class EfiBoot {
    const firmware: Firmware
    const tempBuf: array<U16>
    const deviceInfoValid: bool
    const partInfo: LoadOption.PartitionInfo

    constructor (firmware: Firmware, deviceInfoValid: bool, partInfo: LoadOption.PartitionInfo)
      ensures this.firmware == firmware && this.deviceInfoValid == deviceInfoValid && this.partInfo == partInfo
      ensures fresh(tempBuf) && tempBuf.Length == CAPACITY
    {
      this.firmware, this.deviceInfoValid, this.partInfo := firmware, deviceInfoValid, partInfo;
      tempBuf := new U16[CAPACITY](_ => 0);
    }

    /** Searches the buffer for a number; count when it is not there. */
    method FindEntry(num: U16, count: nat) returns (k: nat)
      requires count <= tempBuf.Length
      ensures k == Index(tempBuf[..count], num)
    {
      k := 0;
      while k < count
        invariant k <= count && IndexFrom(tempBuf[..count], num, k) == Index(tempBuf[..count], num)
      {
        if tempBuf[k] == num {
          return;
        }
        k := k + 1;
      }
    }

    /** Moves the entries behind position pos down by one. */
    method CloseGap(pos: nat, count: nat)
      requires pos < count <= tempBuf.Length
      modifies tempBuf
      ensures tempBuf[..count - 1] == Removed(old(tempBuf[..count]), pos)
    {
      ghost var was := tempBuf[..count];
      for i := pos to count - 1
        invariant forall j | 0 <= j < i :: tempBuf[j] == Removed(was, pos)[j]
        invariant forall j | i <= j < count :: tempBuf[j] == was[j]
      {
        tempBuf[i] := tempBuf[i + 1];
      }
    }

    method DeleteStartExec(num: U16)
      requires tempBuf.Length == CAPACITY
      modifies firmware, tempBuf
      ensures firmware.entries == old(firmware.entries) - {num}
      ensures firmware.order == DeleteOutcome(old(firmware.order), num)
      ensures firmware.next == if firmware.order != old(firmware.order) && old(firmware.next) == Some(num)
                               then None else old(firmware.next)
    {
      firmware.entries := firmware.entries - {num};
      var count := firmware.GetOrder(tempBuf);
      ghost var was := tempBuf[..count];
      var pos := FindEntry(num, count);
      if pos < count {
        CloseGap(pos, count);
        count := count - 1;
        firmware.order := tempBuf[..count];
        if firmware.next == Some(num) {
          firmware.next := None;
        }
      }
    }

    /** Moves the entries in front of position k up by one and puts num first. */
    method MoveToFront(num: U16, k: nat)
      requires k < tempBuf.Length
      modifies tempBuf
      ensures tempBuf[..] == [num] + old(tempBuf[..k]) + old(tempBuf[k + 1..])
    {
      var i := k;
      while i > 0
        invariant 0 <= i <= k
        invariant forall j | 0 <= j < i || k < j < tempBuf.Length :: tempBuf[j] == old(tempBuf[j])
        invariant forall j | i < j <= k :: tempBuf[j] == old(tempBuf[j - 1])
      {
        tempBuf[i] := tempBuf[i - 1];
        i := i - 1;
      }
      tempBuf[0] := num;
      ghost var moved := [num] + old(tempBuf[..k]) + old(tempBuf[k + 1..]);
      forall j | 0 <= j < tempBuf.Length
        ensures tempBuf[j] == moved[j]
      {
      }
    }

    /** Inserts num into the buffered order, or moves it to the front; stops in front of a write behind the buffer. */
    method Enter(num: U16, count: nat, pos: nat, front: bool) returns (overrun: bool, updated: bool, newCount: nat)
      requires tempBuf.Length == CAPACITY
      requires count <= tempBuf.Length && pos == Index(tempBuf[..count], num)
      modifies tempBuf
      ensures newCount <= tempBuf.Length
      ensures overrun <==> Overruns(old(tempBuf[..count]), num, deviceInfoValid)
      ensures !overrun ==> tempBuf[..newCount] == AfterSet(old(tempBuf[..count]), num, deviceInfoValid, front)
      ensures !updated ==> newCount == count && tempBuf[..] == old(tempBuf[..])
      ensures overrun ==> !updated
      ensures !overrun ==>
                (updated <==> AfterSet(old(tempBuf[..count]), num, deviceInfoValid, front) != old(tempBuf[..count])
                              || (0 < pos < count && front))
    {
      ghost var was := tempBuf[..count];
      overrun, updated, newCount := false, false, count;
      if pos == count {
        if deviceInfoValid {
          if count == tempBuf.Length {
            return true, false, count;
          }
          if front {
            MoveToFront(num, count);
            assert tempBuf[..count + 1] == [num] + was;
          } else {
            tempBuf[count] := num;
            assert tempBuf[..count + 1] == was + [num];
          }
          updated, newCount := true, count + 1;
        }
      } else if pos > 0 && front {
        MoveToFront(num, pos);
        assert tempBuf[..count] == [num] + Removed(was, pos);
        updated := true;
      }
    }

    /** isWindows says which entry variables name the Windows boot manager; nothing after an overrun is modelled. */
    method SetStartExec(description: LoadOption.Chars, execPath: LoadOption.Chars, setBootEntry: bool,
                        forceFirstBootEntry: bool, setBootNext: bool, num: U16, attributes: U32,
                        isWindows: seq<U8> -> bool)
      returns (overrun: bool)
      requires tempBuf.Length == CAPACITY && LoadOption.Stored(partInfo)
      modifies firmware, tempBuf
      ensures deviceInfoValid ==>
                firmware.entries
                == old(firmware.entries)[num := LoadOption.Bytes(attributes, description, partInfo, execPath)]
      ensures !deviceInfoValid ==> firmware.entries == old(firmware.entries)
      ensures overrun <==> setBootEntry && Overruns(old(firmware.order), num, deviceInfoValid)
      ensures !setBootEntry || overrun ==> firmware.order == old(firmware.order)
      ensures setBootEntry && !overrun ==>
                SetOutcome(old(firmware.order), num, deviceInfoValid,
                           forceFirstBootEntry && WindowsFirst(firmware.entries, old(firmware.order), isWindows))
                == Stored(firmware.order)
      ensures firmware.next == if setBootNext && !overrun then Some(num) else old(firmware.next)
    {
      hide LoadOption.Bytes, SetOutcome, Overruns;
      overrun := false;
      if deviceInfoValid {
        WriteEntry(description, execPath, num, attributes);
      }
      if setBootEntry {
        overrun := UpdateOrder(forceFirstBootEntry, num, isWindows);
        if overrun {
          return;
        }
      } else {
        var count := firmware.GetOrder(tempBuf);
      }
      if setBootNext {
        firmware.next := Some(num);
      }
    }

    /** Stores the entry variable unless it already has this value. */
    method WriteEntry(description: LoadOption.Chars, execPath: LoadOption.Chars, num: U16, attributes: U32)
      requires LoadOption.Stored(partInfo)
      modifies firmware`entries
      ensures firmware.entries
           == old(firmware.entries)[num := LoadOption.Bytes(attributes, description, partInfo, execPath)]
    {
      var startVar := LoadOption.SerializeStartExec(attributes, description, partInfo, execPath);
      if num !in firmware.entries || firmware.entries[num] != startVar[..] {
        firmware.entries := firmware.entries[num := startVar[..]];
      }
    }

    method UpdateOrder(forceFirstBootEntry: bool, num: U16, isWindows: seq<U8> -> bool) returns (overrun: bool)
      requires tempBuf.Length == CAPACITY
      modifies firmware`order, tempBuf
      ensures overrun <==> Overruns(old(firmware.order), num, deviceInfoValid)
      ensures overrun ==> firmware.order == old(firmware.order)
      ensures !overrun ==>
                SetOutcome(old(firmware.order), num, deviceInfoValid,
                           forceFirstBootEntry && WindowsFirst(firmware.entries, old(firmware.order), isWindows))
                == Stored(firmware.order)
    {
      var count := firmware.GetOrder(tempBuf);
      ghost var was := tempBuf[..count];
      var pos := FindEntry(num, count);
      var firstEntryIsWindows := false;
      if pos != 0 || count == 0 {
        var first := tempBuf[0];
        firstEntryIsWindows := first in firmware.entries && isWindows(firmware.entries[first]);
      }
      var front := forceFirstBootEntry && firstEntryIsWindows;
      ghost var atFront := forceFirstBootEntry && WindowsFirst(firmware.entries, was, isWindows);
      assert AfterSet(was, num, deviceInfoValid, front) == AfterSet(was, num, deviceInfoValid, atFront) by {
        FrontIrrelevant(was, num, deviceInfoValid);
        assert count > 0 ==> was[0] == tempBuf[0];
      }
      var updated;
      overrun, updated, count := Enter(num, count, pos, front);
      if updated {
        firmware.order := tempBuf[..count];
      }
    }
  }

  /** An empty order and an order that already starts with num are treated alike in front or not. */
  lemma FrontIrrelevant(order: Order, num: U16, deviceKnown: bool)
    ensures order == [] || Index(order, num) == 0 ==>
              AfterSet(order, num, deviceKnown, true) == AfterSet(order, num, deviceKnown, false)
    ensures order == [] ==> AfterSet(order, num, deviceKnown, true) == if deviceKnown then [num] else []
  {
  }

  /** The first entry of the order names the Windows boot manager. */
  predicate WindowsFirst(entries: map<U16, seq<U8>>, order: Order, isWindows: seq<U8> -> bool) {
    order != [] && order[0] in entries && isWindows(entries[order[0]])
  }

  lemma WindowsFirstMeans(entries: map<U16, seq<U8>>, isWindows: seq<U8> -> bool, first: U16, rest: Order)
    ensures !WindowsFirst(entries, [], isWindows)
    ensures WindowsFirst(entries, [first] + rest, isWindows)
            <==> exists entry :: isWindows(entry) && first in entries && entries[first] == entry
  {
    assert ([first] + rest)[0] == first;
  }

  /**
   * A set stays inside the buffer and keeps the other entries exactly when it inserts nothing, when there
   * is room, or when a full order has the entry already; a longer order only has nothing to lose when
   * it has no other entry.
   */
  lemma OthersSurviveExactly(order: Order, num: U16, deviceKnown: bool, front: bool)
    ensures var outcome := SetOutcome(order, num, deviceKnown, front);
            outcome.Stored? && Others(outcome.order, num) == Others(order, num)
            <==> !deviceKnown || |order| < CAPACITY || (|order| == CAPACITY && num in order)
                 || (|order| > CAPACITY && forall e | e in order :: e == num)
  {
    if |order| <= CAPACITY {
      SetKeepsOthers(order, num, deviceKnown, front);
    } else {
      OthersNone(order, num);
      JustNum(num);
    }
  }

  lemma {:induction false} OthersNone(order: Order, num: U16)
    ensures Others(order, num) == [] <==> forall e | e in order :: e == num
  {
    if order != [] {
      var n := |order| - 1;
      OthersNone(order[..n], num);
      assert order == order[..n] + [order[n]] && order[n] in order;
      forall e | e in order[..n]
        ensures e in order
      {
      }
    }
  }

  /** For every entry number there is a full order that overruns the buffer, in front or at the end. */
  lemma FullOrderOverruns(num: U16) returns (order: Order)
    ensures |order| == 1024 && forall front :: SetOutcome(order, num, true, front) == Overrun
  {
    var other: U16 := if num == 0 then 1 else 0;
    order := Repeated(other, CAPACITY);
    assert num !in order;
  }
}
