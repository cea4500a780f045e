/** The boot entry variable (sections 3.1.3 and 10.3 of the UEFI Specification 2.8): writing and reading it. */
module LoadOption {
  import opened Base

  type Chars = seq<U16>

  /** The system partition, as stored in its device path node. */
  datatype PartitionInfo = PartitionInfo(number: U32, startingOffset: nat, partitionLength: nat, id: seq<U8>)

  predicate Stored(p: PartitionInfo) {
    p.startingOffset < 0x8000_0000_0000_0000 && p.partitionLength < 0x8000_0000_0000_0000 && |p.id| == 16
  }

  // -------------------------------------------------------------------------
  // The format
  // -------------------------------------------------------------------------

  /** n in size bytes, least significant first, higher bits cut off. */
  function LittleEndian(n: nat, size: nat): (r: seq<U8>)
    ensures |r| == size
    decreases size
  {
    if size == 0 then [] else [n % 0x100] + LittleEndian(n / 0x100, size - 1)
  }

  function Encoded(s: Chars): (r: seq<U8>)
    ensures |r| == 2 * |s|
  {
    if s == [] then [] else Encoded(s[..|s| - 1]) + LittleEndian(s[|s| - 1], 2)
  }

  function Terminated(s: Chars): (r: seq<U8>)
    ensures |r| == 2 * |s| + 2
  {
    Encoded(s) + LittleEndian(0, 2)
  }

  /** A device path node: type, subtype, length of the whole node, payload. */
  function Node(type_: U8, subType: U8, payload: seq<U8>): seq<U8> {
    [type_, subType] + LittleEndian(4 + |payload|, 2) + payload
  }

  function HardDrive(p: PartitionInfo): (r: seq<U8>)
    ensures |r| == |p.id| + 22
  {
    LittleEndian(p.number, 4) + LittleEndian(p.startingOffset / 512, 8) + LittleEndian(p.partitionLength / 512, 8)
    + p.id + [2, 2]
  }

  function DevicePath(p: PartitionInfo, path: Chars): seq<U8> {
    Node(4, 1, HardDrive(p)) + Node(4, 4, Terminated(path)) + Node(0x7f, 0xff, [])
  }

  function Bytes(attributes: U32, description: Chars, p: PartitionInfo, path: Chars): seq<U8> {
    LittleEndian(attributes, 4) + LittleEndian(|DevicePath(p, path)|, 2) + Terminated(description) + DevicePath(p, path)
  }

  // -------------------------------------------------------------------------
  // Writing
  // -------------------------------------------------------------------------

  /** Stores bytes at the write pointer and advances it. */
  method Put(a: array<U8>, pos: nat, bytes: seq<U8>, ghost done: seq<U8>) returns (next: nat)
    requires pos + |bytes| <= a.Length && a[..pos] == done
    modifies a
    ensures next == pos + |bytes| && a[..next] == done + bytes
  {
    forall i | 0 <= i < |bytes| {
      a[pos + i] := bytes[i];
    }
    next := pos + |bytes|;
    assert forall i | 0 <= i < |bytes| :: a[pos..next][i] == bytes[i];
    assert a[pos..next] == bytes;
    assert a[..next] == a[..pos] + a[pos..next];
  }

  lemma NothingEncoded(s: Chars)
    requires s == []
    ensures Encoded(s) == []
  {
  }

  lemma EncodedLast(s: Chars)
    requires s != []
    ensures Encoded(s) == Encoded(s[..|s| - 1]) + LittleEndian(s[|s| - 1], 2)
  {
  }

  /** Stores a string character by character, then the terminating zero. */
  method PutString(a: array<U8>, pos: nat, s: Chars, ghost done: seq<U8>) returns (next: nat)
    requires pos + 2 * |s| + 2 <= a.Length && a[..pos] == done
    modifies a
    ensures next == pos + 2 * |s| + 2 && a[..next] == done + Terminated(s)
  {
    hide LittleEndian, Encoded;
    next := pos;
    NothingEncoded(s[..0]);
    for i := 0 to |s|
      invariant next == pos + 2 * i && a[..next] == done + Encoded(s[..i])
    {
      EncodedLast(s[..i + 1]);
      assert s[..i + 1][..i] == s[..i];
      next := Put(a, next, LittleEndian(s[i], 2), done + Encoded(s[..i]));
      assert (done + Encoded(s[..i])) + LittleEndian(s[i], 2) == done + Encoded(s[..i + 1]);
    }
    assert s[..|s|] == s;
    next := Put(a, next, LittleEndian(0, 2), done + Encoded(s));
    assert a[..next] == done + Terminated(s);
  }

  lemma Joined4(a: seq<U8>, b: seq<U8>, c: seq<U8>, d: seq<U8>, e: seq<U8>)
    ensures a + b + c + d + e == a + (b + c + d + e)
  {
  }

  method PutHardDrive(a: array<U8>, pos: nat, p: PartitionInfo, ghost done: seq<U8>) returns (pVar: nat)
    requires Stored(p) && pos + 42 <= a.Length && a[..pos] == done
    modifies a
    ensures pVar == pos + 42 && a[..pVar] == done + Node(4, 1, HardDrive(p))
  {
    hide LittleEndian, HardDrive;
    pVar := Put(a, pos, [4], done);
    pVar := Put(a, pVar, [1], done + [4]);
    pVar := Put(a, pVar, LittleEndian(42, 2), done + [4] + [1]);
    Joined4(done, [4], [1], LittleEndian(42, 2), []);
    assert [4] + [1] == [4, 1];
    ghost var head := [4, 1] + LittleEndian(42, 2);
    pVar := PutPartition(a, pVar, p, done + head);
    Joined4(done, head, HardDrive(p), [], []);
  }

  /** The payload of the hard drive node. */
  method PutPartition(a: array<U8>, pos: nat, p: PartitionInfo, ghost done: seq<U8>) returns (pVar: nat)
    requires Stored(p) && pos + 38 <= a.Length && a[..pos] == done
    modifies a
    ensures pVar == pos + 38 && a[..pVar] == done + HardDrive(p)
  {
    hide LittleEndian;
    ghost var number := LittleEndian(p.number, 4);
    ghost var start, length := LittleEndian(p.startingOffset / 512, 8), LittleEndian(p.partitionLength / 512, 8);
    pVar := Put(a, pos, LittleEndian(p.number, 4), done);
    pVar := Put(a, pVar, LittleEndian(p.startingOffset / 512, 8), done + number);
    pVar := Put(a, pVar, LittleEndian(p.partitionLength / 512, 8), done + number + start);
    Joined4(done, number, start, length, []);
    ghost var front := number + start + length;
    pVar := Put(a, pVar, p.id, done + front);
    pVar := Put(a, pVar, [2], done + front + p.id);
    pVar := Put(a, pVar, [2], done + front + p.id + [2]);
    Joined4(done, front, p.id, [2], [2]);
    assert front + p.id + [2] + [2] == front + p.id + [2, 2];
  }

  method PutFilePath(a: array<U8>, pos: nat, path: Chars, ghost done: seq<U8>) returns (pVar: nat)
    requires pos + 2 * |path| + 10 <= a.Length && a[..pos] == done
    modifies a
    ensures pVar == pos + 2 * |path| + 10 && a[..pVar] == done + Node(4, 4, Terminated(path)) + Node(0x7f, 0xff, [])
  {
    hide Encoded;
    ghost var head := [4, 4] + LittleEndian(|path| * 2 + 2 + 4, 2);
    pVar := Put(a, pos, LittleEndian(0x0404, 2), done);
    assert LittleEndian(0x0404, 2) == [4, 4];
    pVar := Put(a, pVar, LittleEndian(|path| * 2 + 2 + 4, 2), done + [4, 4]);
    assert a[..pVar] == done + head;
    pVar := PutString(a, pVar, path, done + head);
    assert a[..pVar] == done + Node(4, 4, Terminated(path));
    assert LittleEndian(0x04ff7f, 4) == [0x7f, 0xff, 4, 0] == Node(0x7f, 0xff, []) by { EndNode(); }
    pVar := Put(a, pVar, LittleEndian(0x04ff7f, 4), done + Node(4, 4, Terminated(path)));
  }

  lemma EndNode()
    ensures LittleEndian(0x04ff7f, 4) == [0x7f, 0xff, 4, 0] == Node(0x7f, 0xff, [])
  {
    assert LittleEndian(0x04ff, 2) == [0xff, 4];
    assert LittleEndian(4, 2) == [4, 0];
    assert LittleEndian(0x04ff7f, 4) == [0x7f] + LittleEndian(0x04ff, 3);
    assert LittleEndian(0x04ff, 3) == [0xff] + LittleEndian(4, 2);
  }

  lemma BytesInParts(attributes: U32, description: Chars, p: PartitionInfo, path: Chars)
    requires Stored(p)
    ensures Bytes(attributes, description, p, path)
         == LittleEndian(attributes, 4) + LittleEndian(50 + |path| * 2 + 2, 2) + Terminated(description)
            + Node(4, 1, HardDrive(p)) + Node(4, 4, Terminated(path)) + Node(0x7f, 0xff, [])
  {
    hide Terminated, LittleEndian, HardDrive, Node;
    DevicePathLength(p, path);
    Joined4(LittleEndian(attributes, 4) + LittleEndian(50 + |path| * 2 + 2, 2) + Terminated(description),
            Node(4, 1, HardDrive(p)), Node(4, 4, Terminated(path)), Node(0x7f, 0xff, []), []);
  }

  /** The serializer fills exactly the size it computed beforehand. */
  method SerializeStartExec(attributes: U32, description: Chars, p: PartitionInfo,
                            path: Chars) returns (startVar: array<U8>)
    requires Stored(p)
    ensures fresh(startVar) && startVar[..] == Bytes(attributes, description, p, path)
  {
    hide Terminated, LittleEndian, HardDrive, Node, DevicePath, Bytes;
    var varSize := 56;
    varSize := varSize + |description| * 2 + 2;
    varSize := varSize + |path| * 2 + 2;
    startVar := new U8[varSize](_ => 0);
    ghost var attr, length := LittleEndian(attributes, 4), LittleEndian(50 + |path| * 2 + 2, 2);
    ghost var front := attr + length + Terminated(description);
    var pVar := Put(startVar, 0, LittleEndian(attributes, 4), []);
    pVar := Put(startVar, pVar, LittleEndian(50 + |path| * 2 + 2, 2), [] + attr);
    pVar := PutString(startVar, pVar, description, [] + attr + length);
    assert startVar[..pVar] == front;
    pVar := PutHardDrive(startVar, pVar, p, front);
    pVar := PutFilePath(startVar, pVar, path, front + Node(4, 1, HardDrive(p)));
    BytesInParts(attributes, description, p, path);
    assert startVar[..] == startVar[..pVar];
  }

  // -------------------------------------------------------------------------
  // Reading
  // -------------------------------------------------------------------------

  function Word(b: seq<U8>, at: nat): nat
    requires at + 2 <= |b|
  {
    b[at] as int + 0x100 * b[at + 1] as int
  }

  /** The characters before the first zero character, or before the end. */
  function UntilNul(b: seq<U8>): (s: Chars)
    ensures 2 * |s| <= |b| && 0 !in s
  {
    if |b| < 2 || Word(b, 0) == 0 then [] else [Word(b, 0)] + UntilNul(b[2..])
  }

  /** The first node of a device path if it has this type: its payload and what follows it. */
  function TakeNode(b: seq<U8>, type_: U8, subType: U8): Option<(seq<U8>, seq<U8>)> {
    if |b| >= 4 && b[0] == type_ && b[1] == subType && 4 <= Word(b, 2) <= |b|
    then Some((b[4..Word(b, 2)], b[Word(b, 2)..])) else None
  }

  datatype Entry = Entry(attributes: seq<U8>, description: Chars, hardDrive: seq<U8>, path: Chars)

  /** The hard drive and file path nodes of a device path that ends right after them. */
  function ReadDevicePath(b: seq<U8>): Option<(seq<U8>, Chars)> {
    match TakeNode(b, 4, 1)
    case None => None
    case Some((drive, b1)) =>
      match TakeNode(b1, 4, 4)
      case None => None
      case Some((file, b2)) =>
        if TakeNode(b2, 0x7f, 0xff) == Some(([], [])) then Some((drive, UntilNul(file))) else None
  }

  /** What a reader gets that goes by the stored lengths. */
  function Read(b: seq<U8>): Option<Entry> {
    if |b| < 6 then None
    else
      var description := UntilNul(b[6..]);
      var list := 6 + 2 * |description| + 2;
      if list + Word(b, 4) > |b| then None
      else
        match ReadDevicePath(b[list..list + Word(b, 4)])
        case None => None
        case Some((drive, path)) => Some(Entry(b[..4], description, drive, path))
  }

  lemma TwoBytes(n: nat)
    ensures n < 0x1_0000 ==> Word(LittleEndian(n, 2), 0) == n
    ensures Word(LittleEndian(n, 2), 0) == n % 0x1_0000
  {
    assert LittleEndian(n, 2) == [n % 0x100] + LittleEndian(n / 0x100, 1);
    assert LittleEndian(n / 0x100, 1) == [n / 0x100 % 0x100] + LittleEndian(n / 0x100 / 0x100, 0);
  }

  /** The number that size bytes from position at on stand for, least significant first. */
  function Value(b: seq<U8>, at: nat, size: nat): nat
    requires at + size <= |b|
    decreases size
  {
    if size == 0 then 0 else b[at] as int + 0x100 * Value(b, at + 1, size - 1)
  }

  function Power256(size: nat): (r: nat)
    ensures r > 0
  {
    if size == 0 then 1 else 0x100 * Power256(size - 1)
  }

  lemma {:induction false} ValueOf(n: nat, size: nat, before: seq<U8>, after: seq<U8>)
    requires n < Power256(size)
    ensures Value(before + LittleEndian(n, size) + after, |before|, size) == n
  {
    if size > 0 {
      var b := before + LittleEndian(n, size) + after;
      var low: U8 := n % 0x100;
      assert b == (before + [low]) + LittleEndian(n / 0x100, size - 1) + after;
      ValueOf(n / 0x100, size - 1, before + [low], after);
    }
  }

  lemma FieldSizes()
    ensures Power256(4) == 0x1_0000_0000 && Power256(8) == 0x1_0000_0000_0000_0000
  {
    assert Power256(2) == 0x1_0000;
    assert Power256(4) == 0x1_0000 * Power256(2);
    assert Power256(6) == 0x1_0000 * Power256(4);
    assert Power256(8) == 0x1_0000 * Power256(6);
  }

  /** The fields of the hard drive node's payload by place: number, start and length in sectors, signature, formats. */
  lemma HardDriveFields(p: PartitionInfo)
    requires Stored(p)
    ensures var b := HardDrive(p);
            && |b| == 38
            && Value(b, 0, 4) == p.number
            && Value(b, 4, 8) == p.startingOffset / 512
            && Value(b, 12, 8) == p.partitionLength / 512
            && b[20..36] == p.id
            && b[36..] == [2, 2]
  {
    hide LittleEndian, Value, Power256;
    FieldSizes();
    var number := LittleEndian(p.number, 4);
    var start, length := LittleEndian(p.startingOffset / 512, 8), LittleEndian(p.partitionLength / 512, 8);
    var b := HardDrive(p);
    ValueOf(p.number, 4, [], start + length + p.id + [2, 2]);
    assert b == [] + number + (start + length + p.id + [2, 2]);
    ValueOf(p.startingOffset / 512, 8, number, length + p.id + [2, 2]);
    assert b == number + start + (length + p.id + [2, 2]);
    ValueOf(p.partitionLength / 512, 8, number + start, p.id + [2, 2]);
    assert b == (number + start) + length + (p.id + [2, 2]);
  }

  /** The whole variable by place: attributes, length of the path list, and the list's nodes behind the description. */
  lemma BytesFields(attributes: U32, description: Chars, p: PartitionInfo, path: Chars)
    requires Stored(p)
    ensures var b := Bytes(attributes, description, p, path);
            var list := 8 + 2 * |description|;
            && |b| == list + 52 + 2 * |path|
            && Value(b, 0, 4) == attributes
            && b[6..list] == Terminated(description)
            && b[list..list + 4] == [4, 1, 42, 0]
            && b[list + 4..list + 42] == HardDrive(p)
            && b[list + 42..list + 44] == [4, 4]
            && b[list + 46..|b| - 4] == Terminated(path)
            && b[|b| - 4..] == [0x7f, 0xff, 4, 0]
  {
    hide LittleEndian, Value, Power256, HardDrive, Terminated, Bytes;
    BytesInParts(attributes, description, p, path);
    EndNode();
    FieldSizes();
    HardDriveHead();
    var attr, length, text := LittleEndian(attributes, 4), LittleEndian(52 + 2 * |path|, 2), Terminated(description);
    var drive, file := HardDrive(p), LittleEndian(4 + |Terminated(path)|, 2);
    var front, path_, end := attr + length + text, Terminated(path), [0x7f, 0xff, 4, 0];
    ValueOf(attributes, 4, [], length + text + ([4, 1, 42, 0] + drive) + ([4, 4] + file + path_) + end);
    assert Bytes(attributes, description, p, path) == front + ([4, 1, 42, 0] + drive) + ([4, 4] + file + path_) + end;
    NodesPlaced(front, drive, file, path_, end);
    assert Bytes(attributes, description, p, path)
        == [] + attr + (length + text + ([4, 1, 42, 0] + drive) + ([4, 4] + file + path_) + end);
    assert front[6..] == text;
  }

  lemma HardDriveHead()
    ensures LittleEndian(42, 2) == [42, 0]
  {
    assert LittleEndian(0, 1) == [0];
  }

  lemma NodesPlaced(front: seq<U8>, drive: seq<U8>, length: seq<U8>, path: seq<U8>, end: seq<U8>)
    requires |drive| == 38 && |length| == 2 && |end| == 4
    ensures var b := front + ([4, 1, 42, 0] + drive) + ([4, 4] + length + path) + end;
            var list := |front|;
            && |b| == list + 52 + |path| - 2
            && b[..list] == front
            && b[list..list + 4] == [4, 1, 42, 0] && b[list + 4..list + 42] == drive
            && b[list + 42..list + 44] == [4, 4] && b[list + 46..|b| - 4] == path && b[|b| - 4..] == end
  {
    var b := front + ([4, 1, 42, 0] + drive) + ([4, 4] + length + path) + end;
    var list := |front|;
    assert b[list..list + 42] == [4, 1, 42, 0] + drive;
    assert b[list + 42..|b| - 4] == [4, 4] + length + path;
  }

  /** Strings lie in the variable as 16-bit characters, least significant byte first, up to a zero character. */
  lemma {:induction false} TerminatedAt(s: Chars, k: nat)
    requires k <= |s|
    ensures Word(Terminated(s), 2 * k) == if k < |s| then s[k] else 0
  {
    hide LittleEndian;
    TwoBytes(0);
    if k == 0 {
      StringFront(s);
    } else {
      TerminatedAt(s[1..], k - 1);
      EncodedFront(s);
      assert Terminated(s) == LittleEndian(s[0], 2) + Terminated(s[1..]);
    }
  }

  lemma StringFront(s: Chars)
    ensures Word(Terminated(s), 0) == if s == [] then 0 else s[0]
  {
    hide LittleEndian;
    TwoBytes(0);
    if s != [] {
      EncodedFront(s);
      TwoBytes(s[0]);
      assert Terminated(s)[..2] == LittleEndian(s[0], 2);
    }
  }

  lemma {:induction false} EncodedFront(s: Chars)
    requires s != []
    ensures Encoded(s) == LittleEndian(s[0], 2) + Encoded(s[1..])
  {
    hide LittleEndian;
    var n := |s| - 1;
    if n == 0 {
      assert s[..0] == [] && s[1..] == [];
    } else {
      EncodedFront(s[..n]);
      assert s[..n][1..] == s[1..][..n - 1] && s[1..][n - 1] == s[n];
      EncodedLast(s[1..]);
      assert Encoded(s) == LittleEndian(s[0], 2) + Encoded(s[1..][..n - 1]) + LittleEndian(s[n], 2);
    }
  }

  /** The part of a string in front of its first zero. */
  function BeforeNul(s: Chars): (r: Chars)
    ensures r <= s && 0 !in r && (r == s || s[|r|] == 0)
  {
    if s == [] || s[0] == 0 then [] else [s[0]] + BeforeNul(s[1..])
  }

  /** A terminated string is read back up to its first zero, whatever follows it. */
  lemma {:induction false} StringReadBack(s: Chars, after: seq<U8>)
    ensures UntilNul(Terminated(s) + after) == BeforeNul(s)
  {
    hide LittleEndian;
    var b := Terminated(s) + after;
    TwoBytes(0);
    if s == [] {
      assert b[..2] == LittleEndian(0, 2);
    } else {
      TwoBytes(s[0]);
      EncodedFront(s);
      assert b[..2] == LittleEndian(s[0], 2);
      assert Word(b, 0) == s[0];
      if s[0] != 0 {
        assert b[2..] == Terminated(s[1..]) + after;
        StringReadBack(s[1..], after);
      }
    }
  }

  lemma NodeTaken(type_: U8, subType: U8, payload: seq<U8>, after: seq<U8>)
    requires 4 + |payload| < 0x1_0000
    ensures TakeNode(Node(type_, subType, payload) + after, type_, subType) == Some((payload, after))
  {
    hide LittleEndian;
    var b := Node(type_, subType, payload) + after;
    TwoBytes(4 + |payload|);
    assert b[2..4] == LittleEndian(4 + |payload|, 2);
    assert Word(b, 2) == 4 + |payload|;
    assert b[4..4 + |payload|] == payload && b[4 + |payload|..] == after;
  }

  lemma DevicePathReadBack(p: PartitionInfo, path: Chars)
    requires Stored(p) && 0 !in path && 2 * |path| + 52 < 0x1_0000
    ensures ReadDevicePath(DevicePath(p, path)) == Some((HardDrive(p), path))
  {
    hide HardDrive, Terminated, Node, TakeNode;
    var end := Node(0x7f, 0xff, []);
    var file := Node(4, 4, Terminated(path));
    NodeTaken(4, 1, HardDrive(p), file + end);
    NodeTaken(4, 4, Terminated(path), end);
    NodeTaken(0x7f, 0xff, [], []);
    assert Node(4, 1, HardDrive(p)) + file + end == Node(4, 1, HardDrive(p)) + (file + end);
    assert end + [] == end;
    StringReadBack(path, []);
    assert Terminated(path) + [] == Terminated(path);
  }

  /** The entry as it was meant. */
  function Meant(attributes: U32, description: Chars, p: PartitionInfo, path: Chars): Entry {
    Entry(LittleEndian(attributes, 4), description, HardDrive(p), path)
  }

  lemma DevicePathLength(p: PartitionInfo, path: Chars)
    requires Stored(p)
    ensures |DevicePath(p, path)| == 2 * |path| + 52
  {
  }

  lemma EntryReadBack(attributes: U32, description: Chars, p: PartitionInfo, path: Chars)
    requires Stored(p) && 0 !in description && 0 !in path && 2 * |path| + 52 < 0x1_0000
    ensures Read(Bytes(attributes, description, p, path)) == Some(Meant(attributes, description, p, path))
  {
    hide LittleEndian, Terminated, DevicePath, HardDrive, ReadDevicePath;
    var b, list := Bytes(attributes, description, p, path), DevicePath(p, path);
    DevicePathLength(p, path);
    TwoBytes(|list|);
    assert b[4..6] == LittleEndian(|list|, 2);
    assert Word(b, 4) == |list|;
    assert b[6..] == Terminated(description) + list;
    StringReadBack(description, list);
    var at := 6 + 2 * |description| + 2;
    assert b[at..at + |list|] == list;
    assert b[..4] == LittleEndian(attributes, 4);
    DevicePathReadBack(p, path);
  }

  /** A path read from a device path leaves room there for the nodes around it. */
  lemma PathFits(b: seq<U8>, drive: seq<U8>, path: Chars)
    requires ReadDevicePath(b) == Some((drive, path))
    ensures 2 * |path| + |drive| + 12 <= |b| && 0 !in path
  {
  }

  /**
   * The entry is read back as it was meant exactly when no string holds a zero and the path list length fits
   * 16 bits.
   */
  lemma ReadBackExactly(attributes: U32, description: Chars, p: PartitionInfo, path: Chars)
    requires Stored(p)
    ensures Read(Bytes(attributes, description, p, path)) == Some(Meant(attributes, description, p, path))
            <==> 0 !in description && 0 !in path && 2 * |path| + 52 < 0x1_0000
  {
    hide LittleEndian, Terminated, DevicePath, ReadDevicePath, HardDrive;
    var b, list := Bytes(attributes, description, p, path), DevicePath(p, path);
    if 0 !in description && 0 !in path && 2 * |path| + 52 < 0x1_0000 {
      EntryReadBack(attributes, description, p, path);
    } else if Read(b) == Some(Meant(attributes, description, p, path)) {
      DevicePathLength(p, path);
      TwoBytes(|list|);
      assert b[4..6] == LittleEndian(|list|, 2);
      assert Word(b, 4) == |list| % 0x1_0000;
      var at := 6 + 2 * |description| + 2;
      PathFits(b[at..at + Word(b, 4)], HardDrive(p), path);
    }
  }
}
