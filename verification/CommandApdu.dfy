/** Building and classifying smart-card command APDUs (section 5.1 of ISO/IEC 7816-4:2005). */
module CommandApdu {
  import opened Base

  const MAX_NC := 65535
  const MAX_NE := 65536

  // -------------------------------------------------------------------------
  // The seven shapes of a command
  // -------------------------------------------------------------------------

  datatype Command = Command(header: seq<U8>, data: seq<U8>, ne: nat)

  datatype Shape = Case1 | Case2S | Case2E | Case3S | Case3E | Case4S | Case4E {
    predicate Extended() {
      Case2E? || Case3E? || Case4E?
    }

    function DataOffset(): nat {
      if Case3S? || Case4S? then 5 else if Case3E? || Case4E? then 7 else 0
    }
  }

  /** Big-endian 16 bits. */
  function TwoBytes(n: nat): (r: seq<U8>)
    requires n < 0x1_0000
    ensures |r| == 2
  {
    [n / 0x100, n % 0x100]
  }

  function Number(high: U8, low: U8): (n: nat)
    ensures n < 0x1_0000 && TwoBytes(n) == [high, low]
  {
    high as int * 0x100 + low as int
  }

  /** Which commands a shape can carry. */
  predicate Carries(shape: Shape, c: Command) {
    |c.header| == 4 &&
    match shape
    case Case1 => c.data == [] && c.ne == 0
    case Case2S => c.data == [] && 1 <= c.ne <= 256
    case Case2E => c.data == [] && 1 <= c.ne <= MAX_NE
    case Case3S => 1 <= |c.data| <= 255 && c.ne == 0
    case Case3E => 1 <= |c.data| <= MAX_NC && c.ne == 0
    case Case4S => 1 <= |c.data| <= 255 && 1 <= c.ne <= 256
    case Case4E => 1 <= |c.data| <= MAX_NC && 1 <= c.ne <= MAX_NE
  }

  /** The bytes of a command in a shape; the largest expected lengths are written as zeros. */
  function Bytes(shape: Shape, c: Command): seq<U8>
    requires Carries(shape, c)
  {
    match shape
    case Case1 => c.header
    case Case2S => c.header + [c.ne % 256]
    case Case2E => c.header + [0] + TwoBytes(c.ne % MAX_NE)
    case Case3S => c.header + [|c.data|] + c.data
    case Case3E => c.header + [0] + TwoBytes(|c.data|) + c.data
    case Case4S => c.header + [|c.data|] + c.data + [c.ne % 256]
    case Case4E => c.header + [0] + TwoBytes(|c.data|) + c.data + TwoBytes(c.ne % MAX_NE)
  }

  lemma BytesOf2E(c: Command)
    requires Carries(Case2E, c)
    ensures Bytes(Case2E, c) == c.header + [0] + TwoBytes(c.ne % MAX_NE)
  {
  }

  lemma BytesOf3E(c: Command)
    requires Carries(Case3E, c)
    ensures Bytes(Case3E, c) == c.header + [0] + TwoBytes(|c.data|) + c.data
  {
  }

  lemma BytesOf4S(c: Command)
    requires Carries(Case4S, c)
    ensures Bytes(Case4S, c) == c.header + [|c.data|] + c.data + [if c.ne != 256 then c.ne else 0]
  {
  }

  lemma BytesOf4E(c: Command)
    requires Carries(Case4E, c)
    ensures Bytes(Case4E, c) == c.header + [0] + TwoBytes(|c.data|) + c.data + TwoBytes(c.ne % MAX_NE)
  {
  }

  /** Storing data over the zeros behind front leaves the zeros behind the data. */
  lemma StoredBehind(front: seq<U8>, n: nat, payload: seq<U8>)
    requires |payload| <= n
    ensures var all := front + Repeated<U8>(0, n);
            all[..|front|] + payload + all[|front| + |payload|..] == front + payload + Repeated<U8>(0, n - |payload|)
  {
  }

  /** The bytes of the shapes without data, written over zeros. */
  lemma HeaderAndZeros(header: seq<U8>, n: nat, x: U8, y: U8)
    requires |header| == 4
    ensures n == 4 ==> header + Repeated<U8>(0, n)[4..] == header
    ensures n == 5 ==> (header + Repeated<U8>(0, n)[4..])[4 := x] == header + [x]
    ensures n == 7 ==> (header + Repeated<U8>(0, n)[4..])[5 := x][6 := y] == header + [0] + [x, y]
  {
    assert n == 7 ==> Repeated<U8>(0, n)[4..] == [0, 0, 0];
  }

  lemma LastByteSet(front: seq<U8>, x: U8)
    ensures (front + Repeated<U8>(0, 1))[|front| := x] == front + [x]
  {
  }

  /** The two bytes of an expected length, which stay zero for the largest one. */
  lemma LastTwoSet(front: seq<U8>, n: nat)
    requires 1 <= n <= MAX_NE
    ensures n != MAX_NE ==>
              (front + Repeated<U8>(0, 2))[|front| := n / 0x100][|front| + 1 := n % 0x100]
              == front + TwoBytes(n % MAX_NE)
    ensures n == MAX_NE ==> front + Repeated<U8>(0, 2) == front + TwoBytes(n % MAX_NE)
  {
    assert Repeated<U8>(0, 2) == [0, 0];
  }

  ghost predicate Denotes(apdu: seq<U8>, shape: Shape, c: Command) {
    Carries(shape, c) && apdu == Bytes(shape, c)
  }

  /** The length of a command and what its length bytes say. */
  lemma LengthBytes(apdu: seq<U8>, shape: Shape, c: Command)
    requires Denotes(apdu, shape, c)
    ensures |apdu| == (match shape
                       case Case1 => 4
                       case Case2S => 5
                       case Case2E => 7
                       case Case3S => 5 + |c.data|
                       case Case3E => 7 + |c.data|
                       case Case4S => 6 + |c.data|
                       case Case4E => 9 + |c.data|)
    ensures shape.Case2S? ==> apdu[4] == c.ne % 256
    ensures shape.Case3S? || shape.Case4S? ==> apdu[4] == |c.data|
    ensures shape.Extended() ==> apdu[4] == 0
    ensures shape.Case2E? ==> Number(apdu[5], apdu[6]) == c.ne % MAX_NE
    ensures shape.Case3E? || shape.Case4E? ==> Number(apdu[5], apdu[6]) == |c.data|
    ensures shape.Case4S? ==> apdu[|apdu| - 1] == c.ne % 256
    ensures shape.Case4E? ==> Number(apdu[|apdu| - 2], apdu[|apdu| - 1]) == c.ne % MAX_NE
  {
  }

  lemma DataAt(apdu: seq<U8>, shape: Shape, c: Command)
    requires Denotes(apdu, shape, c)
    ensures shape.DataOffset() + |c.data| <= |apdu|
    ensures c.header == apdu[..4] && c.data == apdu[shape.DataOffset()..shape.DataOffset() + |c.data|]
  {
    var at := shape.DataOffset();
    forall i | 0 <= i < 4
      ensures apdu[i] == c.header[i]
    {
    }
    forall i | 0 <= i < |c.data|
      ensures at + i < |apdu| && apdu[at + i] == c.data[i]
    {
    }
    assert c.header == apdu[..4];
  }

  /** A byte string is its first seven bytes, what follows them up to j, and the rest. */
  lemma CutTwice(apdu: seq<U8>, j: nat)
    requires 7 <= j <= |apdu|
    ensures apdu == apdu[..7] + apdu[7..j] + apdu[j..]
  {
  }

  lemma ExtendedHead(apdu: seq<U8>)
    requires |apdu| >= 7 && apdu[4] == 0
    ensures apdu[..7] == apdu[..4] + [0] + TwoBytes(Number(apdu[5], apdu[6]))
  {
  }

  lemma LastTwo(apdu: seq<U8>)
    requires |apdu| >= 2
    ensures apdu[|apdu| - 2..] == TwoBytes(Number(apdu[|apdu| - 2], apdu[|apdu| - 1]))
  {
  }

  /** An expected length read back from its encoding. */
  /** The shapes byte by byte: big-endian lengths in front of the data, and behind it what is expected. */
  lemma ByteLayout(apdu: seq<U8>, shape: Shape, c: Command)
    requires Denotes(apdu, shape, c)
    ensures apdu[..4] == c.header
    ensures shape.Case1? ==> apdu == c.header
    ensures shape.Case2S? ==> apdu[4..] == [if c.ne == 256 then 0 else c.ne]
    ensures shape.Case2E? ==> |apdu| == 7 && apdu[4] == 0
                              && 256 * apdu[5] as int + apdu[6] as int == if c.ne == 65536 then 0 else c.ne
    ensures shape.Case3S? || shape.Case4S? ==> apdu[4] == |c.data| && apdu[5..5 + |c.data|] == c.data
    ensures shape.Case3S? ==> |apdu| == 5 + |c.data|
    ensures shape.Case4S? ==> apdu[5 + |c.data|..] == [if c.ne == 256 then 0 else c.ne]
    ensures shape.Case3E? || shape.Case4E? ==> apdu[4] == 0 && 256 * apdu[5] as int + apdu[6] as int == |c.data|
                                               && apdu[7..7 + |c.data|] == c.data
    ensures shape.Case3E? ==> |apdu| == 7 + |c.data|
    ensures shape.Case4E? ==> var high, low := apdu[|apdu| - 2], apdu[|apdu| - 1];
                              |apdu| == 9 + |c.data|
                              && 256 * high as int + low as int == if c.ne == 65536 then 0 else c.ne
  {
    hide Denotes;
    if shape.Case3S? || shape.Case4S? {
      ShortLayout(apdu, shape, c);
    } else if shape.Case3E? || shape.Case4E? {
      ExtendedLayout(apdu, shape, c);
    } else {
      LayoutWithoutData(apdu, shape, c);
    }
  }

  lemma LayoutWithoutData(apdu: seq<U8>, shape: Shape, c: Command)
    requires Denotes(apdu, shape, c) && (shape.Case1? || shape.Case2S? || shape.Case2E?)
    ensures |apdu| >= 4 && apdu[..4] == c.header
    ensures shape.Case1? ==> apdu == c.header
    ensures shape.Case2S? ==> apdu[4..] == [if c.ne == 256 then 0 else c.ne]
    ensures shape.Case2E? ==> |apdu| == 7 && apdu[4] == 0
                              && 256 * apdu[5] as int + apdu[6] as int == if c.ne == 65536 then 0 else c.ne
  {
  }

  lemma ShortLayout(apdu: seq<U8>, shape: Shape, c: Command)
    requires Denotes(apdu, shape, c) && (shape.Case3S? || shape.Case4S?)
    ensures apdu[..4] == c.header && apdu[4] == |c.data| && apdu[5..5 + |c.data|] == c.data
    ensures shape.Case3S? ==> |apdu| == 5 + |c.data|
    ensures shape.Case4S? ==> apdu[5 + |c.data|..] == [if c.ne == 256 then 0 else c.ne]
  {
    assert apdu == c.header + [|c.data|] + c.data + if shape.Case3S? then [] else [c.ne % 256];
  }

  lemma ExtendedLayout(apdu: seq<U8>, shape: Shape, c: Command)
    requires Denotes(apdu, shape, c) && (shape.Case3E? || shape.Case4E?)
    ensures |apdu| == |c.data| + if shape.Case3E? then 7 else 9
    ensures apdu[..4] == c.header && apdu[4] == 0 && 256 * apdu[5] as int + apdu[6] as int == |c.data|
    ensures apdu[7..7 + |c.data|] == c.data
    ensures shape.Case4E? ==> 256 * apdu[|apdu| - 2] as int + apdu[|apdu| - 1] as int
                              == if c.ne == 65536 then 0 else c.ne
  {
    var rest := if shape.Case3E? then [] else TwoBytes(c.ne % MAX_NE);
    assert apdu == c.header + [0] + TwoBytes(|c.data|) + c.data + rest;
    assert shape.Case4E? ==> apdu[|apdu| - 2..] == rest;
  }

  function Expected(n: nat, most: nat): nat {
    if n == 0 then most else n
  }

  lemma ExpectedInverse(n: nat, most: nat)
    requires most > 0
    ensures 1 <= n <= most ==> Expected(n % most, most) == n
    ensures n < most ==> 1 <= Expected(n, most) <= most && Expected(n, most) % most == n
  {
    if n < most {
      assert n % most == n;
    }
  }

  /** The shape and command a byte string can denote, judged by its length and length bytes. */
  function Reading(apdu: seq<U8>): Option<(Shape, Command)> {
    if |apdu| < 4 then None
    else if |apdu| == 4 then Some((Case1, Command(apdu, [], 0)))
    else if |apdu| == 5 then Some((Case2S, Command(apdu[..4], [], Expected(apdu[4], 256))))
    else if apdu[4] != 0 then ShortReading(apdu)
    else if |apdu| < 7 then None
    else ExtendedReading(apdu)
  }

  function ShortReading(apdu: seq<U8>): Option<(Shape, Command)>
    requires |apdu| > 5 && apdu[4] != 0
  {
    var n := |apdu|;
    if n == 5 + apdu[4] as int then Some((Case3S, Command(apdu[..4], apdu[5..n], 0)))
    else if n == 6 + apdu[4] as int then Some((Case4S, Command(apdu[..4], apdu[5..n - 1], Expected(apdu[n - 1], 256))))
    else None
  }

  function ExtendedReading(apdu: seq<U8>): Option<(Shape, Command)>
    requires |apdu| >= 7 && apdu[4] == 0
  {
    var n, m := |apdu|, Number(apdu[5], apdu[6]);
    if n == 7 then Some((Case2E, Command(apdu[..4], [], Expected(m, MAX_NE))))
    else if m == 0 then None
    else if n == 7 + m then Some((Case3E, Command(apdu[..4], apdu[7..n], 0)))
    else if n == 9 + m then
      Some((Case4E, Command(apdu[..4], apdu[7..n - 2], Expected(Number(apdu[n - 2], apdu[n - 1]), MAX_NE))))
    else None
  }

  lemma ShortReadingDenotes(apdu: seq<U8>)
    requires |apdu| > 5 && apdu[4] != 0 && ShortReading(apdu).Some?
    ensures Denotes(apdu, ShortReading(apdu).value.0, ShortReading(apdu).value.1)
  {
    var n := |apdu|;
    var (shape, c) := ShortReading(apdu).value;
    assert apdu == apdu[..4] + [apdu[4]] + apdu[5..n];
    if shape.Case4S? {
      ExpectedInverse(apdu[n - 1], 256);
      assert apdu == apdu[..4] + [apdu[4]] + apdu[5..n - 1] + [apdu[n - 1]];
    }
  }

  lemma ExtendedReadingDenotes(apdu: seq<U8>)
    requires |apdu| >= 7 && apdu[4] == 0 && ExtendedReading(apdu).Some?
    ensures Denotes(apdu, ExtendedReading(apdu).value.0, ExtendedReading(apdu).value.1)
  {
    hide TwoBytes, Number, Expected, Bytes;
    var n, m := |apdu|, Number(apdu[5], apdu[6]);
    var c := ExtendedReading(apdu).value.1;
    ExtendedHead(apdu);
    if n == 7 {
      ExpectedInverse(m, MAX_NE);
      assert apdu == apdu[..7];
      BytesOf2E(c);
    } else if n == 7 + m {
      assert apdu == apdu[..7] + apdu[7..];
      BytesOf3E(c);
    } else {
      ExpectedInverse(Number(apdu[n - 2], apdu[n - 1]), MAX_NE);
      CutTwice(apdu, n - 2);
      LastTwo(apdu);
      BytesOf4E(c);
    }
  }

  lemma ReadingDenotes(apdu: seq<U8>)
    requires Reading(apdu).Some?
    ensures Denotes(apdu, Reading(apdu).value.0, Reading(apdu).value.1)
  {
    if |apdu| == 5 {
      ExpectedInverse(apdu[4], 256);
      assert apdu == apdu[..4] + [apdu[4]];
    } else if |apdu| > 5 && apdu[4] != 0 {
      ShortReadingDenotes(apdu);
    } else if |apdu| > 5 {
      ExtendedReadingDenotes(apdu);
    }
  }

  lemma DenotedIsRead(apdu: seq<U8>, shape: Shape, c: Command)
    requires Denotes(apdu, shape, c)
    ensures Reading(apdu) == Some((shape, c))
  {
    hide Bytes;
    LengthBytes(apdu, shape, c);
    DataAt(apdu, shape, c);
    ExpectedInverse(c.ne, 256);
    ExpectedInverse(c.ne, MAX_NE);
    match shape
    case Case1 => assert apdu[..4] == apdu;
    case Case2S =>
    case Case2E =>
    case Case3S => assert ShortReading(apdu) == Some((shape, c));
    case Case4S => assert ShortReading(apdu) == Some((shape, c));
    case Case3E => assert ExtendedReading(apdu) == Some((shape, c));
    case Case4E => assert ExtendedReading(apdu) == Some((shape, c));
  }

  ghost predicate Accepted(apdu: seq<U8>) {
    exists shape: Shape, c: Command :: Denotes(apdu, shape, c)
  }

  ghost predicate AcceptedExtended(apdu: seq<U8>) {
    exists shape: Shape, c: Command :: Denotes(apdu, shape, c) && shape.Extended()
  }

  /** A byte string denotes at most one command, in at most one of the seven shapes. */
  lemma ShapesExclusive(apdu: seq<U8>, shape1: Shape, c1: Command, shape2: Shape, c2: Command)
    requires Denotes(apdu, shape1, c1) && Denotes(apdu, shape2, c2)
    ensures shape1 == shape2 && c1 == c2
  {
    DenotedIsRead(apdu, shape1, c1);
    DenotedIsRead(apdu, shape2, c2);
  }

  // -------------------------------------------------------------------------
  // The shape the builder chooses
  // -------------------------------------------------------------------------

  predicate Encodable(c: Command) {
    |c.header| == 4 && |c.data| <= MAX_NC && c.ne <= MAX_NE
  }

  function Chosen(c: Command): Shape {
    if c.data == [] then
      if c.ne == 0 then Case1 else if c.ne <= 256 then Case2S else Case2E
    else if c.ne == 0 then
      if |c.data| <= 255 then Case3S else Case3E
    else if |c.data| <= 255 && c.ne <= 256 then Case4S else Case4E
  }

  /** The limits: 65535 bytes of data and 65536 expected ones are the most that any shape can carry. */
  lemma EncodableExactly(c: Command)
    ensures Encodable(c) <==> |c.header| == 4 && |c.data| <= 65535 && c.ne <= 65536
    ensures Encodable(c) <==> exists shape :: Carries(shape, c)
  {
    if Encodable(c) {
      assert Carries(Chosen(c), c);
    }
  }

  /** What is built without data. */
  lemma ShortestWithoutData(c: Command)
    requires Encodable(c) && c.data == []
    ensures Carries(Chosen(c), c) && Chosen(c).DataOffset() == 0 && (Chosen(c).Extended() <==> c.ne > 256)
    ensures Bytes(Chosen(c), c) == if c.ne == 0 then c.header
                                   else if c.ne <= 256 then c.header + [c.ne % 256]
                                   else c.header + [0] + TwoBytes(c.ne % MAX_NE)
  {
  }

  lemma LengthBytesOf(n: nat, x: U8, y: U8)
    requires 1 <= n <= MAX_NE
    requires if n == MAX_NE then x == y == 0 else x == n / 0x100 && y == n % 0x100
    ensures [x, y] == TwoBytes(n % MAX_NE)
  {
  }

  /** The chosen shape carries the command, and no shape that carries it is shorter; a tie is the same shape. */
  lemma ChosenIsShortest(c: Command, shape: Shape)
    requires Encodable(c)
    ensures Carries(Chosen(c), c)
    ensures Carries(shape, c) ==> |Bytes(Chosen(c), c)| <= |Bytes(shape, c)|
    ensures Carries(shape, c) && |Bytes(Chosen(c), c)| == |Bytes(shape, c)| ==> shape == Chosen(c)
  {
    LengthBytes(Bytes(Chosen(c), c), Chosen(c), c);
    if Carries(shape, c) {
      LengthBytes(Bytes(shape, c), shape, c);
    }
  }

  /** Whatever is built from a command is read back as that command, in the chosen shape. */
  lemma BuiltIsRead(c: Command)
    requires Encodable(c)
    ensures Carries(Chosen(c), c) && Reading(Bytes(Chosen(c), c)) == Some((Chosen(c), c))
  {
    DenotedIsRead(Bytes(Chosen(c), c), Chosen(c), c);
  }

  /** Reading and building again gives the same bytes exactly when the shape read was the shortest one. */
  lemma ReadThenBuilt(apdu: seq<U8>)
    requires Reading(apdu).Some?
    ensures Encodable(Reading(apdu).value.1)
    ensures var (shape, c) := Reading(apdu).value;
            Carries(Chosen(c), c) && (Bytes(Chosen(c), c) == apdu <==> shape == Chosen(c))
  {
    hide Bytes;
    ReadingDenotes(apdu);
    var (shape, c) := Reading(apdu).value;
    ChosenIsShortest(c, shape);
    DenotedIsRead(Bytes(Chosen(c), c), Chosen(c), c);
  }

  // -------------------------------------------------------------------------
  // The class
  // -------------------------------------------------------------------------

  class CommandAPDU {
    var apdu: seq<U8>
    var nc: nat
    var ne: nat
    var dataOffset: nat
    var isExtendedAPDU: bool
    var parsedSuccessfully: bool

    /** An APDU built from its parts; data holds the payload from position dataStart on. */
    constructor FromParts(cla: U8, ins: U8, p1: U8, p2: U8, data: seq<U8>, dataStart: nat, dataLength: U32, ne: U32)
      requires dataStart + dataLength <= |data|
      ensures var c := Command([cla, ins, p1, p2], data[dataStart..dataStart + dataLength], ne);
              && parsedSuccessfully == Encodable(c)
              && (parsedSuccessfully ==> Holds(Chosen(c), c))
              && (!parsedSuccessfully ==> Cleared() && !isExtendedAPDU)
    {
      apdu := [];
      new;
      Init(cla, ins, p1, p2, data, dataStart, dataLength, ne);
    }

    /** An APDU parsed from bytes. */
    constructor FromBytes(bytes: seq<U8>)
      ensures Cleared()
      ensures parsedSuccessfully <==> Accepted(bytes)
      ensures isExtendedAPDU <==> AcceptedExtended(bytes)
    {
      apdu := bytes;
      nc, ne, dataOffset := 0, 0, 0;
      isExtendedAPDU := false;
      new;
      Parse();
    }

    /** The fields describe this command in this shape. */
    ghost predicate Holds(shape: Shape, c: Command)
      reads this
    {
      Denotes(apdu, shape, c) && Describes(shape, c)
    }

    ghost predicate Describes(shape: Shape, c: Command)
      reads this
    {
      nc == |c.data| && ne == c.ne && dataOffset == shape.DataOffset() && isExtendedAPDU == shape.Extended()
    }

    ghost predicate Cleared()
      reads this
    {
      apdu == [] && nc == 0 && ne == 0 && dataOffset == 0
    }

    method Clear()
      modifies this
      ensures Cleared()
      ensures isExtendedAPDU == old(isExtendedAPDU) && parsedSuccessfully == old(parsedSuccessfully)
    {
      apdu := [];
      nc, ne, dataOffset := 0, 0, 0;
    }

    /** The payload field. */
    method GetData() returns (data: seq<U8>)
      requires dataOffset + nc <= |apdu|
      ensures data == apdu[dataOffset..dataOffset + nc]
      ensures forall shape, c | Holds(shape, c) :: data == c.data
    {
      data := [];
      if nc > 0 {
        data := apdu[dataOffset..dataOffset + nc];
      }
      forall shape, c | Holds(shape, c)
        ensures data == c.data
      {
        DataAt(apdu, shape, c);
      }
    }

    /** Growing the empty byte vector fills it with zeros. */
    method Resize(n: nat)
      requires apdu == []
      modifies this`apdu
      ensures apdu == Repeated<U8>(0, n)
    {
      apdu := Repeated<U8>(0, n);
    }

    /** Copies bytes over the vector from a position on. */
    method Store(pos: nat, bytes: seq<U8>)
      requires pos + |bytes| <= |apdu|
      modifies this`apdu
      ensures apdu == old(apdu)[..pos] + bytes + old(apdu)[pos + |bytes|..]
    {
      apdu := apdu[..pos] + bytes + apdu[pos + |bytes|..];
    }

    method SetHeader(cla: U8, ins: U8, p1: U8, p2: U8)
      requires |apdu| >= 4
      modifies this`apdu
      ensures apdu == [cla, ins, p1, p2] + old(apdu)[4..]
    {
      apdu := apdu[0 := cla][1 := ins][2 := p1][3 := p2];
    }

    method Init(cla: U8, ins: U8, p1: U8, p2: U8, data: seq<U8>, dataStart: nat, dataLength: U32, ne: U32)
      requires dataStart + dataLength <= |data| && apdu == []
      modifies this
      ensures var c := Command([cla, ins, p1, p2], data[dataStart..dataStart + dataLength], ne);
              && parsedSuccessfully == Encodable(c)
              && (parsedSuccessfully ==> Holds(Chosen(c), c))
              && (!parsedSuccessfully ==> Cleared() && !isExtendedAPDU)
    {
      this.nc, this.ne, this.dataOffset := 0, 0, 0;
      isExtendedAPDU, parsedSuccessfully := false, false;
      if dataLength > 65535 {
        Clear();
        return;
      }
      if ne > 65536 {
        Clear();
        return;
      }
      this.ne := ne;
      this.nc := dataLength;
      ghost var c := Command([cla, ins, p1, p2], data[dataStart..dataStart + dataLength], ne);
      if dataLength == 0 {
        FillWithoutData(cla, ins, p1, p2, c);
      } else if ne == 0 {
        FillWithData(cla, ins, p1, p2, data[dataStart..dataStart + dataLength], c);
      } else {
        FillWithDataAndLength(cla, ins, p1, p2, data[dataStart..dataStart + dataLength], c);
      }
      parsedSuccessfully := true;
    }

    /** The fields set before the bytes are laid out. */
    ghost predicate Prepared(c: Command)
      reads this
    {
      apdu == [] && nc == |c.data| && ne == c.ne && dataOffset == 0 && !isExtendedAPDU && Encodable(c)
    }

    method FillWithoutData(cla: U8, ins: U8, p1: U8, p2: U8, ghost c: Command)
      requires c.header == [cla, ins, p1, p2] && Prepared(c) && c.data == []
      modifies this`apdu, this`isExtendedAPDU
      ensures Holds(Chosen(c), c)
    {
      hide Bytes, Repeated, Chosen, Carries, TwoBytes;
      ShortestWithoutData(c);
      if ne == 0 {
        Resize(4);
        SetHeader(cla, ins, p1, p2);
        HeaderAndZeros(c.header, 4, 0, 0);
      } else if ne <= 256 {
        var len: U8 := if ne != 256 then ne else 0;
        Resize(5);
        SetHeader(cla, ins, p1, p2);
        apdu := apdu[4 := len];
        HeaderAndZeros(c.header, 5, len, 0);
      } else {
        var l1: U8, l2: U8 := 0, 0;
        if ne != 65536 {
          l1, l2 := ne / 0x100, ne % 0x100;
        }
        Resize(7);
        SetHeader(cla, ins, p1, p2);
        apdu := apdu[5 := l1][6 := l2];
        isExtendedAPDU := true;
        HeaderAndZeros(c.header, 7, l1, l2);
        assert [l1, l2] == TwoBytes(ne % MAX_NE) by { LengthBytesOf(ne, l1, l2); }
      }
    }

    /** The bytes up to the data, in front of nothing but zeros. */
    method FillFront(cla: U8, ins: U8, p1: U8, p2: U8, n: nat, ghost c: Command)
      requires c.header == [cla, ins, p1, p2] && apdu == [] && 1 <= nc <= 255
      modifies this`apdu, this`dataOffset
      ensures apdu == c.header + [nc] + Repeated<U8>(0, n) && dataOffset == 5
    {
      Resize(5 + n);
      SetHeader(cla, ins, p1, p2);
      apdu := apdu[4 := nc];
      dataOffset := 5;
    }

    method FillExtendedFront(cla: U8, ins: U8, p1: U8, p2: U8, n: nat, ghost c: Command)
      requires c.header == [cla, ins, p1, p2] && apdu == [] && 1 <= nc < 0x1_0000
      modifies this`apdu, this`dataOffset
      ensures apdu == c.header + [0] + TwoBytes(nc) + Repeated<U8>(0, n) && dataOffset == 7
    {
      Resize(7 + n);
      SetHeader(cla, ins, p1, p2);
      apdu := apdu[4 := 0][5 := nc / 0x100][6 := nc % 0x100];
      dataOffset := 7;
    }

    method FillWithData(cla: U8, ins: U8, p1: U8, p2: U8, payload: seq<U8>, ghost c: Command)
      requires c.header == [cla, ins, p1, p2] && Prepared(c) && c.data == payload != [] && c.ne == 0
      modifies this`apdu, this`dataOffset, this`isExtendedAPDU
      ensures Holds(Chosen(c), c)
    {
      if nc <= 255 {
        FillFront(cla, ins, p1, p2, nc, c);
        StoredBehind(c.header + [nc], nc, payload);
        Store(5, payload);
        assert apdu == Bytes(Case3S, c);
      } else {
        FillExtendedFront(cla, ins, p1, p2, nc, c);
        StoredBehind(c.header + [0] + TwoBytes(nc), nc, payload);
        Store(7, payload);
        isExtendedAPDU := true;
        assert apdu == Bytes(Case3E, c);
      }
    }

    method FillWithDataAndLength(cla: U8, ins: U8, p1: U8, p2: U8, payload: seq<U8>, ghost c: Command)
      requires c.header == [cla, ins, p1, p2] && Prepared(c) && c.data == payload != [] && c.ne != 0
      modifies this`apdu, this`dataOffset, this`isExtendedAPDU
      ensures Holds(Chosen(c), c)
    {
      hide Bytes, Repeated;
      if nc <= 255 && ne <= 256 {
        FillFront(cla, ins, p1, p2, nc + 1, c);
        StoredBehind(c.header + [nc], nc + 1, payload);
        Store(5, payload);
        ghost var front := c.header + [nc] + payload;
        LastByteSet(front, if ne != 256 then ne else 0);
        apdu := apdu[|apdu| - 1 := if ne != 256 then ne else 0];
        BytesOf4S(c);
      } else {
        FillExtendedWithLength(cla, ins, p1, p2, payload, c);
      }
    }

    method FillExtendedWithLength(cla: U8, ins: U8, p1: U8, p2: U8, payload: seq<U8>, ghost c: Command)
      requires c.header == [cla, ins, p1, p2] && Prepared(c) && c.data == payload != [] && c.ne != 0
      modifies this`apdu, this`dataOffset, this`isExtendedAPDU
      ensures Holds(Case4E, c)
    {
      hide Bytes, TwoBytes;
      FillExtendedFront(cla, ins, p1, p2, nc + 2, c);
      ghost var head := c.header + [0] + TwoBytes(nc);
      StoredBehind(head, nc + 2, payload);
      Store(7, payload);
      ghost var front := head + payload;
      assert apdu == front + Repeated<U8>(0, 2);
      LastTwoSet(front, ne);
      if ne != 65536 {
        var leOfs := |apdu| - 2;
        apdu := apdu[leOfs := ne / 0x100][leOfs + 1 := ne % 0x100];
      }
      isExtendedAPDU := true;
      assert apdu == front + TwoBytes(ne % MAX_NE);
      BytesOf4E(c);
    }

    /** The classification made before the final clean-up: true exactly for the seven shapes, with the fields set. */
    method Classify() returns (accepted: bool)
      requires nc == 0 && ne == 0 && dataOffset == 0 && !isExtendedAPDU
      modifies this
      ensures apdu == old(apdu) && parsedSuccessfully == old(parsedSuccessfully)
      ensures accepted == Reading(apdu).Some?
      ensures accepted ==> Describes(Reading(apdu).value.0, Reading(apdu).value.1)
      ensures !accepted ==> !isExtendedAPDU
    {
      if |apdu| < 4 {
        return false;
      }
      if |apdu| == 4 {
        return true;
      }
      var l1 := apdu[4];
      if |apdu| == 5 {
        ne := if l1 == 0 then 256 else l1 as int;
        return true;
      }
      if l1 != 0 {
        if |apdu| == 4 + 1 + l1 as int {
          nc := l1;
          dataOffset := 5;
          return true;
        } else if |apdu| == 4 + 2 + l1 as int {
          nc := l1;
          dataOffset := 5;
          var l2 := apdu[|apdu| - 1];
          ne := if l2 == 0 then 256 else l2 as int;
          return true;
        } else {
          return false;
        }
      }
      if |apdu| < 7 {
        return false;
      }
      var l2 := Number(apdu[5], apdu[6]);
      if |apdu| == 7 {
        ne := if l2 == 0 then 65536 else l2;
        isExtendedAPDU := true;
        return true;
      }
      if l2 == 0 {
        return false;
      }
      if |apdu| == 4 + 3 + l2 {
        nc := l2;
        dataOffset := 7;
        isExtendedAPDU := true;
        return true;
      }
      if |apdu| == 4 + 5 + l2 {
        nc := l2;
        dataOffset := 7;
        var leOfs := |apdu| - 2;
        var l3 := Number(apdu[leOfs], apdu[leOfs + 1]);
        ne := if l3 == 0 then 65536 else l3;
        isExtendedAPDU := true;
        return true;
      } else {
        return false;
      }
    }

    /** Parsing as the source leaves it: success falls into the clean-up, so only two flags survive. */
    method Parse()
      requires nc == 0 && ne == 0 && dataOffset == 0 && !isExtendedAPDU
      modifies this
      ensures Cleared()
      ensures parsedSuccessfully <==> Accepted(old(apdu))
      ensures isExtendedAPDU <==> AcceptedExtended(old(apdu))
    {
      parsedSuccessfully := false;
      var accepted := Classify();
      forall shape, c | Denotes(apdu, shape, c)
        ensures Reading(apdu) == Some((shape, c))
      {
        DenotedIsRead(apdu, shape, c);
      }
      if accepted {
        ReadingDenotes(apdu);
      }
      if accepted {
        parsedSuccessfully := true;
      }
      Clear();
    }
  }
}
