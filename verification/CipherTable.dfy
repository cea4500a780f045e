/** The cipher and algorithm tables, the row iterators and the key schedule layout. */
module CipherTable {
  const AES := 1
  const SERPENT := 2
  const TWOFISH := 3
  const CAMELLIA := 4
  const KUZNYECHIK := 5

  const SERPENT_KS := 140 * 4

  // -------------------------------------------------------------------------
  // Cipher records
  // -------------------------------------------------------------------------

  datatype Cipher = Cipher(id: int, blockSize: nat, keySize: nat, keyScheduleSize: nat)

  const NO_CIPHER := Cipher(0, 0, 0, 0)

  /** The default build's cipher table; only Serpent's schedule size is a literal of the source. */
  function Ciphers(aesKs: nat, twofishKs: nat, camelliaKs: nat, kuznyechikKs: nat): seq<Cipher> {
    [ Cipher(AES, 16, 32, aesKs), Cipher(SERPENT, 16, 32, SERPENT_KS), Cipher(TWOFISH, 16, 32, twofishKs),
      Cipher(CAMELLIA, 16, 32, camelliaKs), Cipher(KUZNYECHIK, 16, 32, kuznyechikKs), NO_CIPHER ]
  }

  /** A cipher table ends with the all-zero record. */
  predicate Ended(table: seq<Cipher>) {
    |table| > 0 && table[|table| - 1] == NO_CIPHER
  }

  /** The record found under id: the first match before the zero record, else the zero record. */
  function Find(table: seq<Cipher>, id: int): Cipher {
    if |table| == 0 || table[0].id == 0 then NO_CIPHER
    else if table[0].id == id then table[0]
    else Find(table[1..], id)
  }

  function ScheduleSize(table: seq<Cipher>, id: int): nat {
    Find(table, id).keyScheduleSize
  }

  /** The record found is the first one with the id in front of the table's end, or none when there is no such. */
  lemma {:induction false} FoundIsFirst(table: seq<Cipher>, id: int, i: nat)
    requires i < |table| && forall j | 0 <= j < i :: table[j].id != 0 && table[j].id != id
    ensures table[i].id == 0 ==> Find(table, id) == Cipher(0, 0, 0, 0)
    ensures table[i].id == id != 0 ==> Find(table, id) == table[i]
  {
    if i > 0 {
      FoundIsFirst(table[1..], id, i - 1);
    }
  }

  lemma {:induction false} NothingUnderZero(table: seq<Cipher>)
    ensures Find(table, 0) == NO_CIPHER
  {
    if |table| > 0 {
      NothingUnderZero(table[1..]);
    }
  }

  method CipherGet(table: seq<Cipher>, id: int) returns (r: Cipher)
    requires Ended(table)
    ensures r == Find(table, id)
  {
    var i := 0;
    while table[i].id != 0
      invariant 0 <= i < |table|
      invariant Find(table[i..], id) == Find(table, id)
      decreases |table| - i
    {
      if table[i].id == id {
        return table[i];
      }
      assert table[i..][1..] == table[i + 1..];
      i := i + 1;
    }
    return NO_CIPHER;
  }

  // -------------------------------------------------------------------------
  // Algorithm rows
  // -------------------------------------------------------------------------

  /** Encryption algorithm rows, each a zero-terminated list of cipher ids. */
  const ALGORITHMS: seq<seq<int>> :=
    [ [0, 0, 0, 0],
      [AES, 0, 0, 0],
      [SERPENT, 0, 0, 0],
      [TWOFISH, 0, 0, 0],
      [CAMELLIA, 0, 0, 0],
      [KUZNYECHIK, 0, 0, 0],
      [TWOFISH, AES, 0, 0],
      [SERPENT, TWOFISH, AES, 0],
      [AES, SERPENT, 0, 0],
      [AES, TWOFISH, SERPENT, 0],
      [SERPENT, TWOFISH, 0, 0],
      [KUZNYECHIK, CAMELLIA, 0, 0],
      [TWOFISH, KUZNYECHIK, 0, 0],
      [SERPENT, CAMELLIA, 0, 0],
      [AES, KUZNYECHIK, 0, 0],
      [CAMELLIA, SERPENT, KUZNYECHIK, 0],
      [0, 0, 0, 0] ]

  /** The ids of a row, up to its first zero. */
  function Cascade(row: seq<int>): (cs: seq<int>)
    requires 0 in row
    ensures |cs| < |row| && cs == row[..|cs|] && row[|cs|] == 0 && 0 !in cs
  {
    if row[0] == 0 then [] else [row[0]] + Cascade(row[1..])
  }

  /** Zero-terminated, with distinct ciphers before the zero. */
  predicate WellFormed(row: seq<int>) {
    0 in row && Distinct(Cascade(row))
  }

  predicate Distinct(cs: seq<int>) {
    forall i, j | 0 <= i < j < |cs| :: cs[i] != cs[j]
  }

  /** c is what stands right after id in the cascade: 0 after the last cipher and for a foreign id. */
  ghost predicate IsNext(cs: seq<int>, id: int, c: int) {
    (id !in cs ==> c == 0) &&
    forall k | 0 <= k < |cs| && cs[k] == id :: c == At(cs, k + 1)
  }

  /** c is what stands right before id in the cascade: 0 before the first cipher and for a foreign id. */
  ghost predicate IsPrevious(cs: seq<int>, id: int, c: int) {
    (id !in cs ==> c == 0) &&
    forall k | 0 <= k < |cs| && cs[k] == id :: c == At(cs, k - 1)
  }

  /** The k-th cipher, 0 outside the cascade. */
  function At(cs: seq<int>, k: int): int {
    if 0 <= k < |cs| then cs[k] else 0
  }

  lemma NextIs(cs: seq<int>, k: nat, c: int)
    requires k < |cs| && IsNext(cs, cs[k], c)
    ensures c == At(cs, k + 1)
  {
  }

  lemma PreviousIs(cs: seq<int>, k: nat, c: int)
    requires k < |cs| && IsPrevious(cs, cs[k], c)
    ensures c == At(cs, k - 1)
  {
  }

  method EAGetFirstCipher(row: seq<int>) returns (c: int)
    requires WellFormed(row)
    ensures c == At(Cascade(row), 0)
  {
    c := row[0];
  }

  method EAGetLastCipher(row: seq<int>) returns (c: int)
    requires WellFormed(row) && Cascade(row) != []
    ensures c == At(Cascade(row), |Cascade(row)| - 1)
  {
    var i := 0;
    while true
      invariant 0 <= i <= |Cascade(row)|
      decreases |row| - i
    {
      c := row[i];
      i := i + 1;
      if c == 0 { break; }
    }
    c := row[i - 2];
  }

  method EAGetNextCipher(row: seq<int>, previousCipherId: int) returns (c: int)
    requires WellFormed(row)
    ensures IsNext(Cascade(row), previousCipherId, c)
  {
    ghost var cs := Cascade(row);
    var i := 0;
    while row[i] != 0
      invariant 0 <= i <= |cs|
      invariant previousCipherId !in cs[..i]
      decreases |row| - i
    {
      i := i + 1;
      if row[i - 1] == previousCipherId {
        assert cs[i - 1] == previousCipherId && row[i] == At(cs, i);
        return row[i];
      }
    }
    assert cs[..i] == cs;
    return 0;
  }

  /** An empty row has to have its zero in the second place too: the search for an id starts there. */
  method EAGetPreviousCipher(row: seq<int>, previousCipherId: int) returns (c: int)
    requires WellFormed(row) && (Cascade(row) == [] && previousCipherId != 0 ==> |row| > 1 && row[1] == 0)
    ensures IsPrevious(Cascade(row), previousCipherId, c)
  {
    ghost var cs := Cascade(row);
    var i := 1;
    if row[0] == previousCipherId {
      return 0;
    }
    while row[i] != 0
      invariant if cs == [] then i == 1 else 1 <= i <= |cs| && previousCipherId !in cs[..i]
      decreases |row| - i
    {
      i := i + 1;
      if row[i - 1] == previousCipherId {
        assert cs[i - 1] == previousCipherId && row[i - 2] == At(cs, i - 2);
        return row[i - 2];
      }
    }
    assert cs != [] ==> cs[..i] == cs;
    return 0;
  }

  // -------------------------------------------------------------------------
  // Key schedule layout
  // -------------------------------------------------------------------------

  /** Where the k-th cipher's key schedule starts: after those of the k ciphers before it. */
  function Offset(table: seq<Cipher>, cs: seq<int>, k: nat): nat
    requires k <= |cs|
  {
    if k == 0 then 0 else Offset(table, cs, k - 1) + ScheduleSize(table, cs[k - 1])
  }

  function TotalSize(table: seq<Cipher>, cs: seq<int>): nat {
    Offset(table, cs, |cs|)
  }

  /** Distinct positions of a cascade own disjoint parts of the schedule buffer. */
  lemma {:induction false} SlicesDisjoint(table: seq<Cipher>, cs: seq<int>, i: nat, j: nat)
    requires i < j <= |cs|
    ensures Offset(table, cs, i) + ScheduleSize(table, cs[i]) <= Offset(table, cs, j)
  {
    if i + 1 < j {
      SlicesDisjoint(table, cs, i, j - 1);
    }
  }

  method CipherGetKeyScheduleSize(table: seq<Cipher>, id: int) returns (n: nat)
    requires Ended(table)
    ensures n == ScheduleSize(table, id)
  {
    var c := CipherGet(table, id);
    n := c.keyScheduleSize;
  }

  method EAGetKeyScheduleSize(table: seq<Cipher>, row: seq<int>) returns (size: nat)
    requires Ended(table) && WellFormed(row)
    ensures size == TotalSize(table, Cascade(row))
  {
    ghost var cs := Cascade(row);
    var i := EAGetFirstCipher(row);
    size := CipherGetKeyScheduleSize(table, i);
    ghost var k := 0;
    if cs == [] {
      NothingUnderZero(table);
    } else {
      assert Offset(table, cs, 1) == Offset(table, cs, 0) + ScheduleSize(table, cs[0]);
      assert cs[0] == i;
      k := 1;
    }
    i := EAGetNextCipher(row, i);
    while i != 0
      invariant 0 <= k <= |cs|
      invariant i == At(cs, k)
      invariant size == Offset(table, cs, k)
      decreases |cs| - k
    {
      var n := CipherGetKeyScheduleSize(table, i);
      size := size + n;
      assert cs[k] == i;
      i := EAGetNextCipher(row, i);
      k := k + 1;
    }
  }

  function Max(a: nat, b: nat): nat {
    if a > b then a else b
  }

  /** The size of the key schedule buffers in the crypto information record. */
  function MaxExpandedKey(aesKs: nat, twofishKs: nat, camelliaKs: nat, kuznyechikKs: nat): nat {
    Max(Max(Max(aesKs + SERPENT_KS + twofishKs, camelliaKs + kuznyechikKs + SERPENT_KS),
            kuznyechikKs + twofishKs),
        aesKs + kuznyechikKs)
  }

  /** Whatever the schedule sizes are, every row is well formed and its schedules fit the buffer. */
  lemma EveryRowFits(aesKs: nat, twofishKs: nat, camelliaKs: nat, kuznyechikKs: nat, ea: nat)
    requires ea < |ALGORITHMS|
    ensures WellFormed(ALGORITHMS[ea])
    ensures TotalSize(Ciphers(aesKs, twofishKs, camelliaKs, kuznyechikKs), Cascade(ALGORITHMS[ea]))
            <= MaxExpandedKey(aesKs, twofishKs, camelliaKs, kuznyechikKs)
  {
    var table := Ciphers(aesKs, twofishKs, camelliaKs, kuznyechikKs);
    var row := ALGORITHMS[ea];
    SizesOfTable(aesKs, twofishKs, camelliaKs, kuznyechikKs);
    assert row[3] == 0;
    var cs := Cascade(row);
    ShortTotal(table, cs);
  }

  /** No row needs less than the most: whatever the schedule sizes are, some row fills the buffer. */
  lemma SomeRowFills(aesKs: nat, twofishKs: nat, camelliaKs: nat, kuznyechikKs: nat) returns (ea: nat)
    ensures ea < |ALGORITHMS| && WellFormed(ALGORITHMS[ea])
    ensures TotalSize(Ciphers(aesKs, twofishKs, camelliaKs, kuznyechikKs), Cascade(ALGORITHMS[ea]))
            == MaxExpandedKey(aesKs, twofishKs, camelliaKs, kuznyechikKs)
  {
    var most := MaxExpandedKey(aesKs, twofishKs, camelliaKs, kuznyechikKs);
    ea := if most == aesKs + SERPENT_KS + twofishKs then 7
          else if most == camelliaKs + kuznyechikKs + SERPENT_KS then 15
          else if most == kuznyechikKs + twofishKs then 12
          else 14;
    SizesOfTable(aesKs, twofishKs, camelliaKs, kuznyechikKs);
    ShortTotal(Ciphers(aesKs, twofishKs, camelliaKs, kuznyechikKs), Cascade(ALGORITHMS[ea]));
  }

  lemma SizesOfTable(aesKs: nat, twofishKs: nat, camelliaKs: nat, kuznyechikKs: nat)
    ensures var table := Ciphers(aesKs, twofishKs, camelliaKs, kuznyechikKs);
            && ScheduleSize(table, AES) == aesKs
            && ScheduleSize(table, SERPENT) == 140 * 4
            && ScheduleSize(table, TWOFISH) == twofishKs
            && ScheduleSize(table, CAMELLIA) == camelliaKs
            && ScheduleSize(table, KUZNYECHIK) == kuznyechikKs
            && forall id | 1 <= id <= 5 :: Find(table, id).blockSize == 16 && Find(table, id).keySize == 32
  {
    var t := Ciphers(aesKs, twofishKs, camelliaKs, kuznyechikKs);
    assert t[1..][1..] == t[2..] && t[2..][1..] == t[3..] && t[3..][1..] == t[4..];
    assert forall id :: Find(t, id) == if id == AES then t[0] else Find(t[1..], id);
    assert forall id :: Find(t[1..], id) == if id == SERPENT then t[1] else Find(t[2..], id);
    assert forall id :: Find(t[2..], id) == if id == TWOFISH then t[2] else Find(t[3..], id);
    assert forall id :: Find(t[3..], id) == if id == CAMELLIA then t[3] else Find(t[4..], id);
    assert Find(t[4..], KUZNYECHIK) == t[4];
  }

  lemma ShortTotal(table: seq<Cipher>, cs: seq<int>)
    requires |cs| <= 3
    ensures TotalSize(table, cs) == (if |cs| > 0 then ScheduleSize(table, cs[0]) else 0)
                                  + (if |cs| > 1 then ScheduleSize(table, cs[1]) else 0)
                                  + (if |cs| > 2 then ScheduleSize(table, cs[2]) else 0)
  {
    assert Offset(table, cs, 0) == 0;
    if |cs| > 0 { assert Offset(table, cs, 1) == ScheduleSize(table, cs[0]); }
    if |cs| > 1 { assert Offset(table, cs, 2) == Offset(table, cs, 1) + ScheduleSize(table, cs[1]); }
    if |cs| > 2 { assert Offset(table, cs, 3) == Offset(table, cs, 2) + ScheduleSize(table, cs[2]); }
  }
}
