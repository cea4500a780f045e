/** The driver's four-slot password cache. */
module PasswordCache {
  import opened Base
  import opened MemoryProtection

  const CACHE_SIZE := 4
  const MAX_LEGACY_PASSWORD := 64
  const MAX_PASSWORD := 128

  const ERR_SUCCESS := 0
  const ERR_PASSWORD_WRONG := 3
  const ERR_CIPHER_INIT_WEAK_KEY := 18

  /** A password record: the bytes of its length field, its text and its padding. */
  datatype Password = Password(length: seq<Byte>, text: seq<Byte>, pad: seq<Byte>)

  const ZERO_PASSWORD := Password(Repeated<Byte>(0, 4), Repeated<Byte>(0, MAX_PASSWORD + 1), Repeated<Byte>(0, 3))

  function ReadLittleEndian(bytes: seq<Byte>): nat {
    if bytes == [] then 0 else bytes[0] as nat + 0x100 * ReadLittleEndian(bytes[1..])
  }

  function LengthOf(p: Password): nat {
    ReadLittleEndian(p.length)
  }

  lemma LengthInFourBytes(a: Byte, b: Byte, c: Byte, d: Byte)
    ensures ReadLittleEndian([a, b, c, d]) == a as nat + 0x100 * b as nat + 0x1_0000 * c as nat + 0x100_0000 * d as nat
  {
    assert [a, b, c, d][1..] == [b, c, d] && [b, c, d][1..] == [c, d] && [c, d][1..] == [d] && [d][1..] == [];
    assert ReadLittleEndian([d]) == d as nat;
    assert ReadLittleEndian([c, d]) == c as nat + 0x100 * ReadLittleEndian([d]);
    assert ReadLittleEndian([b, c, d]) == b as nat + 0x100 * ReadLittleEndian([c, d]);
  }

  /** The boot loader's record: the same with a shorter text. */
  datatype PasswordLegacy = PasswordLegacy(length: seq<Byte>, text: seq<Byte>, pad: seq<Byte>)

  /** The length field does not point beyond the text. */
  predicate Sized(p: PasswordLegacy) {
    |p.text| == MAX_LEGACY_PASSWORD + 1 && ReadLittleEndian(p.length) <= |p.text|
  }

  /** The legacy record as a full one, zeros behind the text. */
  function Widened(p: PasswordLegacy): Password
    requires Sized(p)
  {
    var n := ReadLittleEndian(p.length);
    Password(p.length, p.text[..n] + Repeated<Byte>(0, MAX_PASSWORD + 1 - n), Repeated<Byte>(0, 3))
  }

  /**
   * Widened records are equal, and so share a slot, exactly when lengths and texts are: what is behind the
   * text has no say.
   */
  lemma WidenedExactly(p: PasswordLegacy, q: PasswordLegacy)
    requires Sized(p) && Sized(q)
    ensures Widened(p) == Widened(q)
            <==> p.length == q.length && p.text[..ReadLittleEndian(p.length)] == q.text[..ReadLittleEndian(q.length)]
    ensures Widened(p).length == p.length && |Widened(p).text| == 129 && Widened(p).pad == [0, 0, 0]
    ensures forall i: nat | i < 129 ::
              Widened(p).text[i] == if i < ReadLittleEndian(p.length) then p.text[i] else 0
  {
    hide ReadLittleEndian;
    var n := ReadLittleEndian(p.length);
    if Widened(p) == Widened(q) {
      assert Widened(p).text[..n] == p.text[..n] && Widened(q).text[..n] == q.text[..n];
    }
  }

  /** Text first, then the length, from one keystream; the padding stays as it is. */
  function VcProtectPassword(p: Protection, password: Password, encID: nat): (r: Password) {
    var masked := Masked(p, encID, 0, password.text + password.length);
    Password(masked[|password.text|..], masked[..|password.text|], password.pad)
  }

  lemma UnprotectAfterProtect(p: Protection, password: Password, encID: nat)
    ensures VcProtectPassword(p, VcProtectPassword(p, password, encID), encID) == password
  {
    var once := VcProtectPassword(p, password, encID);
    var flat := password.text + password.length;
    MaskedTwice(p, encID, 0, flat);
    assert once.text + once.length == Masked(p, encID, 0, flat);
    assert flat[|password.text|..] == password.length && flat[..|password.text|] == password.text;
  }

  /** Byte by byte: the keystream starts at the text and goes on in the length. */
  lemma ProtectedBytes(p: Protection, password: Password, encID: nat)
    requires p.hasArea
    ensures var r := VcProtectPassword(p, password, encID);
            && |r.text| == |password.text| && |r.length| == |password.length| && r.pad == password.pad
            && (forall i | 0 <= i < |r.text| :: r.text[i] == password.text[i] ^ p.stream(encID, i))
            && (forall i | 0 <= i < |r.length| ::
                  r.length[i] == password.length[i] ^ p.stream(encID, |password.text| + i))
  {
    var flat := password.text + password.length;
    assert flat[..|password.text|] == password.text && flat[|password.text|..] == password.length;
  }

  // -------------------------------------------------------------------------
  // The cache as seen through decryption
  // -------------------------------------------------------------------------

  datatype State = State(slots: seq<Password>, pims: seq<int>, next: nat, empty: bool)

  ghost predicate Shaped(st: State) {
    |st.slots| == |st.pims| == CACHE_SIZE && st.next < CACHE_SIZE
  }

  /** The first slot from i on that holds exactly this record; CACHE_SIZE when none does. */
  function SlotOf(slots: seq<Password>, password: Password, i: nat): (r: nat)
    requires |slots| == CACHE_SIZE && i <= CACHE_SIZE
    ensures i <= r <= CACHE_SIZE
    ensures r < CACHE_SIZE ==> slots[r] == password
    ensures password !in slots[i..r]
    decreases CACHE_SIZE - i
  {
    if i == CACHE_SIZE || slots[i] == password then i else SlotOf(slots, password, i + 1)
  }

  function StoredPim(pim: int, cachePim: bool): int {
    if cachePim && pim > 0 then pim else 0
  }

  function Added(st: State, password: Password, pim: int, cachePim: bool): State
    requires Shaped(st)
  {
    var i := SlotOf(st.slots, password, 0);
    if i == CACHE_SIZE then
      State(st.slots[st.next := password], st.pims[st.next := StoredPim(pim, cachePim)],
            (st.next + 1) % CACHE_SIZE, false)
    else if cachePim then st.(pims := st.pims[i := StoredPim(pim, cachePim)])
    else st
  }

  /** Reading a volume header with a password and a PIM: (boot, password, PIM) to return code. */
  type HeaderReader = (bool, Password, int) -> int

  /** The slot can be tried: its length is neither zero nor beyond what the header kind allows. */
  predicate Eligible(password: Password, boot: bool) {
    0 < LengthOf(password) <= (if boot then MAX_LEGACY_PASSWORD else MAX_PASSWORD)
  }

  /** What trying slot i answers, None when the slot is not tried. */
  function Answer(read: HeaderReader, boot: bool, st: State, pim: int, i: nat): Option<int>
    requires Shaped(st) && i < CACHE_SIZE
  {
    if Eligible(st.slots[i], boot)
    then Some(read(boot, st.slots[i], if pim == -1 then st.pims[i] else pim))
    else None
  }

  /** Trying the slots from i on until one answers something else than a wrong password. */
  function CachedResult(read: HeaderReader, boot: bool, st: State, pim: int, i: nat): int
    requires Shaped(st) && i <= CACHE_SIZE
    decreases CACHE_SIZE - i
  {
    if i == CACHE_SIZE then ERR_PASSWORD_WRONG
    else match Answer(read, boot, st, pim, i)
         case Some(code) => if code != ERR_PASSWORD_WRONG then code else CachedResult(read, boot, st, pim, i + 1)
         case None => CachedResult(read, boot, st, pim, i + 1)
  }

  /** No slot of i..k is tried with an answer other than a wrong password. */
  ghost predicate NothingOpens(read: HeaderReader, boot: bool, st: State, pim: int, i: nat, k: nat)
    requires Shaped(st) && k <= CACHE_SIZE
  {
    forall j: nat | i <= j < k ::
      Answer(read, boot, st, pim, j) == None || Answer(read, boot, st, pim, j) == Some(ERR_PASSWORD_WRONG)
  }

  /** The result is that of the first slot, in slot order, that is tried and is not a wrong password. */
  lemma {:induction false} FirstAnswerWins(read: HeaderReader, boot: bool, st: State, pim: int, i: nat) returns (k: nat)
    requires Shaped(st) && i <= CACHE_SIZE
    ensures i <= k <= CACHE_SIZE && NothingOpens(read, boot, st, pim, i, k)
    ensures CachedResult(read, boot, st, pim, i) == ERR_PASSWORD_WRONG <==> k == CACHE_SIZE
    ensures k < CACHE_SIZE ==> Answer(read, boot, st, pim, k) == Some(CachedResult(read, boot, st, pim, i))
    decreases CACHE_SIZE - i
  {
    if i == CACHE_SIZE || Answer(read, boot, st, pim, i) !in {None, Some(ERR_PASSWORD_WRONG)} {
      k := i;
    } else {
      k := FirstAnswerWins(read, boot, st, pim, i + 1);
    }
  }

  lemma {:induction false} TriedAt(read: HeaderReader, boot: bool, st: State, pim: int, i: nat, k: nat)
    requires Shaped(st) && i <= k <= CACHE_SIZE && NothingOpens(read, boot, st, pim, i, k)
    requires k < CACHE_SIZE ==> Answer(read, boot, st, pim, k) !in {None, Some(ERR_PASSWORD_WRONG)}
    ensures k == CACHE_SIZE ==> CachedResult(read, boot, st, pim, i) == ERR_PASSWORD_WRONG
    ensures k < CACHE_SIZE ==> Answer(read, boot, st, pim, k) == Some(CachedResult(read, boot, st, pim, i))
    decreases k - i
  {
    if i < k {
      TriedAt(read, boot, st, pim, i + 1, k);
    }
  }

  lemma FirstIsOne(slots: seq<Password>, password: Password, i: nat, j: nat)
    requires i < |slots| && slots[i] == password && password !in slots[..i]
    requires j < |slots| && slots[j] == password && password !in slots[..j]
    ensures i == j
  {
    assert forall k | 0 <= k < i :: slots[..i][k] == slots[k];
    assert forall k | 0 <= k < j :: slots[..j][k] == slots[k];
  }

  /** The header takes no password but this one. */
  ghost predicate OnlyTakes(read: HeaderReader, boot: bool, password: Password) {
    forall other, pim :: other != password ==> read(boot, other, pim) == 3
  }

  /** The PIM a cached password is tried with when none is typed, just after it was added. */
  ghost predicate PimAfterAdding(st: State, password: Password, pim: int, cachePim: bool, own: int)
    requires Shaped(st)
  {
    && (cachePim ==> own == if pim > 0 then pim else 0)
    && (!cachePim && password !in st.slots ==> own == 0)
    && (!cachePim && password in st.slots ==>
          exists i: nat | i < 4 :: st.slots[i] == password && password !in st.slots[..i] && own == st.pims[i])
  }

  /**
   * What adding is for: a volume that takes just the added password is then mounted from the cache, with
   * the PIM cached for it or with the one typed; a password of no length or of too great a one never is.
   */
  lemma AddedPasswordMounts(st: State, password: Password, pim: int, cachePim: bool, read: HeaderReader, boot: bool,
                            typedPim: int, own: int)
    requires Shaped(st) && OnlyTakes(read, boot, password)
    requires PimAfterAdding(st, password, pim, cachePim, own)
    ensures var fits := 1 <= LengthOf(password) <= (if boot then 64 else 128);
            var code := read(boot, password, if typedPim == -1 then own else typedPim);
            && (fits && code != 3 ==>
                  CachedResult(read, boot, Added(st, password, pim, cachePim), typedPim, 0) == code)
            && (!fits ==> CachedResult(read, boot, Added(st, password, pim, cachePim), typedPim, 0) == 3)
  {
    hide LengthOf, SlotOf;
    var after := Added(st, password, pim, cachePim);
    var i := SlotOf(st.slots, password, 0);
    assert st.slots[0..4] == st.slots && st.slots[0..i] == st.slots[..i];
    var at := if i == 4 then st.next else i;
    assert after.slots[at] == password;
    assert i == 4 <==> password !in st.slots;
    assert after.pims[at] == own by {
      if i < 4 && !cachePim {
        var j: nat :| j < 4 && st.slots[j] == password && password !in st.slots[..j] && own == st.pims[j];
        FirstIsOne(st.slots, password, i, j);
      }
    }
    var fits := 1 <= LengthOf(password) <= (if boot then 64 else 128);
    var code := read(boot, password, if typedPim == -1 then own else typedPim);
    if fits && code != 3 {
      assert Answer(read, boot, after, typedPim, at) == Some(code);
      assert NothingOpens(read, boot, after, typedPim, 0, at) by {
        forall j: nat | j < at
          ensures after.slots[j] != password
        {
          assert i == 4 ==> st.slots[j] in st.slots;
          assert i < 4 ==> st.slots[..i][j] != password;
        }
      }
      TriedAt(read, boot, after, typedPim, 0, at);
    } else if !fits {
      assert NothingOpens(read, boot, after, typedPim, 0, 4);
      TriedAt(read, boot, after, typedPim, 0, 4);
    }
  }

  /** What an addition leaves alone. */
  lemma AddedElsewhere(st: State, password: Password, pim: int, cachePim: bool, i: nat)
    requires Shaped(st) && i < 4
    ensures var after := Added(st, password, pim, cachePim);
            && Shaped(after)
            && (password in st.slots ==> after.slots == st.slots && after.next == st.next && after.empty == st.empty)
            && (password !in st.slots ==> after.next == (st.next + 1) % 4 && !after.empty)
            && (password !in st.slots && i != st.next ==>
                  after.slots[i] == st.slots[i] && after.pims[i] == st.pims[i])
            && (st.slots[i] != password && password in st.slots ==> after.pims[i] == st.pims[i])
  {
    assert st.slots[0..4] == st.slots;
  }

  /** A mount with a password caches it exactly when asked to and when the header was read. */
  predicate Caches(code: int, cache: bool) {
    cache && (code == ERR_SUCCESS || code == ERR_CIPHER_INIT_WEAK_KEY)
  }

  // -------------------------------------------------------------------------
  // The cache itself
  // -------------------------------------------------------------------------

  class Cache {
    const ramEncryption: bool
    const protection: Protection
    const encIDs: nat -> nat
    const cachedPasswords: array<Password>
    const cachedPim: array<int>
    var cacheEmpty: bool
    var nPasswordIdx: nat

    constructor (ramEncryption: bool, protection: Protection, encIDs: nat -> nat)
      ensures Valid() && fresh(cachedPasswords) && fresh(cachedPim)
      ensures this.ramEncryption == ramEncryption && this.protection == protection && this.encIDs == encIDs
      ensures Abstract() == Wiped()
    {
      this.ramEncryption, this.protection, this.encIDs := ramEncryption, protection, encIDs;
      cachedPasswords := new Password[CACHE_SIZE](_ => ZERO_PASSWORD);
      cachedPim := new int[CACHE_SIZE](_ => 0);
      cacheEmpty, nPasswordIdx := true, 0;
    }

    ghost predicate Valid()
      reads this
    {
      cachedPasswords.Length == CACHE_SIZE && cachedPim.Length == CACHE_SIZE && nPasswordIdx < CACHE_SIZE
    }

    /** A slot's record with in-memory encryption taken off. */
    function Plain(stored: Password, i: nat): Password {
      if ramEncryption then VcProtectPassword(protection, stored, encIDs(i)) else stored
    }

    function PlainSlots(stored: seq<Password>): (r: seq<Password>)
      ensures |r| == |stored| && forall i | 0 <= i < |r| :: r[i] == Plain(stored[i], i)
    {
      seq(|stored|, i requires 0 <= i < |stored| => Plain(stored[i], i))
    }

    /** What is stored for a password in a slot is that password once encryption is taken off. */
    lemma PlainAt(stored: Password, i: nat, password: Password)
      requires stored == if ramEncryption then VcProtectPassword(protection, password, encIDs(i)) else password
      ensures Plain(stored, i) == password
    {
      UnprotectAfterProtect(protection, password, encIDs(i));
    }

    ghost function Abstract(): (st: State)
      requires Valid()
      reads this, cachedPasswords, cachedPim
      ensures Shaped(st)
    {
      State(PlainSlots(cachedPasswords[..]), cachedPim[..], nPasswordIdx, cacheEmpty)
    }

    ghost function Wiped(): (st: State)
      ensures Shaped(st)
    {
      State(PlainSlots(seq(CACHE_SIZE, _ => ZERO_PASSWORD)), [0, 0, 0, 0], 0, true)
    }

    /** Without memory encryption a wiped cache tries nothing. */
    lemma WipedOpensNothing(read: HeaderReader, boot: bool, pim: int)
      requires !ramEncryption
      ensures CachedResult(read, boot, Wiped(), pim, 0) == 3
    {
      LengthInFourBytes(0, 0, 0, 0);
      assert ZERO_PASSWORD.length == [0, 0, 0, 0];
      assert NothingOpens(read, boot, Wiped(), pim, 0, 4);
      TriedAt(read, boot, Wiped(), pim, 0, 4);
    }

    method FindPassword(password: Password) returns (i: nat)
      requires Valid()
      ensures i == SlotOf(Abstract().slots, password, 0)
    {
      i := 0;
      while i < CACHE_SIZE
        invariant i <= CACHE_SIZE
        invariant SlotOf(Abstract().slots, password, i) == SlotOf(Abstract().slots, password, 0)
      {
        if Plain(cachedPasswords[i], i) == password {
          return;
        }
        i := i + 1;
      }
    }

    method AddPasswordToCache(password: Password, pim: int, cachePim: bool)
      requires Valid()
      modifies this, cachedPasswords, cachedPim
      ensures Valid()
      ensures Abstract() == Added(old(Abstract()), password, pim, cachePim)
    {
      hide SlotOf, Plain, VcProtectPassword;
      ghost var stored := cachedPasswords[..];
      var i := FindPassword(password);
      if i == CACHE_SIZE {
        cachedPasswords[nPasswordIdx] :=
          if ramEncryption then VcProtectPassword(protection, password, encIDs(nPasswordIdx)) else password;
        if cachePim && pim > 0 {
          cachedPim[nPasswordIdx] := pim;
        } else {
          cachedPim[nPasswordIdx] := 0;
        }
        PlainAt(cachedPasswords[nPasswordIdx], nPasswordIdx, password);
        assert PlainSlots(cachedPasswords[..]) == PlainSlots(stored)[nPasswordIdx := password];
        nPasswordIdx := (nPasswordIdx + 1) % CACHE_SIZE;
        cacheEmpty := false;
      } else if cachePim {
        cachedPim[i] := if pim > 0 then pim else 0;
        assert cachedPasswords[..] == stored;
      }
    }

    method AddLegacyPasswordToCache(password: PasswordLegacy, pim: int)
      requires Valid() && Sized(password)
      modifies this, cachedPasswords, cachedPim
      ensures Valid()
      ensures Abstract() == Added(old(Abstract()), Widened(password), pim, true)
    {
      var n := ReadLittleEndian(password.length);
      var inputPass := ZERO_PASSWORD.(length := password.length);
      inputPass := inputPass.(text := password.text[..n] + inputPass.text[n..]);
      assert inputPass.text == Widened(password).text;
      AddPasswordToCache(inputPass, pim, true);
    }

    method ReadVolumeHeaderWCache(read: HeaderReader, boot: bool, cache: bool, cachePim: bool, password: Password,
                                  pim: int) returns (code: int)
      requires Valid()
      modifies this, cachedPasswords, cachedPim
      ensures Valid()
      ensures LengthOf(password) > 0 ==> code == read(boot, password, pim)
      ensures LengthOf(password) > 0 && Caches(code, cache) ==>
                Abstract() == Added(old(Abstract()), password, pim, cachePim)
      ensures LengthOf(password) == 0 || !Caches(code, cache) ==> Abstract() == old(Abstract())
      ensures LengthOf(password) == 0 && old(cacheEmpty) ==> code == ERR_PASSWORD_WRONG
      ensures LengthOf(password) == 0 && !old(cacheEmpty) ==> code == CachedResult(read, boot, old(Abstract()), pim, 0)
    {
      code := ERR_PASSWORD_WRONG;
      if LengthOf(password) > 0 {
        code := read(boot, password, pim);
        if cache && (code == ERR_SUCCESS || code == ERR_CIPHER_INIT_WEAK_KEY) {
          AddPasswordToCache(password, pim, cachePim);
        }
      } else if !cacheEmpty {
        var i := 0;
        while i < CACHE_SIZE
          invariant i <= CACHE_SIZE && code == ERR_PASSWORD_WRONG
          invariant CachedResult(read, boot, Abstract(), pim, i) == CachedResult(read, boot, Abstract(), pim, 0)
        {
          var current := Plain(cachedPasswords[i], i);
          assert current == Abstract().slots[i];
          if Eligible(current, boot) {
            var effectivePim := if pim == -1 then cachedPim[i] else pim;
            code := read(boot, current, effectivePim);
            assert Answer(read, boot, Abstract(), pim, i) == Some(code);
            if code != ERR_PASSWORD_WRONG {
              return;
            }
          }
          i := i + 1;
        }
      }
    }

    method WipeCache()
      requires Valid()
      modifies this, cachedPasswords, cachedPim
      ensures Valid()
      ensures Abstract() == Wiped()
    {
      forall i | 0 <= i < CACHE_SIZE {
        cachedPasswords[i] := ZERO_PASSWORD;
      }
      forall i | 0 <= i < CACHE_SIZE {
        cachedPim[i] := 0;
      }
      nPasswordIdx := 0;
      cacheEmpty := true;
    }
  }

  // -------------------------------------------------------------------------
  // Runs
  // -------------------------------------------------------------------------

  datatype Op =
    | Add(password: Password, pim: int, cachePim: bool)
    | Mount(read: HeaderReader, boot: bool, cache: bool, withPim: bool, typed: Password, typedPim: int)
    | Wipe

  function Step(blank: State, st: State, op: Op): State
    requires Shaped(blank) && Shaped(st)
  {
    match op
    case Add(password, pim, cachePim) => Added(st, password, pim, cachePim)
    case Mount(read, boot, cache, withPim, typed, typedPim) =>
      if LengthOf(typed) > 0 && Caches(read(boot, typed, typedPim), cache)
      then Added(st, typed, typedPim, withPim) else st
    case Wipe => blank
  }

  /** A mount with a typed password adds it exactly when asked to and when the header was read, weak keys included. */
  lemma MountAdds(blank: State, st: State, read: HeaderReader, boot: bool, cache: bool, withPim: bool,
                  typed: Password, typedPim: int)
    requires Shaped(blank) && Shaped(st)
    ensures Step(blank, st, Mount(read, boot, cache, withPim, typed, typedPim))
         == if LengthOf(typed) != 0 && cache && read(boot, typed, typedPim) in {0, 18}
            then Step(blank, st, Add(typed, typedPim, withPim)) else st
  {
  }

  /** The passwords inserted since the last wipe, oldest first, each with the PIM last stored for it. */
  type Log = seq<(Password, int)>

  /** The entry is among the last four inserted. */
  predicate Recent(log: Log, k: nat) {
    |log| - CACHE_SIZE <= k < |log|
  }

  /** A miss appends; a hit only refreshes the PIM of the entry it hits, and only when PIMs are cached. */
  function LogAdded(log: Log, st: State, password: Password, pim: int, cachePim: bool): Log
    requires Shaped(st)
  {
    if SlotOf(st.slots, password, 0) == CACHE_SIZE then log + [(password, StoredPim(pim, cachePim))]
    else if cachePim then
      seq(|log|, k requires 0 <= k < |log| =>
        if Recent(log, k) && log[k].0 == password then (password, StoredPim(pim, cachePim)) else log[k])
    else log
  }

  function LogStep(log: Log, st: State, op: Op): Log
    requires Shaped(st)
  {
    match op
    case Add(password, pim, cachePim) => LogAdded(log, st, password, pim, cachePim)
    case Mount(read, boot, cache, withPim, typed, typedPim) =>
      if LengthOf(typed) > 0 && Caches(read(boot, typed, typedPim), cache)
      then LogAdded(log, st, typed, typedPim, withPim) else log
    case Wipe => []
  }

  /**
   * The slots hold exactly the last four inserted passwords, pairwise distinct, at their insertion
   * number modulo four, with their PIMs; the slots never written since the wipe are blank.
   */
  ghost predicate Holds(blank: State, st: State, log: Log) {
    && Shaped(blank) && Shaped(st)
    && st.next == |log| % CACHE_SIZE && st.empty == (log == [])
    && (forall k: nat | Recent(log, k) :: st.slots[k % CACHE_SIZE] == log[k].0 && st.pims[k % CACHE_SIZE] == log[k].1)
    && (forall j: nat, k: nat | Recent(log, j) && Recent(log, k) && j != k :: log[j].0 != log[k].0)
    && (forall i: nat | |log| <= i < CACHE_SIZE :: st.slots[i] == blank.slots[i])
    && (forall i: nat | i < CACHE_SIZE :: st.pims[i] >= 0)
  }

  ghost predicate IsBlank(blank: State) {
    Shaped(blank) && blank.next == 0 && blank.empty && blank.pims == [0, 0, 0, 0]
  }

  /** Slot i is that of recent entry k exactly when k's password is the one found first in slot i. */
  lemma HitIsRecent(blank: State, st: State, log: Log, i: nat, k: nat)
    requires Holds(blank, st, log) && i < CACHE_SIZE && Recent(log, k)
    requires i == SlotOf(st.slots, st.slots[i], 0)
    ensures k % CACHE_SIZE == i <==> log[k].0 == st.slots[i]
  {
    var own: nat := k % CACHE_SIZE;
    assert st.slots[own] == log[k].0;
    if |log| <= i {
      assert st.slots[0..i][own] == log[k].0;
    } else {
      var j: nat := EntryOf(|log|, i);
      assert Recent(log, j);
      assert st.slots[i] == log[j].0;
      if j != k {
        assert log[j].0 != log[k].0;
      }
    }
  }

  /** The number of the recent entry that lives in a written slot. */
  function EntryOf(n: nat, i: nat): (j: nat)
    requires i < CACHE_SIZE && i < n
    ensures n - CACHE_SIZE <= j < n && j % CACHE_SIZE == i
  {
    if n % CACHE_SIZE > i then n - n % CACHE_SIZE + i else n - n % CACHE_SIZE - CACHE_SIZE + i
  }

  /** An entry that stays recent through an insertion is in another slot than the one written, with another password. */
  lemma StaysRecent(blank: State, st: State, log: Log, password: Password, k: nat)
    requires Holds(blank, st, log) && SlotOf(st.slots, password, 0) == CACHE_SIZE
    requires |log| + 1 - CACHE_SIZE <= k < |log|
    ensures Recent(log, k) && k % CACHE_SIZE != st.next && log[k].0 != password
  {
    var own: nat := k % CACHE_SIZE;
    assert st.slots[0..CACHE_SIZE][own] == log[k].0;
  }

  lemma MissKeeps(blank: State, st: State, log: Log, password: Password, pim: int)
    requires Holds(blank, st, log) && SlotOf(st.slots, password, 0) == CACHE_SIZE
    requires pim >= 0
    ensures Holds(blank,
                  State(st.slots[st.next := password], st.pims[st.next := pim], (st.next + 1) % CACHE_SIZE, false),
                  log + [(password, pim)])
  {
    hide SlotOf;
    var log' := log + [(password, pim)];
    var n := |log|;
    assert |log'| % CACHE_SIZE == (st.next + 1) % CACHE_SIZE;
    forall k: nat | Recent(log', k) && k < n
      ensures Recent(log, k) && log'[k] == log[k] && k % CACHE_SIZE != st.next && log[k].0 != password
    {
      StaysRecent(blank, st, log, password, k);
    }
  }

  lemma HitKeeps(blank: State, st: State, log: Log, password: Password, pim: int)
    requires Holds(blank, st, log) && SlotOf(st.slots, password, 0) < CACHE_SIZE
    ensures Holds(blank, Added(st, password, pim, true), LogAdded(log, st, password, pim, true))
  {
    var log' := LogAdded(log, st, password, pim, true);
    forall k: nat | Recent(log', k)
      ensures Recent(log, k) && log'[k].0 == log[k].0
      ensures k % CACHE_SIZE == SlotOf(st.slots, password, 0) <==> log[k].0 == password
    {
      assert Recent(log, k);
      HitIsRecent(blank, st, log, SlotOf(st.slots, password, 0), k);
    }
  }

  lemma StepKeeps(blank: State, st: State, log: Log, op: Op)
    requires IsBlank(blank) && Holds(blank, st, log)
    ensures Holds(blank, Step(blank, st, op), LogStep(log, st, op))
  {
    match op
    case Wipe =>
    case Add(password, pim, cachePim) =>
      AddedKeeps(blank, st, log, password, pim, cachePim);
    case Mount(read, boot, cache, withPim, typed, typedPim) =>
      AddedKeeps(blank, st, log, typed, typedPim, withPim);
  }

  lemma AddedKeeps(blank: State, st: State, log: Log, password: Password, pim: int, cachePim: bool)
    requires Holds(blank, st, log)
    ensures Holds(blank, Added(st, password, pim, cachePim), LogAdded(log, st, password, pim, cachePim))
  {
    if SlotOf(st.slots, password, 0) == CACHE_SIZE {
      MissKeeps(blank, st, log, password, StoredPim(pim, cachePim));
    } else if cachePim {
      HitKeeps(blank, st, log, password, pim);
    }
  }

  /** The state and the log after the first n operations of a run that starts blank. */
  function StateAfter(blank: State, ops: seq<Op>, n: nat): (st: State)
    requires Shaped(blank) && n <= |ops|
    ensures Shaped(st)
  {
    if n == 0 then blank else Step(blank, StateAfter(blank, ops, n - 1), ops[n - 1])
  }

  function LogAfter(blank: State, ops: seq<Op>, n: nat): Log
    requires Shaped(blank) && n <= |ops|
  {
    if n == 0 then [] else LogStep(LogAfter(blank, ops, n - 1), StateAfter(blank, ops, n - 1), ops[n - 1])
  }

  lemma BlankHolds(blank: State)
    requires IsBlank(blank)
    ensures Holds(blank, blank, [])
  {
  }

  /** At every point of every run the slots hold exactly the last four insertions since the last wipe. */
  lemma {:induction false} EveryRunHolds(blank: State, ops: seq<Op>, n: nat)
    requires IsBlank(blank) && n <= |ops|
    ensures Holds(blank, StateAfter(blank, ops, n), LogAfter(blank, ops, n))
  {
    hide Holds, Step, LogStep;
    assert n == 0 ==> Holds(blank, blank, []) by { BlankHolds(blank); }
    if n > 0 {
      EveryRunHolds(blank, ops, n - 1);
      StepKeeps(blank, StateAfter(blank, ops, n - 1), LogAfter(blank, ops, n - 1), ops[n - 1]);
    }
  }

  // -------------------------------------------------------------------------
  // Encrypted against unencrypted memory
  // -------------------------------------------------------------------------

  /** Once every slot has been written, the log alone determines the whole cache. */
  lemma FullCacheDetermined(blank1: State, st1: State, blank2: State, st2: State, log: Log)
    requires Holds(blank1, st1, log) && Holds(blank2, st2, log) && |log| >= CACHE_SIZE
    ensures st1 == st2
  {
    forall i: nat | i < CACHE_SIZE
      ensures st1.slots[i] == st2.slots[i] && st1.pims[i] == st2.pims[i]
    {
      assert Recent(log, EntryOf(|log|, i));
    }
  }

  /** No slot that was never written holds this password. */
  ghost predicate MissesBlanks(blank: State, n: nat, password: Password)
    requires Shaped(blank)
  {
    forall i: nat | n <= i < CACHE_SIZE :: blank.slots[i] != password
  }

  /** On the written slots two caches with the same log, whatever their blank slots decrypt to, find the same slot. */
  lemma SameSlot(blank1: State, st1: State, blank2: State, st2: State, log: Log, password: Password)
    requires Holds(blank1, st1, log) && Holds(blank2, st2, log)
    requires MissesBlanks(blank1, |log|, password) && MissesBlanks(blank2, |log|, password)
    ensures SlotOf(st1.slots, password, 0) == SlotOf(st2.slots, password, 0)
  {
    forall i: nat | i < CACHE_SIZE
      ensures st1.slots[i] == password <==> st2.slots[i] == password
    {
      if i < |log| {
        assert Recent(log, EntryOf(|log|, i));
      }
    }
    SameMatches(st1.slots, st2.slots, password, 0);
  }

  lemma {:induction false} SameMatches(a: seq<Password>, b: seq<Password>, password: Password, i: nat)
    requires |a| == |b| == CACHE_SIZE && i <= CACHE_SIZE
    requires forall j: nat | j < CACHE_SIZE :: a[j] == password <==> b[j] == password
    ensures SlotOf(a, password, i) == SlotOf(b, password, i)
    decreases CACHE_SIZE - i
  {
    if i < CACHE_SIZE {
      SameMatches(a, b, password, i + 1);
    }
  }

  /** Two caches with the same log answer a mount from the cache alike unless a never written slot opens something. */
  lemma {:induction false} SameCachedResult(blank1: State, st1: State, blank2: State, st2: State, log: Log,
                                            read: HeaderReader, boot: bool, pim: int, i: nat)
    requires Holds(blank1, st1, log) && Holds(blank2, st2, log) && i <= CACHE_SIZE
    requires NothingOpens(read, boot, st1, pim, |log|, CACHE_SIZE)
    requires NothingOpens(read, boot, st2, pim, |log|, CACHE_SIZE)
    ensures CachedResult(read, boot, st1, pim, i) == CachedResult(read, boot, st2, pim, i)
    decreases CACHE_SIZE - i
  {
    if i < CACHE_SIZE {
      SameCachedResult(blank1, st1, blank2, st2, log, read, boot, pim, i + 1);
      if i < |log| {
        assert Recent(log, EntryOf(|log|, i));
      }
    }
  }

  /** The password an operation may put into the cache. */
  function Offered(op: Op): Option<Password> {
    match op
    case Add(password, _, _) => Some(password)
    case Mount(read, boot, cache, _, typed, typedPim) =>
      if LengthOf(typed) > 0 && Caches(read(boot, typed, typedPim), cache) then Some(typed) else None
    case Wipe => None
  }

  /** No operation of the run offers a password that a never written slot of this cache happens to show. */
  ghost predicate AvoidsBlanks(blank: State, ops: seq<Op>)
    requires Shaped(blank)
  {
    forall n: nat | n < |ops| && Offered(ops[n]).Some? ::
      MissesBlanks(blank, |LogAfter(blank, ops, n)|, Offered(ops[n]).value)
  }

  /** One operation changes two caches with the same log in the same way. */
  lemma SameLogStep(blank1: State, st1: State, blank2: State, st2: State, log: Log, op: Op)
    requires Holds(blank1, st1, log) && Holds(blank2, st2, log)
    requires Offered(op).Some? ==>
               MissesBlanks(blank1, |log|, Offered(op).value) && MissesBlanks(blank2, |log|, Offered(op).value)
    ensures LogStep(log, st1, op) == LogStep(log, st2, op)
  {
    if Offered(op).Some? {
      SameSlot(blank1, st1, blank2, st2, log, Offered(op).value);
    }
  }

  /**
   * Refinement: an encrypted and an unencrypted cache run through the same operations keep the same
   * log, so the same passwords and PIMs in the same written slots, and are equal once full.
   */
  lemma {:induction false} SameLogs(blank1: State, blank2: State, ops: seq<Op>, n: nat)
    requires IsBlank(blank1) && IsBlank(blank2) && n <= |ops|
    requires AvoidsBlanks(blank1, ops) && AvoidsBlanks(blank2, ops)
    ensures LogAfter(blank1, ops, n) == LogAfter(blank2, ops, n)
    ensures |LogAfter(blank1, ops, n)| >= CACHE_SIZE ==> StateAfter(blank1, ops, n) == StateAfter(blank2, ops, n)
  {
    hide Holds, Step, LogStep, MissesBlanks;
    EveryRunHolds(blank1, ops, n);
    EveryRunHolds(blank2, ops, n);
    if n > 0 {
      var m: nat := n - 1;
      SameLogs(blank1, blank2, ops, m);
      EveryRunHolds(blank1, ops, m);
      EveryRunHolds(blank2, ops, m);
      SameLogStep(blank1, StateAfter(blank1, ops, m), blank2, StateAfter(blank2, ops, m),
                  LogAfter(blank1, ops, m), ops[m]);
    }
    if |LogAfter(blank1, ops, n)| >= CACHE_SIZE {
      FullCacheDetermined(blank1, StateAfter(blank1, ops, n), blank2, StateAfter(blank2, ops, n),
                          LogAfter(blank1, ops, n));
    }
  }
}
