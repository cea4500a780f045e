/** Encrypting and decrypting buffers with a cascade of ciphers in XTS mode. */
module CipherCascade {
  import opened Base
  import opened CipherTable

  const XTS := 1
  const ENCRYPTION_DATA_UNIT_SIZE := 512
  const BYTES_PER_XTS_BLOCK := 16

  // -------------------------------------------------------------------------
  // The abstract cipher pass and key expansion
  // -------------------------------------------------------------------------

  /** One XTS pass over a buffer: (cipher, schedule, tweak schedule, first data unit, data) to data. */
  type Pass = (int, seq<Byte>, seq<Byte>, nat, seq<Byte>) -> seq<Byte>

  datatype Xts = Xts(enc: Pass, dec: Pass)

  ghost predicate KeepsLength(x: Xts) {
    && (forall c, k1, k2, u, b :: |x.enc(c, k1, k2, u, b)| == |b|)
    && (forall c, k1, k2, u, b :: |x.dec(c, k1, k2, u, b)| == |b|)
  }

  /** Passes keep the length, and on whole blocks each direction undoes the other (IEEE 1619-2007, 5.3 and 5.4). */
  ghost predicate Lawful(x: Xts) {
    && KeepsLength(x)
    && (forall c, k1, k2, u, b :: |b| % BYTES_PER_XTS_BLOCK == 0 ==> x.dec(c, k1, k2, u, x.enc(c, k1, k2, u, b)) == b)
    && (forall c, k1, k2, u, b :: |b| % BYTES_PER_XTS_BLOCK == 0 ==> x.enc(c, k1, k2, u, x.dec(c, k1, k2, u, b)) == b)
  }

  /** What initialising one cipher yields: nothing, or its schedule, possibly from a key flagged as weak. */
  datatype Schedule = Failed | Weak(bytes: seq<Byte>) | Ready(bytes: seq<Byte>)

  type KeyExpansion = (int, seq<Byte>) -> Schedule

  ghost predicate Fills(expand: KeyExpansion, table: seq<Cipher>) {
    forall c, key :: expand(c, key) == Failed || |expand(c, key).bytes| == ScheduleSize(table, c)
  }

  // -------------------------------------------------------------------------
  // What a cascade does, cipher by cipher
  // -------------------------------------------------------------------------

  /** The k-th cipher's part of a schedule buffer. */
  function Slice(table: seq<Cipher>, cs: seq<int>, k: nat, ks: seq<Byte>): seq<Byte>
    requires k < |cs| && TotalSize(table, cs) <= |ks|
  {
    SlicesDisjoint(table, cs, k, |cs|);
    ks[Offset(table, cs, k)..Offset(table, cs, k) + ScheduleSize(table, cs[k])]
  }

  /** The first k ciphers applied in order. */
  function Enciphered(x: Xts, table: seq<Cipher>, cs: seq<int>, k: nat, ks: seq<Byte>, ks2: seq<Byte>, unit: nat,
                      data: seq<Byte>): seq<Byte>
    requires k <= |cs| && TotalSize(table, cs) <= |ks| && TotalSize(table, cs) <= |ks2|
  {
    if k == 0 then data
    else x.enc(cs[k - 1], Slice(table, cs, k - 1, ks), Slice(table, cs, k - 1, ks2), unit,
               Enciphered(x, table, cs, k - 1, ks, ks2, unit, data))
  }

  /** The first k ciphers undone, last one first. */
  function Deciphered(x: Xts, table: seq<Cipher>, cs: seq<int>, k: nat, ks: seq<Byte>, ks2: seq<Byte>, unit: nat,
                      data: seq<Byte>): seq<Byte>
    requires k <= |cs| && TotalSize(table, cs) <= |ks| && TotalSize(table, cs) <= |ks2|
  {
    if k == 0 then data
    else Deciphered(x, table, cs, k - 1, ks, ks2, unit,
                    x.dec(cs[k - 1], Slice(table, cs, k - 1, ks), Slice(table, cs, k - 1, ks2), unit, data))
  }

  lemma {:induction false} LengthKept(x: Xts, table: seq<Cipher>, cs: seq<int>, k: nat, ks: seq<Byte>, ks2: seq<Byte>,
                                      unit: nat, data: seq<Byte>)
    requires KeepsLength(x) && k <= |cs| && TotalSize(table, cs) <= |ks| && TotalSize(table, cs) <= |ks2|
    ensures |Enciphered(x, table, cs, k, ks, ks2, unit, data)| == |data|
    ensures |Deciphered(x, table, cs, k, ks, ks2, unit, data)| == |data|
  {
    if k > 0 {
      LengthKept(x, table, cs, k - 1, ks, ks2, unit, data);
      LengthKept(x, table, cs, k - 1, ks, ks2, unit,
                 x.dec(cs[k - 1], Slice(table, cs, k - 1, ks), Slice(table, cs, k - 1, ks2), unit, data));
    }
  }

  /** The k-th cipher's slice is what the cursors span on their way from its offset to the next one. */
  lemma CursorStep(table: seq<Cipher>, cs: seq<int>, k: nat, ks: seq<Byte>)
    requires k < |cs| && TotalSize(table, cs) <= |ks|
    ensures Offset(table, cs, k + 1) == Offset(table, cs, k) + ScheduleSize(table, cs[k]) <= |ks|
    ensures Slice(table, cs, k, ks) == ks[Offset(table, cs, k)..Offset(table, cs, k + 1)]
  {
    SlicesDisjoint(table, cs, k, |cs|);
  }

  /** Before the first cipher the cursors are at the start and the data is as it came. */
  lemma NoCipher(x: Xts, table: seq<Cipher>, cs: seq<int>, ks: seq<Byte>, ks2: seq<Byte>, unit: nat, data: seq<Byte>)
    requires TotalSize(table, cs) <= |ks| && TotalSize(table, cs) <= |ks2|
    ensures Offset(table, cs, 0) == 0
    ensures Enciphered(x, table, cs, 0, ks, ks2, unit, data) == data == Deciphered(x, table, cs, 0, ks, ks2, unit, data)
  {
  }

  /** Applying the first k + 1 ciphers ends with the last of them. */
  lemma EncipherStep(x: Xts, table: seq<Cipher>, cs: seq<int>, k: nat, ks: seq<Byte>, ks2: seq<Byte>, unit: nat,
                     data: seq<Byte>)
    requires k < |cs| && TotalSize(table, cs) <= |ks| && TotalSize(table, cs) <= |ks2|
    ensures Enciphered(x, table, cs, k + 1, ks, ks2, unit, data)
         == x.enc(cs[k], Slice(table, cs, k, ks), Slice(table, cs, k, ks2), unit,
                  Enciphered(x, table, cs, k, ks, ks2, unit, data))
  {
  }

  /** Undoing the first k ciphers starts by undoing the k-th one. */
  lemma DecipherStep(x: Xts, table: seq<Cipher>, cs: seq<int>, k: nat, ks: seq<Byte>, ks2: seq<Byte>, unit: nat,
                     data: seq<Byte>)
    requires 0 < k <= |cs| && TotalSize(table, cs) <= |ks| && TotalSize(table, cs) <= |ks2|
    ensures Deciphered(x, table, cs, k, ks, ks2, unit, data)
         == Deciphered(x, table, cs, k - 1, ks, ks2, unit,
                       x.dec(cs[k - 1], Slice(table, cs, k - 1, ks), Slice(table, cs, k - 1, ks2), unit, data))
  {
  }

  lemma {:induction false} DecipherUndoesEncipher(x: Xts, table: seq<Cipher>, cs: seq<int>, k: nat, ks: seq<Byte>,
                                                  ks2: seq<Byte>, unit: nat, data: seq<Byte>)
    requires Lawful(x) && k <= |cs| && TotalSize(table, cs) <= |ks| && TotalSize(table, cs) <= |ks2|
    requires |data| % BYTES_PER_XTS_BLOCK == 0
    ensures Deciphered(x, table, cs, k, ks, ks2, unit, Enciphered(x, table, cs, k, ks, ks2, unit, data)) == data
  {
    if k > 0 {
      LengthKept(x, table, cs, k - 1, ks, ks2, unit, data);
      DecipherUndoesEncipher(x, table, cs, k - 1, ks, ks2, unit, data);
    }
  }

  lemma {:induction false} EncipherUndoesDecipher(x: Xts, table: seq<Cipher>, cs: seq<int>, k: nat, ks: seq<Byte>,
                                                  ks2: seq<Byte>, unit: nat, data: seq<Byte>)
    requires Lawful(x) && k <= |cs| && TotalSize(table, cs) <= |ks| && TotalSize(table, cs) <= |ks2|
    requires |data| % BYTES_PER_XTS_BLOCK == 0
    ensures Enciphered(x, table, cs, k, ks, ks2, unit, Deciphered(x, table, cs, k, ks, ks2, unit, data)) == data
  {
    if k > 0 {
      var inner := x.dec(cs[k - 1], Slice(table, cs, k - 1, ks), Slice(table, cs, k - 1, ks2), unit, data);
      EncipherUndoesDecipher(x, table, cs, k - 1, ks, ks2, unit, inner);
    }
  }

  // -------------------------------------------------------------------------
  // Key initialisation
  // -------------------------------------------------------------------------

  const ERR_SUCCESS := 0
  const ERR_CIPHER_INIT_FAILURE := 17
  const ERR_CIPHER_INIT_WEAK_KEY := 18

  function KeySize(table: seq<Cipher>, id: int): nat {
    Find(table, id).keySize
  }

  /** Where the k-th cipher's key starts in the concatenated keys. */
  function KeyOffset(table: seq<Cipher>, cs: seq<int>, k: nat): nat
    requires k <= |cs|
  {
    if k == 0 then 0 else KeyOffset(table, cs, k - 1) + KeySize(table, cs[k - 1])
  }

  lemma {:induction false} KeysInside(table: seq<Cipher>, cs: seq<int>, k: nat, n: nat)
    requires k < n <= |cs|
    ensures KeyOffset(table, cs, k) + KeySize(table, cs[k]) <= KeyOffset(table, cs, n)
  {
    if k + 1 < n {
      KeysInside(table, cs, k, n - 1);
    }
  }

  /** The schedule the k-th cipher gets from its own part of the concatenated keys. */
  function OwnSchedule(expand: KeyExpansion, table: seq<Cipher>, cs: seq<int>, k: nat, key: seq<Byte>): Schedule
    requires k < |cs| && KeyOffset(table, cs, |cs|) <= |key|
  {
    KeysInside(table, cs, k, |cs|);
    expand(cs[k], key[KeyOffset(table, cs, k)..KeyOffset(table, cs, k) + KeySize(table, cs[k])])
  }

  /** The first k ciphers have all been initialised, each into its own part of the schedule buffer. */
  ghost predicate LaidOut(expand: KeyExpansion, table: seq<Cipher>, cs: seq<int>, k: nat, key: seq<Byte>, ks: seq<Byte>)
    requires k <= |cs| && KeyOffset(table, cs, |cs|) <= |key| && TotalSize(table, cs) <= |ks|
  {
    forall j | 0 <= j < k :: OwnSchedule(expand, table, cs, j, key) != Failed
                             && Slice(table, cs, j, ks) == OwnSchedule(expand, table, cs, j, key).bytes
  }

  ghost predicate AnyFailed(expand: KeyExpansion, table: seq<Cipher>, cs: seq<int>, key: seq<Byte>)
    requires KeyOffset(table, cs, |cs|) <= |key|
  {
    exists k | 0 <= k < |cs| :: OwnSchedule(expand, table, cs, k, key) == Failed
  }

  ghost predicate AnyWeak(expand: KeyExpansion, table: seq<Cipher>, cs: seq<int>, k: nat, key: seq<Byte>)
    requires k <= |cs| && KeyOffset(table, cs, |cs|) <= |key|
  {
    exists j | 0 <= j < k :: OwnSchedule(expand, table, cs, j, key).Weak?
  }

  lemma AnyWeakStep(expand: KeyExpansion, table: seq<Cipher>, cs: seq<int>, k: nat, key: seq<Byte>)
    requires k < |cs| && KeyOffset(table, cs, |cs|) <= |key|
    ensures AnyWeak(expand, table, cs, k + 1, key) <==>
            AnyWeak(expand, table, cs, k, key) || OwnSchedule(expand, table, cs, k, key).Weak?
  {
  }

  /** Storing bytes leaves everything in front of them and behind them. */
  lemma AroundSplice(s: seq<Byte>, at: nat, bytes: seq<Byte>)
    requires at + |bytes| <= |s|
    ensures Spliced(s, at, bytes)[at..at + |bytes|] == bytes
    ensures forall lo, hi | 0 <= lo <= hi <= at :: Spliced(s, at, bytes)[lo..hi] == s[lo..hi]
    ensures forall lo | at + |bytes| <= lo <= |s| :: Spliced(s, at, bytes)[lo..] == s[lo..]
  {
  }

  /** Writing the k-th schedule at its offset keeps the earlier ones in place. */
  lemma LaidOutStep(expand: KeyExpansion, table: seq<Cipher>, cs: seq<int>, k: nat, key: seq<Byte>, ks: seq<Byte>)
    requires k < |cs| && KeyOffset(table, cs, |cs|) <= |key| && TotalSize(table, cs) <= |ks|
    requires Fills(expand, table) && LaidOut(expand, table, cs, k, key, ks)
    requires OwnSchedule(expand, table, cs, k, key) != Failed
    ensures Offset(table, cs, k) + |OwnSchedule(expand, table, cs, k, key).bytes| <= TotalSize(table, cs)
    ensures LaidOut(expand, table, cs, k + 1, key,
                    Spliced(ks, Offset(table, cs, k), OwnSchedule(expand, table, cs, k, key).bytes))
  {
    SlicesDisjoint(table, cs, k, |cs|);
    KeysInside(table, cs, k, |cs|);
    var part := key[KeyOffset(table, cs, k)..KeyOffset(table, cs, k) + KeySize(table, cs[k])];
    assert OwnSchedule(expand, table, cs, k, key) == expand(cs[k], part);
    var ks' := Spliced(ks, Offset(table, cs, k), OwnSchedule(expand, table, cs, k, key).bytes);
    AroundSplice(ks, Offset(table, cs, k), OwnSchedule(expand, table, cs, k, key).bytes);
    assert Slice(table, cs, k, ks') == OwnSchedule(expand, table, cs, k, key).bytes;
    forall j | 0 <= j < k
      ensures Slice(table, cs, j, ks') == Slice(table, cs, j, ks)
    {
      SlicesDisjoint(table, cs, j, k);
    }
  }

  method CipherGetKeySize(table: seq<Cipher>, id: int) returns (n: nat)
    requires Ended(table)
    ensures n == KeySize(table, id)
  {
    var c := CipherGet(table, id);
    n := c.keySize;
  }

  /** Initialises the k-th cipher from its own part of the concatenated keys. */
  method CipherInit(expand: KeyExpansion, table: seq<Cipher>, c: int, key: seq<Byte>, keyPos: nat, ghost cs: seq<int>,
                    ghost k: nat)
    returns (schedule: Schedule)
    requires Ended(table) && k < |cs| && KeyOffset(table, cs, |cs|) <= |key|
    requires c == cs[k] && keyPos == KeyOffset(table, cs, k)
    ensures schedule == OwnSchedule(expand, table, cs, k, key)
  {
    KeysInside(table, cs, k, |cs|);
    var n := CipherGetKeySize(table, c);
    schedule := expand(c, key[keyPos..keyPos + n]);
  }

  method EAInit(expand: KeyExpansion, table: seq<Cipher>, algorithms: seq<seq<int>>, ea: nat, key: seq<Byte>,
                ks: array<Byte>) returns (retVal: int)
    requires Ended(table) && Fills(expand, table)
    requires ea < |algorithms| && WellFormed(algorithms[ea])
    requires KeyOffset(table, Cascade(algorithms[ea]), |Cascade(algorithms[ea])|) <= |key|
    requires TotalSize(table, Cascade(algorithms[ea])) <= ks.Length
    modifies ks
    ensures var cs := Cascade(algorithms[ea]);
            retVal == (if ea == 0 || AnyFailed(expand, table, cs, key) then 17
                       else if AnyWeak(expand, table, cs, |cs|, key) then 18
                       else 0)
    ensures retVal != 17 ==>
              LaidOut(expand, table, Cascade(algorithms[ea]), |Cascade(algorithms[ea])|, key, ks[..])
    ensures ks[TotalSize(table, Cascade(algorithms[ea]))..] == old(ks[TotalSize(table, Cascade(algorithms[ea]))..])
  {
    hide Cascade, WellFormed, IsNext, OwnSchedule, Spliced, Fills, Slice;
    retVal := ERR_SUCCESS;
    if ea == 0 {
      return ERR_CIPHER_INIT_FAILURE;
    }
    var row := algorithms[ea];
    ghost var cs, k := Cascade(row), 0;
    ghost var total := TotalSize(table, cs);
    var keyPos, ksPos := 0, 0;
    var c := EAGetFirstCipher(row);
    while c != 0
      invariant 0 <= k <= |cs| && c == At(cs, k)
      invariant keyPos == KeyOffset(table, cs, k) && ksPos == Offset(table, cs, k)
      invariant LaidOut(expand, table, cs, k, key, ks[..])
      invariant retVal == if AnyWeak(expand, table, cs, k, key) then ERR_CIPHER_INIT_WEAK_KEY else ERR_SUCCESS
      invariant ks[total..] == old(ks[total..])
      decreases |cs| - k
    {
      var schedule := CipherInit(expand, table, c, key, keyPos, cs, k);
      AnyWeakStep(expand, table, cs, k, key);
      if schedule == Failed {
        return ERR_CIPHER_INIT_FAILURE;
      }
      if schedule.Weak? {
        retVal := ERR_CIPHER_INIT_WEAK_KEY;
      }
      LaidOutStep(expand, table, cs, k, key, ks[..]);
      AroundSplice(ks[..], ksPos, schedule.bytes);
      CopyInto(ks, ksPos, schedule.bytes);
      var keySize := CipherGetKeySize(table, c);
      var ksSize := CipherGetKeyScheduleSize(table, c);
      keyPos, ksPos := keyPos + keySize, ksPos + ksSize;
      c := EAGetNextCipher(row, c);
      NextIs(cs, k, c);
      k := k + 1;
    }
  }

  /**
   * Schedule buffers that agree in the slices of a cascade's own ciphers make the same cascade, whatever else
   * they hold.
   */
  lemma {:induction false} SameKeysSameCascade(x: Xts, table: seq<Cipher>, cs: seq<int>, k: nat,
                                               ks: seq<Byte>, ks2: seq<Byte>, js: seq<Byte>, js2: seq<Byte>,
                                               unit: nat, data: seq<Byte>)
    requires k <= |cs| && TotalSize(table, cs) <= |ks| && TotalSize(table, cs) <= |ks2|
    requires TotalSize(table, cs) <= |js| && TotalSize(table, cs) <= |js2|
    requires forall i :: 0 <= i < |cs| ==> Slice(table, cs, i, ks) == Slice(table, cs, i, js)
    requires forall i :: 0 <= i < |cs| ==> Slice(table, cs, i, ks2) == Slice(table, cs, i, js2)
    ensures Enciphered(x, table, cs, k, ks, ks2, unit, data) == Enciphered(x, table, cs, k, js, js2, unit, data)
    ensures Deciphered(x, table, cs, k, ks, ks2, unit, data) == Deciphered(x, table, cs, k, js, js2, unit, data)
  {
    if k > 0 {
      SameKeysSameCascade(x, table, cs, k - 1, ks, ks2, js, js2, unit, data);
      SameKeysSameCascade(x, table, cs, k - 1, ks, ks2, js, js2, unit,
                          x.dec(cs[k - 1], Slice(table, cs, k - 1, ks), Slice(table, cs, k - 1, ks2), unit, data));
    }
  }

  /**
   * Two records initialised from the same keys undo each other's cascade, whatever else their schedule
   * buffers hold.
   */
  lemma SameKeysDecrypt(x: Xts, expand: KeyExpansion, table: seq<Cipher>, cs: seq<int>, key: seq<Byte>, key2: seq<Byte>,
                        ks: seq<Byte>, ks2: seq<Byte>, js: seq<Byte>, js2: seq<Byte>, unit: nat, data: seq<Byte>)
    requires Lawful(x) && |data| % BYTES_PER_XTS_BLOCK == 0
    requires KeyOffset(table, cs, |cs|) <= |key| && KeyOffset(table, cs, |cs|) <= |key2|
    requires TotalSize(table, cs) <= |ks| && TotalSize(table, cs) <= |ks2|
    requires TotalSize(table, cs) <= |js| && TotalSize(table, cs) <= |js2|
    requires LaidOut(expand, table, cs, |cs|, key, ks) && LaidOut(expand, table, cs, |cs|, key, js)
    requires LaidOut(expand, table, cs, |cs|, key2, ks2) && LaidOut(expand, table, cs, |cs|, key2, js2)
    ensures Deciphered(x, table, cs, |cs|, js, js2, unit, Enciphered(x, table, cs, |cs|, ks, ks2, unit, data)) == data
  {
    SameKeysSameCascade(x, table, cs, |cs|, ks, ks2, js, js2, unit, data);
    DecipherUndoesEncipher(x, table, cs, |cs|, js, js2, unit, data);
  }

  // -------------------------------------------------------------------------
  // What goes into a cascade, cipher by cipher
  // -------------------------------------------------------------------------

  /** Keys laid end to end. */
  function Joined(keys: seq<seq<Byte>>): seq<Byte> {
    if keys == [] then [] else Joined(keys[..|keys| - 1]) + keys[|keys| - 1]
  }

  /** One key for each cipher of the cascade, of that cipher's key size. */
  predicate OneForEach(table: seq<Cipher>, cs: seq<int>, keys: seq<seq<Byte>>) {
    |keys| == |cs| && forall k | 0 <= k < |cs| :: |keys[k]| == KeySize(table, cs[k])
  }

  lemma {:induction false} KeysJoined(table: seq<Cipher>, cs: seq<int>, keys: seq<seq<Byte>>, k: nat)
    requires OneForEach(table, cs, keys) && k <= |cs|
    ensures |Joined(keys[..k])| == KeyOffset(table, cs, k)
  {
    if k > 0 {
      assert keys[..k][..k - 1] == keys[..k - 1];
      KeysJoined(table, cs, keys, k - 1);
    }
  }

  lemma {:induction false} JoinedFront(keys: seq<seq<Byte>>, k: nat)
    requires k <= |keys|
    ensures Joined(keys[..k]) <= Joined(keys)
  {
    if k < |keys| {
      JoinedFront(keys[..|keys| - 1], k);
      assert keys[..|keys| - 1][..k] == keys[..k];
    } else {
      assert keys[..k] == keys;
    }
  }

  /** Every cipher is keyed with the key given for it. */
  lemma OwnKey(expand: KeyExpansion, table: seq<Cipher>, cs: seq<int>, keys: seq<seq<Byte>>, k: nat)
    requires OneForEach(table, cs, keys) && k < |cs|
    ensures KeyOffset(table, cs, |cs|) == |Joined(keys)|
    ensures OwnSchedule(expand, table, cs, k, Joined(keys)) == expand(cs[k], keys[k])
  {
    KeysJoined(table, cs, keys, |cs|);
    assert keys[..|cs|] == keys;
    KeysJoined(table, cs, keys, k);
    JoinedFront(keys, k + 1);
    var all, from := Joined(keys), KeyOffset(table, cs, k);
    assert keys[..k + 1][..k] == keys[..k] && keys[..k + 1][k] == keys[k];
    assert Joined(keys[..k + 1]) == Joined(keys[..k]) + keys[k];
    assert all[from..from + |keys[k]|] == Joined(keys[..k + 1])[from..] == keys[k];
  }

  /** The k-th part of the schedule buffer is the k-th cipher's schedule for the k-th key. */
  predicate FromItsOwnKey(expand: KeyExpansion, table: seq<Cipher>, cs: seq<int>, keys: seq<seq<Byte>>, ks: seq<Byte>,
                          k: nat)
    requires k < |cs| == |keys| && TotalSize(table, cs) <= |ks|
  {
    expand(cs[k], keys[k]) != Failed && Slice(table, cs, k, ks) == expand(cs[k], keys[k]).bytes
  }

  /**
   * For keys given one for each cipher: initialisation fails, or reports a weak key, exactly when that of
   * some cipher with its own key does, and else every cipher has its schedule for its own key in place.
   */
  lemma EachFromItsOwnKey(expand: KeyExpansion, table: seq<Cipher>, cs: seq<int>, keys: seq<seq<Byte>>, ks: seq<Byte>)
    requires OneForEach(table, cs, keys) && TotalSize(table, cs) <= |ks|
    ensures KeyOffset(table, cs, |cs|) == |Joined(keys)|
    ensures AnyFailed(expand, table, cs, Joined(keys))
            <==> exists k | 0 <= k < |cs| :: expand(cs[k], keys[k]) == Failed
    ensures AnyWeak(expand, table, cs, |cs|, Joined(keys))
            <==> exists k | 0 <= k < |cs| :: expand(cs[k], keys[k]).Weak?
    ensures LaidOut(expand, table, cs, |cs|, Joined(keys), ks)
            <==> forall k | 0 <= k < |cs| :: FromItsOwnKey(expand, table, cs, keys, ks, k)
  {
    hide OwnSchedule, Slice, KeyOffset, Offset, Joined;
    AllKeysJoined(table, cs, keys);
    forall k | 0 <= k < |cs|
      ensures OwnSchedule(expand, table, cs, k, Joined(keys)) == expand(cs[k], keys[k])
      ensures FromItsOwnKey(expand, table, cs, keys, ks, k)
              <==> OwnSchedule(expand, table, cs, k, Joined(keys)) != Failed
                   && Slice(table, cs, k, ks) == OwnSchedule(expand, table, cs, k, Joined(keys)).bytes
    {
      OwnKey(expand, table, cs, keys, k);
    }
    if LaidOut(expand, table, cs, |cs|, Joined(keys), ks) {
      forall k | 0 <= k < |cs|
        ensures FromItsOwnKey(expand, table, cs, keys, ks, k)
      {
        assert OwnSchedule(expand, table, cs, k, Joined(keys)) != Failed;
      }
    }
  }

  lemma AllKeysJoined(table: seq<Cipher>, cs: seq<int>, keys: seq<seq<Byte>>)
    requires OneForEach(table, cs, keys)
    ensures KeyOffset(table, cs, |cs|) == |Joined(keys)|
  {
    KeysJoined(table, cs, keys, |cs|);
    assert keys[..|cs|] == keys;
  }

  /** The data before the first pass and after each: pass k uses cipher k with its own two schedules. */
  ghost predicate Stages(x: Xts, table: seq<Cipher>, cs: seq<int>, ks: seq<Byte>, ks2: seq<Byte>, unit: nat,
                         stages: seq<seq<Byte>>)
    requires TotalSize(table, cs) <= |ks| && TotalSize(table, cs) <= |ks2|
  {
    |stages| == |cs| + 1 &&
    forall k | 0 <= k < |cs| ::
      stages[k + 1] == x.enc(cs[k], Slice(table, cs, k, ks), Slice(table, cs, k, ks2), unit, stages[k])
  }

  /** The cascade is its passes one after the other. */
  lemma {:induction false} EncipheredInStages(x: Xts, table: seq<Cipher>, cs: seq<int>, k: nat, ks: seq<Byte>,
                                              ks2: seq<Byte>, unit: nat, stages: seq<seq<Byte>>)
    requires TotalSize(table, cs) <= |ks| && TotalSize(table, cs) <= |ks2| && k <= |cs|
    requires Stages(x, table, cs, ks, ks2, unit, stages)
    ensures stages[k] == Enciphered(x, table, cs, k, ks, ks2, unit, stages[0])
  {
    if k > 0 {
      EncipheredInStages(x, table, cs, k - 1, ks, ks2, unit, stages);
      assert stages[k - 1 + 1] == stages[k];
    }
  }

  // -------------------------------------------------------------------------
  // The buffer loops
  // -------------------------------------------------------------------------

  class CryptoInfo {
    var ea: nat
    var mode: int
    const ks: array<Byte>
    const ks2: array<Byte>

    constructor (ea: nat, mode: int, maxExpandedKey: nat)
      ensures this.ea == ea && this.mode == mode
      ensures fresh(ks) && fresh(ks2) && ks != ks2 && ks.Length == ks2.Length == maxExpandedKey
    {
      this.ea, this.mode := ea, mode;
      this.ks := new Byte[maxExpandedKey](_ => 0);
      this.ks2 := new Byte[maxExpandedKey](_ => 0);
    }

    /** The algorithm's row is well formed, and its schedules fit both buffers. */
    ghost predicate Valid(table: seq<Cipher>, algorithms: seq<seq<int>>)
      reads this
    {
      && Ended(table) && ea < |algorithms| && WellFormed(algorithms[ea])
      && TotalSize(table, Cascade(algorithms[ea])) <= ks.Length
      && TotalSize(table, Cascade(algorithms[ea])) <= ks2.Length
    }
  }

  /** data after the whole cascade of ci. */
  ghost function Encrypted(x: Xts, table: seq<Cipher>, algorithms: seq<seq<int>>, ci: CryptoInfo, unit: nat,
                           data: seq<Byte>): seq<Byte>
    requires ci.Valid(table, algorithms)
    reads ci, ci.ks, ci.ks2
  {
    var cs := Cascade(algorithms[ci.ea]);
    Enciphered(x, table, cs, |cs|, ci.ks[..], ci.ks2[..], unit, data)
  }

  ghost function Decrypted(x: Xts, table: seq<Cipher>, algorithms: seq<seq<int>>, ci: CryptoInfo, unit: nat,
                           data: seq<Byte>): seq<Byte>
    requires ci.Valid(table, algorithms)
    reads ci, ci.ks, ci.ks2
  {
    var cs := Cascade(algorithms[ci.ea]);
    Deciphered(x, table, cs, |cs|, ci.ks[..], ci.ks2[..], unit, data)
  }

  /** One XTS pass in place over the first len bytes. */
  method EncryptBufferXTS(x: Xts, buf: array<Byte>, len: nat, unit: nat, k1: seq<Byte>, k2: seq<Byte>, cipher: int)
    requires KeepsLength(x) && len <= buf.Length
    modifies buf
    ensures buf[..len] == x.enc(cipher, k1, k2, unit, old(buf[..len]))
    ensures buf[len..] == old(buf[len..])
  {
    var r := x.enc(cipher, k1, k2, unit, buf[..len]);
    CopyInto(buf, 0, r);
  }

  method DecryptBufferXTS(x: Xts, buf: array<Byte>, len: nat, unit: nat, k1: seq<Byte>, k2: seq<Byte>, cipher: int)
    requires KeepsLength(x) && len <= buf.Length
    modifies buf
    ensures buf[..len] == x.dec(cipher, k1, k2, unit, old(buf[..len]))
    ensures buf[len..] == old(buf[len..])
  {
    var r := x.dec(cipher, k1, k2, unit, buf[..len]);
    CopyInto(buf, 0, r);
  }

  /** Data units count from 0; ok is false where the source throws a fatal exception. */
  method EncryptBuffer(x: Xts, table: seq<Cipher>, algorithms: seq<seq<int>>, buf: array<Byte>, len: nat,
                       ci: CryptoInfo) returns (ok: bool)
    requires KeepsLength(x) && ci.Valid(table, algorithms) && buf != ci.ks && buf != ci.ks2
    requires len <= buf.Length
    modifies buf
    ensures ok == (ci.mode == 1)
    ensures ok ==> buf[..len] == Encrypted(x, table, algorithms, ci, 0, old(buf[..len]))
    ensures !ok ==> buf[..len] == old(buf[..len])
    ensures buf[len..] == old(buf[len..])
  {
    hide Slice, Offset, Enciphered, Cascade, WellFormed, KeepsLength, ScheduleSize, IsNext;
    if ci.mode != XTS {
      return false;
    }
    var row := algorithms[ci.ea];
    ghost var cs, k, data := Cascade(row), 0, buf[..len];
    var k1, k2 := ci.ks[..], ci.ks2[..];
    NoCipher(x, table, cs, k1, k2, 0, data);
    var ks, ks2 := 0, 0;
    var cipher := EAGetFirstCipher(row);
    while cipher != 0
      invariant 0 <= k <= |cs| && cipher == At(cs, k)
      invariant ks == ks2 == Offset(table, cs, k)
      invariant buf[..len] == Enciphered(x, table, cs, k, k1, k2, 0, data)
      invariant buf[len..] == old(buf[len..])
      decreases |cs| - k
    {
      CursorStep(table, cs, k, k1);
      CursorStep(table, cs, k, k2);
      EncipherStep(x, table, cs, k, k1, k2, 0, data);
      var n := CipherGetKeyScheduleSize(table, cipher);
      var schedule, tweak := k1[ks..ks + n], k2[ks2..ks2 + n];
      EncryptBufferXTS(x, buf, len, 0, schedule, tweak, cipher);
      ks, ks2 := ks + n, ks2 + n;
      cipher := EAGetNextCipher(row, cipher);
      NextIs(cs, k, cipher);
      k := k + 1;
    }
    return true;
  }

  /** Data units count from unitNo. */
  method EncryptDataUnitsCurrentThread(x: Xts, table: seq<Cipher>, algorithms: seq<seq<int>>, buf: array<Byte>,
                                       unitNo: nat, nbrUnits: nat, ci: CryptoInfo) returns (ok: bool)
    requires KeepsLength(x) && ci.Valid(table, algorithms) && buf != ci.ks && buf != ci.ks2
    requires nbrUnits * 512 <= buf.Length
    modifies buf
    ensures ok == (ci.mode == 1)
    ensures ok ==>
              buf[..nbrUnits * 512]
              == Encrypted(x, table, algorithms, ci, unitNo, old(buf[..nbrUnits * 512]))
    ensures !ok ==> buf[..nbrUnits * 512] == old(buf[..nbrUnits * 512])
    ensures buf[nbrUnits * 512..] == old(buf[nbrUnits * 512..])
  {
    hide Slice, Offset, Enciphered, Cascade, WellFormed, KeepsLength, ScheduleSize, IsNext;
    if ci.mode != XTS {
      return false;
    }
    var len := nbrUnits * ENCRYPTION_DATA_UNIT_SIZE;
    var row := algorithms[ci.ea];
    ghost var cs, k, data := Cascade(row), 0, buf[..len];
    var k1, k2 := ci.ks[..], ci.ks2[..];
    NoCipher(x, table, cs, k1, k2, unitNo, data);
    var ks, ks2 := 0, 0;
    var cipher := EAGetFirstCipher(row);
    while cipher != 0
      invariant 0 <= k <= |cs| && cipher == At(cs, k)
      invariant ks == ks2 == Offset(table, cs, k)
      invariant buf[..len] == Enciphered(x, table, cs, k, k1, k2, unitNo, data)
      invariant buf[len..] == old(buf[len..])
      decreases |cs| - k
    {
      CursorStep(table, cs, k, k1);
      CursorStep(table, cs, k, k2);
      EncipherStep(x, table, cs, k, k1, k2, unitNo, data);
      var n := CipherGetKeyScheduleSize(table, cipher);
      var schedule, tweak := k1[ks..ks + n], k2[ks2..ks2 + n];
      EncryptBufferXTS(x, buf, len, unitNo, schedule, tweak, cipher);
      ks, ks2 := ks + n, ks2 + n;
      cipher := EAGetNextCipher(row, cipher);
      NextIs(cs, k, cipher);
      k := k + 1;
    }
    return true;
  }

  /** Walks the row and both schedule cursors backward; the cursors end where encryption starts. */
  method DecryptBuffer(x: Xts, table: seq<Cipher>, algorithms: seq<seq<int>>, buf: array<Byte>, len: nat,
                       ci: CryptoInfo) returns (ok: bool)
    requires KeepsLength(x) && ci.Valid(table, algorithms) && Cascade(algorithms[ci.ea]) != [] && buf != ci.ks
    requires buf != ci.ks2
    requires len <= buf.Length
    modifies buf
    ensures ok == (ci.mode == 1)
    ensures ok ==> buf[..len] == Decrypted(x, table, algorithms, ci, 0, old(buf[..len]))
    ensures !ok ==> buf[..len] == old(buf[..len])
    ensures buf[len..] == old(buf[len..])
  {
    hide Slice, Offset, Deciphered, Cascade, WellFormed, KeepsLength, ScheduleSize, IsPrevious;
    if ci.mode != XTS {
      return false;
    }
    var row := algorithms[ci.ea];
    ghost var cs, data := Cascade(row), buf[..len];
    ghost var k := |cs|;
    var k1, k2 := ci.ks[..], ci.ks2[..];
    var ks := EAGetKeyScheduleSize(table, row);
    var ks2 := EAGetKeyScheduleSize(table, row);
    var cipher := EAGetLastCipher(row);
    ghost var goal := Deciphered(x, table, cs, |cs|, k1, k2, 0, data);
    while cipher != 0
      invariant 0 <= k <= |cs| && cipher == At(cs, k - 1)
      invariant ks == ks2 == Offset(table, cs, k)
      invariant buf[len..] == old(buf[len..])
      invariant Deciphered(x, table, cs, k, k1, k2, 0, buf[..len]) == goal
      decreases k
    {
      var n := CipherGetKeyScheduleSize(table, cipher);
      CursorStep(table, cs, k - 1, k1);
      CursorStep(table, cs, k - 1, k2);
      ks, ks2 := ks - n, ks2 - n;
      var schedule, tweak := k1[ks..ks + n], k2[ks2..ks2 + n];
      ghost var was := buf[..len];
      DecipherStep(x, table, cs, k, k1, k2, 0, was);
      DecryptBufferXTS(x, buf, len, 0, schedule, tweak, cipher);
      k := k - 1;
      cipher := EAGetPreviousCipher(row, cipher);
      PreviousIs(cs, k, cipher);
    }
    NoCipher(x, table, cs, k1, k2, 0, buf[..len]);
    assert ks == ks2 == 0;
    return true;
  }

  /** The same walk with data units counted from unitNo. */
  method DecryptDataUnitsCurrentThread(x: Xts, table: seq<Cipher>, algorithms: seq<seq<int>>, buf: array<Byte>,
                                       unitNo: nat, nbrUnits: nat, ci: CryptoInfo) returns (ok: bool)
    requires KeepsLength(x) && ci.Valid(table, algorithms) && Cascade(algorithms[ci.ea]) != [] && buf != ci.ks
    requires buf != ci.ks2
    requires nbrUnits * 512 <= buf.Length
    modifies buf
    ensures ok == (ci.mode == 1)
    ensures ok ==>
              buf[..nbrUnits * 512]
              == Decrypted(x, table, algorithms, ci, unitNo, old(buf[..nbrUnits * 512]))
    ensures !ok ==> buf[..nbrUnits * 512] == old(buf[..nbrUnits * 512])
    ensures buf[nbrUnits * 512..] == old(buf[nbrUnits * 512..])
  {
    hide Slice, Offset, Deciphered, Cascade, WellFormed, KeepsLength, ScheduleSize, IsPrevious;
    if ci.mode != XTS {
      return false;
    }
    var len := nbrUnits * ENCRYPTION_DATA_UNIT_SIZE;
    var row := algorithms[ci.ea];
    ghost var cs, data := Cascade(row), buf[..len];
    ghost var k := |cs|;
    var k1, k2 := ci.ks[..], ci.ks2[..];
    var ks := EAGetKeyScheduleSize(table, row);
    var ks2 := EAGetKeyScheduleSize(table, row);
    var cipher := EAGetLastCipher(row);
    ghost var goal := Deciphered(x, table, cs, |cs|, k1, k2, unitNo, data);
    while cipher != 0
      invariant 0 <= k <= |cs| && cipher == At(cs, k - 1)
      invariant ks == ks2 == Offset(table, cs, k)
      invariant buf[len..] == old(buf[len..])
      invariant Deciphered(x, table, cs, k, k1, k2, unitNo, buf[..len]) == goal
      decreases k
    {
      var n := CipherGetKeyScheduleSize(table, cipher);
      CursorStep(table, cs, k - 1, k1);
      CursorStep(table, cs, k - 1, k2);
      ks, ks2 := ks - n, ks2 - n;
      var schedule, tweak := k1[ks..ks + n], k2[ks2..ks2 + n];
      ghost var was := buf[..len];
      DecipherStep(x, table, cs, k, k1, k2, unitNo, was);
      DecryptBufferXTS(x, buf, len, unitNo, schedule, tweak, cipher);
      k := k - 1;
      cipher := EAGetPreviousCipher(row, cipher);
      PreviousIs(cs, k, cipher);
    }
    NoCipher(x, table, cs, k1, k2, unitNo, buf[..len]);
    assert ks == ks2 == 0;
    return true;
  }

  /**
   * Decrypting under the same crypto information gives back every encrypted buffer of whole blocks, and the
   * other way round.
   */
  lemma DecryptedEncrypted(x: Xts, table: seq<Cipher>, algorithms: seq<seq<int>>, ci: CryptoInfo, unit: nat,
                           data: seq<Byte>)
    requires Lawful(x) && ci.Valid(table, algorithms) && |data| % BYTES_PER_XTS_BLOCK == 0
    ensures Decrypted(x, table, algorithms, ci, unit, Encrypted(x, table, algorithms, ci, unit, data)) == data
    ensures Encrypted(x, table, algorithms, ci, unit, Decrypted(x, table, algorithms, ci, unit, data)) == data
  {
    var cs := Cascade(algorithms[ci.ea]);
    DecipherUndoesEncipher(x, table, cs, |cs|, ci.ks[..], ci.ks2[..], unit, data);
    EncipherUndoesDecipher(x, table, cs, |cs|, ci.ks[..], ci.ks2[..], unit, data);
  }
}
