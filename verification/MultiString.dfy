/** Lists of strings in one buffer: each string ends with a zero byte, the list with an empty string. */
module MultiString {
  import opened Base

  type Text = seq<Byte>

  // -------------------------------------------------------------------------
  // Strings
  // -------------------------------------------------------------------------

  /** The position of the first zero, or the length when there is none. */
  function StrLen(b: seq<Byte>): (n: nat)
    ensures n <= |b| && 0 !in b[..n] && (n < |b| ==> b[n] == 0)
  {
    if b == [] || b[0] == 0 then 0
    else
      var n := 1 + StrLen(b[1..]);
      assert b[..n] == [b[0]] + b[1..][..n - 1];
      n
  }

  function Lower(c: Byte): Byte {
    if 65 <= c <= 90 then c + 32 else c
  }

  /** Equal but for the case of ASCII letters. */
  predicate SameText(a: Text, b: Text) {
    |a| == |b| && forall i | 0 <= i < |a| :: Lower(a[i]) == Lower(b[i])
  }

  /** Letters are the same in both cases, and no other two bytes are. */
  lemma SameByteExactly(x: Byte, y: Byte)
    ensures SameText([x], [y])
            <==> x == y || (65 <= x <= 90 && y == x + 32) || (65 <= y <= 90 && x == y + 32)
  {
    hide Lower;
    LowerAlike(x, y);
    assert [x][0] == x && [y][0] == y;
    if SameText([x], [y]) {
      assert Lower([x][0]) == Lower([y][0]);
    }
  }

  lemma LowerAlike(x: Byte, y: Byte)
    ensures Lower(x) == Lower(y) <==> x == y || (65 <= x <= 90 && y == x + 32) || (65 <= y <= 90 && x == y + 32)
  {
  }

  lemma SameTextLength(a: Text, b: Text)
    requires SameText(a, b)
    ensures |a| == |b|
  {
  }

  /** A text without zeros, as a pointer to a string stands for it. */
  predicate IsText(t: Text) {
    0 !in t
  }

  // -------------------------------------------------------------------------
  // Lists of strings
  // -------------------------------------------------------------------------

  /** The non-empty strings in front of the first empty one, or of the end. */
  function Strings(b: seq<Byte>): (r: seq<Text>)
    ensures forall i | 0 <= i < |r| :: r[i] != [] && IsText(r[i])
    decreases |b|
  {
    var n := StrLen(b);
    if n == 0 then []
    else if n == |b| then [b]
    else [b[..n]] + Strings(b[n + 1..])
  }

  /** Walking the list meets an empty string before the end of the buffer. */
  predicate Ended(b: seq<Byte>)
    decreases |b|
  {
    var n := StrLen(b);
    n < |b| && (n == 0 || Ended(b[n + 1..]))
  }

  /** The buffer of a list: every string with its zero, then one more zero. */
  function Joined(list: seq<Text>): seq<Byte> {
    if list == [] then [0] else list[0] + [0] + Joined(list[1..])
  }

  predicate IsList(list: seq<Text>) {
    forall i | 0 <= i < |list| :: list[i] != [] && IsText(list[i])
  }

  lemma {:induction false} StrLenIs(t: Text, rest: seq<Byte>)
    requires IsText(t)
    ensures StrLen(t + [0] + rest) == |t|
  {
    var b := t + [0] + rest;
    if t != [] {
      assert b[1..] == t[1..] + [0] + rest;
      StrLenIs(t[1..], rest);
    }
  }

  lemma {:induction false} StringsOfJoined(list: seq<Text>, rest: seq<Byte>)
    requires IsList(list)
    ensures Strings(Joined(list) + rest) == list && Ended(Joined(list) + rest)
  {
    if list == [] {
      assert StrLen([0] + rest) == 0;
    } else {
      var b := Joined(list) + rest;
      var tail := Joined(list[1..]) + rest;
      assert b == list[0] + [0] + tail;
      StrLenIs(list[0], tail);
      assert b[..|list[0]|] == list[0] && b[|list[0]| + 1..] == tail;
      StringsOfJoined(list[1..], rest);
    }
  }

  lemma {:induction false} StrLenAtMost(b: seq<Byte>, k: nat)
    requires k < |b| && b[k] == 0
    ensures StrLen(b) <= k
  {
    if k > 0 {
      StrLenAtMost(b[1..], k - 1);
    }
  }

  /** Two zeros at the end of the buffer end every list in it. */
  lemma {:induction false} DoubleZeroEnds(b: seq<Byte>)
    requires |b| >= 2 && b[|b| - 1] == 0 && b[|b| - 2] == 0
    ensures Ended(b)
    decreases |b|
  {
    var n := StrLen(b);
    StrLenAtMost(b, |b| - 2);
    if n > 0 {
      var tail := b[n + 1..];
      if |tail| == 1 {
        assert StrLen(tail) == 0;
      } else {
        DoubleZeroEnds(tail);
      }
    }
  }

  // -------------------------------------------------------------------------
  // Comparing
  // -------------------------------------------------------------------------

  predicate SameList(a: seq<Text>, b: seq<Text>) {
    |a| == |b| && forall i | 0 <= i < |a| :: SameText(a[i], b[i])
  }

  lemma StringsFront(b: seq<Byte>)
    requires Ended(b)
    ensures StrLen(b) < |b|
    ensures StrLen(b) == 0 <==> Strings(b) == []
    ensures StrLen(b) > 0 ==> Ended(b[StrLen(b) + 1..]) && Strings(b) == [b[..StrLen(b)]] + Strings(b[StrLen(b) + 1..])
  {
  }

  lemma SameListFront(a: Text, moreA: seq<Text>, b: Text, moreB: seq<Text>)
    ensures SameList([a] + moreA, [b] + moreB) <==> SameText(a, b) && SameList(moreA, moreB)
  {
    var x, y := [a] + moreA, [b] + moreB;
    assert x[0] == a && y[0] == b;
    assert forall i | 0 <= i < |moreA| :: x[i + 1] == moreA[i];
    assert forall i | 0 <= i < |moreB| :: y[i + 1] == moreB[i];
  }

  /** What the lengths and texts at the front of two lists say about the lists. */
  lemma CompareFronts(p: seq<Byte>, q: seq<Byte>)
    requires Ended(p) && Ended(q)
    ensures StrLen(p) < |p| && StrLen(q) < |q|
    ensures StrLen(p) != StrLen(q) ==> !SameList(Strings(p), Strings(q))
    ensures StrLen(p) == StrLen(q) == 0 ==> SameList(Strings(p), Strings(q))
    ensures StrLen(p) == StrLen(q) > 0 ==>
              var n := StrLen(p);
              && Ended(p[n + 1..]) && Ended(q[n + 1..])
              && (SameList(Strings(p), Strings(q))
                  <==> SameText(p[..n], q[..n]) && SameList(Strings(p[n + 1..]), Strings(q[n + 1..])))
  {
    hide StrLen, Strings, Ended, SameText;
    StringsFront(p);
    StringsFront(q);
    var m, n := StrLen(p), StrLen(q);
    if m > 0 && n > 0 {
      if SameText(p[..m], q[..n]) {
        SameTextLength(p[..m], q[..n]);
      }
      SameListFront(p[..m], Strings(p[m + 1..]), q[..n], Strings(q[n + 1..]));
    }
  }

  /** None stands for a null pointer. */
  method CompareMultiString(str1: Option<seq<Byte>>, str2: Option<seq<Byte>>) returns (same: bool)
    requires (str1.Some? ==> Ended(str1.value)) && (str2.Some? ==> Ended(str2.value))
    ensures same <==> str1.Some? && str2.Some? && SameList(Strings(str1.value), Strings(str2.value))
  {
    hide StrLen, Strings, Ended, SameList;
    if str1 == None || str2 == None {
      return false;
    }
    var p, q := str1.value, str2.value;
    while true
      invariant Ended(p) && Ended(q)
      invariant SameList(Strings(p), Strings(q)) <==> SameList(Strings(str1.value), Strings(str2.value))
      decreases |p|
    {
      CompareFronts(p, q);
      var l1, l2 := StrLen(p), StrLen(q);
      if l1 == l2 {
        if l1 == 0 {
          break;
        }
        if SameText(p[..l1], q[..l2]) {
          p := p[l1 + 1..];
          q := q[l2 + 1..];
        } else {
          return false;
        }
      } else {
        return false;
      }
    }
    return true;
  }

  // -------------------------------------------------------------------------
  // Appending
  // -------------------------------------------------------------------------

  /** The bytes without the zeros at their end. */
  function Stripped(b: seq<Byte>): (r: seq<Byte>)
    ensures |r| <= |b| && r == b[..|r|]
    ensures r != [] ==> r[|r| - 1] != 0
    ensures forall i | |r| <= i < |b| :: b[i] == 0
  {
    if b != [] && b[|b| - 1] == 0 then Stripped(b[..|b| - 1]) else b
  }

  /** There is room for the strings so far, a zero, the input and two zeros, with one byte to spare. */
  predicate HasRoom(capacity: nat, content: seq<Byte>, input: Text) {
    capacity > |Stripped(content)| + 1 + (|input| + 1) + 1
  }

  /** There is room exactly when a byte stays free behind the strings so far, a zero, the input and two zeros. */
  lemma RoomExactly(capacity: nat, content: seq<Byte>, input: Text)
    ensures HasRoom(capacity, content, input) <==> |Stripped(content) + [0] + input + [0, 0]| + 1 <= capacity
  {
  }

  /** The content after appending. */
  function Appended(capacity: nat, content: seq<Byte>, input: Text): seq<Byte> {
    var kept := Stripped(content);
    if !HasRoom(capacity, content, input) then content
    else if kept == [] then input + [0, 0]
    else kept + [0] + input + [0, 0]
  }

  /** The index right behind the last byte that is not zero. */
  method EndOfStrings(mszDest: array<Byte>, dwDestSize: nat) returns (index: nat)
    requires dwDestSize <= mszDest.Length
    ensures index <= dwDestSize && mszDest[..index] == Stripped(mszDest[..dwDestSize])
  {
    index := dwDestSize;
    while index > 0 && mszDest[index - 1] == 0
      invariant index <= dwDestSize
      invariant Stripped(mszDest[..index]) == Stripped(mszDest[..dwDestSize])
    {
      assert mszDest[..index][..index - 1] == mszDest[..index - 1];
      index := index - 1;
    }
  }

  /** The size is changed in step with the content; the buffer behind it may be overwritten too. */
  method AppendToMultiString(mszDest: array<Byte>, dwDestSize: nat, input: Text) returns (size: nat)
    requires dwDestSize <= mszDest.Length && IsText(input)
    modifies mszDest
    ensures size <= mszDest.Length
    ensures mszDest[..size] == Appended(mszDest.Length, old(mszDest[..dwDestSize]), input)
    ensures !HasRoom(mszDest.Length, old(mszDest[..dwDestSize]), input) ==>
              size == dwDestSize && mszDest[..] == old(mszDest[..])
  {
    hide Stripped;
    var dwInputSize := |input| + 1;
    var index := EndOfStrings(mszDest, dwDestSize);
    ghost var kept := mszDest[..index];
    size := dwDestSize;
    if mszDest.Length > index + 1 + dwInputSize + 1 {
      if index == 0 {
        StringCopy(mszDest, 0, input, []);
        ZeroAt(mszDest, dwInputSize, [] + input + [0]);
        size := dwInputSize + 1;
        assert [] + input + [0] + [0] == input + [0, 0];
      } else {
        ZeroAt(mszDest, index, kept);
        StringCopy(mszDest, index + 1, input, kept + [0]);
        ZeroAt(mszDest, index + 1 + dwInputSize, kept + [0] + input + [0]);
        size := index + 1 + dwInputSize + 1;
        assert kept + [0] + input + [0] + [0] == kept + [0] + input + [0, 0];
      }
    }
  }

  /** Stores one zero behind what is already there. */
  method ZeroAt(a: array<Byte>, at: nat, ghost done: seq<Byte>)
    requires at < a.Length && a[..at] == done
    modifies a
    ensures a[..at + 1] == done + [0]
  {
    a[at] := 0;
    assert a[..at + 1] == a[..at] + [a[at]];
  }

  /** Copies a string with its terminating zero behind what is already there. */
  method StringCopy(a: array<Byte>, at: nat, text: Text, ghost done: seq<Byte>)
    requires at + |text| + 1 <= a.Length && a[..at] == done
    modifies a
    ensures a[..at + |text| + 1] == done + text + [0]
  {
    forall i | 0 <= i < |text| {
      a[at + i] := text[i];
    }
    assert a[..at + |text|] == a[..at] + a[at..at + |text|];
    ZeroAt(a, at + |text|, done + text);
  }

  /** Before its last zeros the content holds no empty string. */
  predicate Gapless(content: seq<Byte>) {
    NoGap(Stripped(content))
  }

  predicate NoGap(kept: seq<Byte>)
    decreases |kept|
  {
    kept == [] ||
    var n := StrLen(kept);
    n > 0 && (n == |kept| || NoGap(kept[n + 1..]))
  }

  lemma {:induction false} StrLenWithMore(b: seq<Byte>, more: seq<Byte>)
    requires StrLen(b) < |b|
    ensures StrLen(b + more) == StrLen(b)
  {
    if b[0] != 0 {
      assert (b + more)[1..] == b[1..] + more;
      StrLenWithMore(b[1..], more);
    }
  }

  lemma TheOnlyOne(kept: seq<Byte>, rest: seq<Byte>)
    requires StrLen(kept) == |kept|
    ensures var b := kept + [0] + rest;
            StrLen(b) == |kept| && b[..|kept|] == kept && b[|kept| + 1..] == rest
  {
    assert IsText(kept) by { assert kept[..|kept|] == kept; }
    StrLenIs(kept, rest);
  }

  lemma BehindTheFirst(kept: seq<Byte>, rest: seq<Byte>, n: nat)
    requires n < |kept| && kept[n] == 0 && kept[|kept| - 1] != 0
    ensures var b, tail := kept + [0] + rest, kept[n + 1..];
            b[..n] == kept[..n] && b[n + 1..] == tail + [0] + rest && tail != [] && tail[|tail| - 1] != 0
  {
  }

  /**
   * b reads as kept and rest behind a separator should: rest is seen without a gap in kept, and not seen
   * behind one.
   */
  ghost predicate SeenExactly(b: seq<Byte>, kept: seq<Byte>, rest: seq<Byte>) {
    && Strings(b) == Strings(kept) + (if NoGap(kept) then Strings(rest) else [])
    && (NoGap(kept) && Ended(rest) ==> Ended(b))
  }

  lemma BehindTheOnlyOne(kept: seq<Byte>, rest: seq<Byte>)
    requires kept != [] && StrLen(kept) == |kept|
    ensures SeenExactly(kept + [0] + rest, kept, rest)
  {
    hide StrLen, Strings, NoGap, Ended;
    TheOnlyOne(kept, rest);
    StringsUnfold(kept);
    StringsUnfold(kept + [0] + rest);
    NoGapUnfolds(kept);
    EndedUnfolds(kept + [0] + rest);
  }

  lemma BehindAGap(b: seq<Byte>, kept: seq<Byte>, rest: seq<Byte>)
    requires kept != [] && StrLen(kept) == StrLen(b) == 0
    ensures SeenExactly(b, kept, rest)
  {
    hide StrLen, Strings, NoGap, Ended;
    StringsUnfold(kept);
    StringsUnfold(b);
    NoGapUnfolds(kept);
  }

  lemma BehindMore(b: seq<Byte>, kept: seq<Byte>, rest: seq<Byte>, b': seq<Byte>, kept': seq<Byte>, first: Text)
    requires kept != [] && 0 < StrLen(kept) == StrLen(b) == |first| < |kept| && |first| < |b|
    requires kept[..|first|] == b[..|first|] == first && kept[|first| + 1..] == kept' && b[|first| + 1..] == b'
    requires SeenExactly(b', kept', rest)
    ensures SeenExactly(b, kept, rest)
  {
    hide StrLen, Strings, NoGap, Ended;
    StringsUnfold(kept);
    StringsUnfold(b);
    NoGapUnfolds(kept);
    EndedUnfolds(b);
    InFront(first, Strings(kept'), if NoGap(kept') then Strings(rest) else []);
  }

  lemma InFront(first: Text, list: seq<Text>, more: seq<Text>)
    ensures [first] + (list + more) == [first] + list + more
  {
  }

  /** Without a gap the strings behind a separator are appended; behind a gap they are not seen. */
  lemma {:induction false} StringsAfter(kept: seq<Byte>, rest: seq<Byte>)
    requires kept != [] && kept[|kept| - 1] != 0
    ensures NoGap(kept) ==> Strings(kept + [0] + rest) == Strings(kept) + Strings(rest)
    ensures !NoGap(kept) ==> Strings(kept + [0] + rest) == Strings(kept)
    ensures NoGap(kept) && Ended(rest) ==> Ended(kept + [0] + rest)
  {
    hide StrLen, Strings, NoGap, Ended;
    SeenBehind(kept, rest);
  }

  lemma {:induction false} SeenBehind(kept: seq<Byte>, rest: seq<Byte>)
    requires kept != [] && kept[|kept| - 1] != 0
    ensures SeenExactly(kept + [0] + rest, kept, rest)
    decreases |kept|
  {
    hide *;
    var n, b := StrLen(kept), kept + [0] + rest;
    if n == |kept| {
      BehindTheOnlyOne(kept, rest);
    } else {
      StrLenWithMore(kept, [0] + rest);
      assert b == kept + ([0] + rest);
      if n == 0 {
        BehindAGap(b, kept, rest);
      } else {
        var tail := kept[n + 1..];
        BehindTheFirst(kept, rest, n);
        SeenBehind(tail, rest);
        BehindMore(b, kept, rest, tail + [0] + rest, tail, kept[..n]);
      }
    }
  }

  lemma {:induction false} StringsUnfold(b: seq<Byte>)
    ensures Strings(b)
         == var n := StrLen(b); if n == 0 then [] else if n == |b| then [b] else [b[..n]] + Strings(b[n + 1..])
  {
    hide StrLen, IsText;
  }

  lemma {:induction false} NoGapUnfolds(b: seq<Byte>)
    requires b != []
    ensures NoGap(b) == var n := StrLen(b); n > 0 && (n == |b| || NoGap(b[n + 1..]))
  {
    hide StrLen;
  }

  lemma {:induction false} EndedUnfolds(b: seq<Byte>)
    ensures Ended(b) == var n := StrLen(b); n < |b| && (n == 0 || Ended(b[n + 1..]))
  {
    hide StrLen;
  }

  lemma {:induction false} TrailingZeroIgnored(b: seq<Byte>)
    ensures Strings(b + [0]) == Strings(b)
    decreases |b|
  {
    var n := StrLen(b);
    if n == |b| {
      assert IsText(b) by { assert b[..n] == b; }
      StrLenIs(b, []);
      assert b + [0] + [] == b + [0];
      assert (b + [0])[..n] == b && (b + [0])[n + 1..] == [];
    } else {
      StrLenWithMore(b, [0]);
      if n > 0 {
        assert (b + [0])[..n] == b[..n] && (b + [0])[n + 1..] == b[n + 1..] + [0];
        TrailingZeroIgnored(b[n + 1..]);
      }
    }
  }

  lemma {:induction false} StrippedStrings(b: seq<Byte>)
    ensures Strings(Stripped(b)) == Strings(b)
  {
    if b != [] && b[|b| - 1] == 0 {
      StrippedStrings(b[..|b| - 1]);
      TrailingZeroIgnored(b[..|b| - 1]);
      assert b == b[..|b| - 1] + [0];
    }
  }

  lemma InputStrings(input: Text)
    requires IsText(input)
    ensures Strings(input + [0, 0]) == (if input == [] then [] else [input]) && Ended(input + [0, 0])
  {
    assert input + [0, 0] == input + [0] + [0];
    StrLenIs(input, [0]);
    var b := input + [0, 0];
    assert b[..|input|] == input && b[|input| + 1..] == [0];
    assert StrLen([0]) == 0;
  }

  /** With room, a non-empty string is appended to the list exactly when the content has no gap; else the list stays. */
  lemma AppendExactly(capacity: nat, content: seq<Byte>, input: Text)
    requires IsText(input) && HasRoom(capacity, content, input)
    ensures Gapless(content) ==> Ended(Appended(capacity, content, input))
    ensures Gapless(content) || input == [] ==>
              Strings(Appended(capacity, content, input)) == Strings(content) + (if input == [] then [] else [input])
    ensures !Gapless(content) ==> Strings(Appended(capacity, content, input)) == Strings(content)
  {
    hide StrLen, Strings, Ended, NoGap, Stripped;
    var kept := Stripped(content);
    StrippedStrings(content);
    InputStrings(input);
    NothingKept();
    if kept != [] {
      StringsAfter(kept, input + [0, 0]);
      assert kept + [0] + (input + [0, 0]) == kept + [0] + input + [0, 0];
    }
  }

  /** A buffer with room, and a gap, in which an appended string is stored and never seen. */
  lemma InvisibleAppend() returns (capacity: nat, content: seq<Byte>, input: Text)
    ensures Ended(content) && IsText(input) && input != [] && HasRoom(capacity, content, input)
    ensures Appended(capacity, content, input) == [97, 0, 0, 98, 0, 99, 0, 0]
    ensures Strings(content) == Strings(Appended(capacity, content, input)) == [[97]]
  {
    hide *;
    capacity, content, input := 100, [97, 0, 0, 98, 0, 0], [99];
    KeptOfExample(content);
    GapInExample();
    ListOfExample(content);
    ShownByExample(capacity, content, input);
    AppendExactly(capacity, content, input);
  }

  lemma KeptOfExample(content: seq<Byte>)
    requires content == [97, 0, 0, 98, 0, 0]
    ensures Stripped(content) == [97, 0, 0, 98]
  {
    var kept: seq<Byte> := [97, 0, 0, 98];
    assert content[..5] == kept + [0] && (kept + [0])[..4] == kept;
    assert Stripped(kept + [0]) == Stripped(kept);
  }

  lemma GapInExample()
    ensures !NoGap([97, 0, 0, 98])
  {
    var kept: seq<Byte> := [97, 0, 0, 98];
    NoGapUnfolds(kept);
    NoGapUnfolds(kept[2..]);
    StrLenIs([97], [0, 98]);
    assert kept == [97] + [0] + [0, 98];
  }

  lemma ListOfExample(content: seq<Byte>)
    requires content == [97, 0, 0, 98, 0, 0]
    ensures Strings(content) == [[97]] && Ended(content)
  {
    hide StrLen, Strings, Ended;
    StringsOfJoined([[97]], [98, 0, 0]);
    assert Joined([[97]]) == [97] + [0] + Joined([]);
    assert Joined([[97]]) + [98, 0, 0] == content;
  }

  lemma ShownByExample(capacity: nat, content: seq<Byte>, input: Text)
    requires capacity == 100 && Stripped(content) == [97, 0, 0, 98] && input == [99] && !NoGap([97, 0, 0, 98])
    ensures HasRoom(capacity, content, input) && IsText(input) && !Gapless(content)
    ensures Appended(capacity, content, input) == [97, 0, 0, 98, 0, 99, 0, 0]
  {
    hide Stripped, NoGap;
  }

  lemma NothingKept()
    ensures Strings([]) == [] && NoGap([])
  {
  }

  // -------------------------------------------------------------------------
  // Removing
  // -------------------------------------------------------------------------

  /** The list without the first string that is the same text as input. */
  function WithoutFirst(list: seq<Text>, input: Text): seq<Text> {
    if list == [] then []
    else if SameText(list[0], input) then list[1..]
    else [list[0]] + WithoutFirst(list[1..], input)
  }

  predicate Has(list: seq<Text>, input: Text) {
    exists i | 0 <= i < |list| :: SameText(list[i], input)
  }

  /** The content after removing: the string that matched is cut out with its zero. */
  function Removed(content: seq<Byte>, input: Text): seq<Byte>
    requires Ended(content)
    decreases |content|
  {
    var n := StrLen(content);
    if n == 0 then content
    else if SameText(content[..n], input) then content[n + 1..]
    else content[..n + 1] + Removed(content[n + 1..], input)
  }

  lemma {:induction false} RemoveExactly(content: seq<Byte>, input: Text)
    requires Ended(content)
    ensures Ended(Removed(content, input)) && Strings(Removed(content, input)) == WithoutFirst(Strings(content), input)
    ensures |content| - |Removed(content, input)| == if Has(Strings(content), input) then |input| + 1 else 0
    ensures !Has(Strings(content), input) ==> Removed(content, input) == content
    decreases |content|
  {
    hide Strings, StrLen, SameText, Has, Ended;
    RemoveStep(content, input);
    StringsFront(content);
    var n := StrLen(content);
    if n > 0 {
      var tail, list := content[n + 1..], Strings(content);
      assert list[0] == content[..n] && list[1..] == Strings(tail);
      if !SameText(content[..n], input) {
        RemoveExactly(tail, input);
        PassedOver(content, Removed(tail, input));
        assert content[..n + 1] + tail == content;
      }
    }
  }

  /** Putting a list behind the string in front of another one. */
  lemma PassedOver(content: seq<Byte>, r: seq<Byte>)
    requires Ended(content) && StrLen(content) > 0 && Ended(r)
    ensures Ended(content[..StrLen(content) + 1] + r)
    ensures Strings(content[..StrLen(content) + 1] + r) == [content[..StrLen(content)]] + Strings(r)
  {
    var n := StrLen(content);
    var text := content[..n];
    assert content[..n + 1] == text + [0];
    StrLenIs(text, r);
    var b := text + [0] + r;
    assert b[..n] == text && b[n + 1..] == r;
  }

  lemma HasFront(list: seq<Text>, input: Text)
    requires list != []
    ensures Has(list, input) <==> SameText(list[0], input) || Has(list[1..], input)
  {
    if Has(list, input) && !SameText(list[0], input) {
      var i :| 0 <= i < |list| && SameText(list[i], input);
      assert list[1..][i - 1] == list[i];
    }
    if Has(list[1..], input) {
      var i :| 0 <= i < |list| - 1 && SameText(list[1..][i], input);
      assert list[i + 1] == list[1..][i];
    }
  }

  /** One turn of the walk: the string in front either ends it, matches, or is passed over. */
  lemma StrLenFirst(b: seq<Byte>)
    requires StrLen(b) < |b|
    ensures StrLen(b) == 0 <==> b[0] == 0
  {
  }

  lemma HasNone(input: Text)
    ensures !Has([], input)
  {
  }

  lemma RemoveStep(rest: seq<Byte>, input: Text)
    requires Ended(rest)
    ensures StrLen(rest) < |rest| && rest[StrLen(rest)] == 0 && (StrLen(rest) == 0 <==> rest[0] == 0)
    ensures rest[0] == 0 ==> Removed(rest, input) == rest && !Has(Strings(rest), input)
    ensures rest[0] != 0 ==>
              var n := StrLen(rest);
              Ended(rest[n + 1..]) &&
              if SameText(rest[..n], input)
              then n == |input| && Has(Strings(rest), input) && Removed(rest, input) == rest[n + 1..]
              else Has(Strings(rest), input) == Has(Strings(rest[n + 1..]), input)
                   && Removed(rest, input) == rest[..n + 1] + Removed(rest[n + 1..], input)
  {
    hide Strings, StrLen, SameText, Has, Ended;
    StringsFront(rest);
    StrLenFirst(rest);
    HasNone(input);
    var n := StrLen(rest);
    if n > 0 {
      if SameText(rest[..n], input) {
        SameTextLength(rest[..n], input);
      }
      assert Strings(rest)[0] == rest[..n] && Strings(rest)[1..] == Strings(rest[n + 1..]);
      HasFront(Strings(rest), input);
    }
  }

  /** Moves count bytes down by offset, as memmove does. */
  method MoveDown(a: array<Byte>, at: nat, offset: nat, count: nat)
    requires at + offset + count <= a.Length
    modifies a
    ensures a[..at] == old(a[..at]) && a[at..at + count] == old(a[at + offset..at + offset + count])
    ensures a[at + count..] == old(a[at + count..])
  {
    ghost var was := a[..];
    forall i | 0 <= i < count {
      a[at + i] := a[at + offset + i];
    }
    SlicesMoved(was, a[..], at, offset, count);
    assert was[..at] == old(a[..at]) && was[at + count..] == old(a[at + count..]);
    assert was[at + offset..at + offset + count] == old(a[at + offset..at + offset + count]);
  }

  lemma SlicesMoved(was: seq<Byte>, now: seq<Byte>, at: nat, offset: nat, count: nat)
    requires at + offset + count <= |was| == |now|
    requires forall i | 0 <= i < at || at + count <= i < |was| :: now[i] == was[i]
    requires forall i | at <= i < at + count :: now[i] == was[i + offset]
    ensures now[..at] == was[..at] && now[at..at + count] == was[at + offset..at + offset + count]
    ensures now[at + count..] == was[at + count..]
  {
    var moved, source := now[at..at + count], was[at + offset..at + offset + count];
    forall i | 0 <= i < count
      ensures moved[i] == source[i]
    {
    }
    assert moved == source;
    assert now[at + count..] == was[at + count..];
  }

  /** Splits off the string in front of a list that is not empty. */
  lemma SplitFront(rest: seq<Byte>, input: Text) returns (text: Text, tail: seq<Byte>)
    requires Ended(rest) && rest[0] != 0
    ensures rest == text + [0] + tail && |text| == StrLen(rest) && Ended(tail) && tail != []
    ensures SameText(text, input) ==> |text| == |input| && Has(Strings(rest), input) && Removed(rest, input) == tail
    ensures !SameText(text, input) ==> Has(Strings(rest), input) == Has(Strings(tail), input)
    ensures !SameText(text, input) ==> Removed(rest, input) == text + [0] + Removed(tail, input)
  {
    hide StrLen, Strings, Ended, Removed, Has, SameText;
    RemoveStep(rest, input);
    var n := StrLen(rest);
    text, tail := rest[..n], rest[n + 1..];
    RemoveStep(tail, input);
    assert rest[..n + 1] == text + [0];
  }

  /** The walk has passed over front without finding input; rest is still to be searched. */
  ghost predicate Walked(content: seq<Byte>, input: Text, front: seq<Byte>, rest: seq<Byte>) {
    && content == front + rest && Ended(content) && Ended(rest) && rest != []
    && Removed(content, input) == front + Removed(rest, input)
    && Has(Strings(content), input) == Has(Strings(rest), input)
  }

  lemma WalkStarts(content: seq<Byte>, input: Text)
    requires Ended(content)
    ensures Walked(content, input, [], content)
  {
    StringsFront(content);
  }

  lemma WalkGoesOn(content: seq<Byte>, input: Text, front: seq<Byte>, rest: seq<Byte>) returns (text: Text,
                   tail: seq<Byte>)
    requires Walked(content, input, front, rest) && rest[0] != 0
    ensures rest == text + [0] + tail && |text| == StrLen(rest) && tail != []
    ensures SameText(text, input) ==>
              |text| == |input| && Has(Strings(content), input) && Removed(content, input) == front + tail
    ensures !SameText(text, input) ==> Walked(content, input, front + text + [0], tail)
  {
    hide StrLen, Strings, Ended, Removed, Has, SameText;
    text, tail := SplitFront(rest, input);
    var next := Removed(tail, input);
    assert front + (text + [0] + tail) == front + text + [0] + tail;
    assert front + (text + [0] + next) == front + text + [0] + next;
  }

  lemma WalkEnds(content: seq<Byte>, input: Text, front: seq<Byte>, rest: seq<Byte>)
    requires Walked(content, input, front, rest) && rest[0] == 0
    ensures !Has(Strings(content), input) && Removed(content, input) == content
  {
    hide StrLen, Strings, Ended, Removed, Has, SameText;
    RemoveStep(rest, input);
  }

  lemma WalkSlices(content: seq<Byte>, front: seq<Byte>, text: Text, tail: seq<Byte>)
    requires content == front + (text + [0] + tail)
    ensures content[|front|..] == text + [0] + tail && content[|front|..|front| + |text|] == text
    ensures content[..|front|] == front && content[|front| + |text| + 1..] == tail
  {
  }

  /** The search loop over the buffer's content; at is the position the string pointer stops at. */
  method FindString(content: seq<Byte>, input: Text) returns (found: bool, at: nat)
    requires Ended(content) && IsText(input)
    ensures found == Has(Strings(content), input)
    ensures found ==>
              at + |input| + 1 <= |content| && Removed(content, input) == content[..at] + content[at + |input| + 1..]
    ensures !found ==> Removed(content, input) == content
  {
    hide StrLen, Strings, Ended, Removed, Has, SameText;
    ghost var front, rest := [], content;
    WalkStarts(content, input);
    at := 0;
    while content[at] != 0
      invariant at == |front| < |content| && Walked(content, input, front, rest)
      decreases |content| - at
    {
      ghost var text, tail := WalkGoesOn(content, input, front, rest);
      WalkSlices(content, front, text, tail);
      var n := StrLen(content[at..]);
      if SameText(content[at..at + n], input) {
        return true, at;
      }
      at := at + n + 1;
      front, rest := front + text + [0], tail;
    }
    WalkEnds(content, input, front, rest);
    return false, at;
  }

  method RemoveFromMultiString(mszDest: array<Byte>, dwDestSize: nat, input: Text) returns (found: bool, size: nat)
    requires dwDestSize <= mszDest.Length && Ended(mszDest[..dwDestSize]) && IsText(input)
    modifies mszDest
    ensures found == Has(Strings(old(mszDest[..dwDestSize])), input)
    ensures size <= mszDest.Length && mszDest[..size] == Removed(old(mszDest[..dwDestSize]), input)
  {
    hide Strings, Ended, Removed, Has;
    var at;
    found, at := FindString(mszDest[..dwDestSize], input);
    size := dwDestSize;
    if found {
      var offset := |input| + 1;
      size := dwDestSize - offset;
      CutOut(mszDest, at, offset, dwDestSize - at - offset, mszDest[..dwDestSize]);
    }
  }

  /** Closes the gap of a removed string. */
  method CutOut(a: array<Byte>, at: nat, offset: nat, count: nat, ghost content: seq<Byte>)
    requires at + offset + count == |content| <= a.Length && a[..|content|] == content
    modifies a
    ensures a[..at + count] == content[..at] + content[at + offset..]
  {
    MoveDown(a, at, offset, count);
    assert a[..at + count] == a[..at] + a[at..at + count];
  }

  // -------------------------------------------------------------------------
  // Appending and removing
  // -------------------------------------------------------------------------

  lemma {:induction false} WithoutAppended(list: seq<Text>, input: Text)
    requires !Has(list, input)
    ensures WithoutFirst(list + [input], input) == list
  {
    if list != [] {
      HasFront(list, input);
      assert (list + [input])[1..] == list[1..] + [input];
      WithoutAppended(list[1..], input);
    } else {
      assert [] + [input] == [input];
    }
  }

  /** Whatever is appended with room for it, two zeros end the buffer. */
  lemma AppendEnds(capacity: nat, content: seq<Byte>, input: Text)
    requires HasRoom(capacity, content, input)
    ensures Ended(Appended(capacity, content, input))
  {
    hide Ended, Stripped;
    DoubleZeroEnds(Appended(capacity, content, input));
  }

  /**
   * Removing a freshly appended new string gives back the original list: also when there was no room for
   * it, in a buffer that is ended as the routine demands, and when it went behind a gap.
   */
  lemma RemoveUndoesAppend(capacity: nat, content: seq<Byte>, input: Text)
    requires IsText(input) && input != [] && !Has(Strings(content), input)
    requires HasRoom(capacity, content, input) || Ended(content)
    ensures Ended(Appended(capacity, content, input))
    ensures Strings(Removed(Appended(capacity, content, input), input)) == Strings(content)
  {
    hide Strings, Removed, Ended, Stripped, Gapless, WithoutFirst;
    if HasRoom(capacity, content, input) {
      AppendEnds(capacity, content, input);
      AppendExactly(capacity, content, input);
      WithoutAppended(Strings(content), input);
    }
    RemoveExactly(Appended(capacity, content, input), input);
    NothingToRemove(Strings(content), input);
  }

  lemma {:induction false} NothingToRemove(list: seq<Text>, input: Text)
    requires !Has(list, input)
    ensures WithoutFirst(list, input) == list
  {
    if list != [] {
      HasFront(list, input);
      NothingToRemove(list[1..], input);
    }
  }
}
