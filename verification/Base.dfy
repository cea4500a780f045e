/** Machine integer ranges and the option type shared by the other modules. */
module Base {

  /** A byte where only its bits matter. */
  type Byte = bv8

  /** Bytes and wider words where their numeric values matter. */
  type U8 = n: int | 0 <= n < 0x100
  type U16 = n: int | 0 <= n < 0x1_0000
  type U32 = n: int | 0 <= n < 0x1_0000_0000

  datatype Option<+T> = None | Some(value: T)

  /** n copies of x. */
  function Repeated<T>(x: T, n: nat): (r: seq<T>)
    ensures |r| == n
  {
    seq(n, _ => x)
  }

  /** s with data stored from position at on. */
  function Spliced<T>(s: seq<T>, at: nat, data: seq<T>): (r: seq<T>)
    requires at + |data| <= |s|
    ensures |r| == |s|
    ensures forall i | 0 <= i < |s| :: r[i] == if at <= i < at + |data| then data[i - at] else s[i]
  {
    s[..at] + data + s[at + |data|..]
  }

  /** Copies data into an array from position at on; nothing else in the array changes. */
  method CopyInto<T>(a: array<T>, at: nat, data: seq<T>)
    requires at + |data| <= a.Length
    modifies a
    ensures a[..] == Spliced(old(a[..]), at, data)
    ensures a[at..at + |data|] == data
    ensures a[..at] == old(a[..at]) && a[at + |data|..] == old(a[at + |data|..])
  {
    forall i | 0 <= i < |data| {
      a[at + i] := data[i];
    }
  }
}
