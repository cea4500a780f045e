/** In-memory encryption of key material with one keystream per encryption ID. */
module MemoryProtection {
  import opened Base

  /** (encryption ID, position) to keystream byte. */
  type KeyStream = (nat, nat) -> Byte

  /** Whether the key derivation area exists, and the keystreams it gives rise to. */
  datatype Protection = Protection(hasArea: bool, stream: KeyStream)

  /** data combined with the keystream of encID from position pos on. */
  function Masked(p: Protection, encID: nat, pos: nat, data: seq<Byte>): (r: seq<Byte>)
    ensures |r| == |data|
  {
    if p.hasArea then seq(|data|, i requires 0 <= i < |data| => data[i] ^ p.stream(encID, pos + i)) else data
  }

  /** Byte by byte; without the key derivation area everything stays as it is. */
  lemma MaskedAt(p: Protection, encID: nat, pos: nat, data: seq<Byte>, i: nat)
    requires i < |data|
    ensures Masked(p, encID, pos, data)[i] ^ data[i] == if p.hasArea then p.stream(encID, pos + i) else 0
  {
    if p.hasArea {
      XorAround(data[i], p.stream(encID, pos + i));
    }
  }

  lemma XorAround(a: Byte, b: Byte)
    ensures (a ^ b) ^ a == b
  {
  }

  lemma MaskedTwice(p: Protection, encID: nat, pos: nat, data: seq<Byte>)
    ensures Masked(p, encID, pos, Masked(p, encID, pos, data)) == data
  {
    var once := Masked(p, encID, pos, data);
    if p.hasArea {
      forall i | 0 <= i < |data|
        ensures Masked(p, encID, pos, once)[i] == data[i]
      {
        XorTwice(data[i], p.stream(encID, pos + i));
      }
    }
  }

  lemma XorTwice(a: Byte, b: Byte)
    ensures (a ^ b) ^ b == a
  {
  }

  /** Masking is one pass over the buffers laid end to end. */
  lemma MaskedAcross(p: Protection, encID: nat, pos: nat, a: seq<Byte>, b: seq<Byte>)
    ensures Masked(p, encID, pos, a) + Masked(p, encID, pos + |a|, b) == Masked(p, encID, pos, a + b)
  {
    var whole := Masked(p, encID, pos, a + b);
    var parts := Masked(p, encID, pos, a) + Masked(p, encID, pos + |a|, b);
    forall i | 0 <= i < |whole|
      ensures whole[i] == parts[i]
    {
    }
  }

  lemma MaskedAcrossFour(p: Protection, encID: nat, a: seq<Byte>, b: seq<Byte>, c: seq<Byte>, d: seq<Byte>)
    ensures Masked(p, encID, 0, a) + Masked(p, encID, |a|, b) + Masked(p, encID, |a| + |b|, c)
            + Masked(p, encID, |a| + |b| + |c|, d)
         == Masked(p, encID, 0, a + b + c + d)
  {
    hide Masked;
    MaskedAcross(p, encID, 0, a, b);
    MaskedAcross(p, encID, 0, a + b, c);
    MaskedAcross(p, encID, 0, a + b + c, d);
  }

  /** A cipher context: which keystream, and how far it has been used. */
  class Context {
    const p: Protection
    const encID: nat
    var pos: nat

    constructor (p: Protection, encID: nat)
      requires p.hasArea
      ensures this.p == p && this.encID == encID && pos == 0
    {
      this.p, this.encID, this.pos := p, encID, 0;
    }

    method Encrypt(data: array<Byte>)
      requires p.hasArea
      modifies this`pos, data
      ensures data[..] == Masked(p, encID, old(pos), old(data[..]))
      ensures pos == old(pos) + data.Length
    {
      var r := Masked(p, encID, pos, data[..]);
      forall i | 0 <= i < data.Length {
        data[i] := r[i];
      }
      pos := pos + data.Length;
    }
  }

  /** Protects, or unprotects, four buffers under one ID; without the key derivation area it does nothing. */
  method VcProtectMemory(p: Protection, encID: nat, d1: array<Byte>, d2: array<Byte>, d3: array<Byte>, d4: array<Byte>)
    requires d1 != d2 && d1 != d3 && d1 != d4 && d2 != d3 && d2 != d4 && d3 != d4
    modifies d1, d2, d3, d4
    ensures d1[..] + d2[..] + d3[..] + d4[..] == Masked(p, encID, 0, old(d1[..] + d2[..] + d3[..] + d4[..]))
  {
    if p.hasArea {
      ghost var a, b, c, d := d1[..], d2[..], d3[..], d4[..];
      var ctx := new Context(p, encID);
      ctx.Encrypt(d1);
      ctx.Encrypt(d2);
      ctx.Encrypt(d3);
      ctx.Encrypt(d4);
      hide Masked;
      MaskedAcrossFour(p, encID, a, b, c, d);
    }
  }

  /** Protecting the same buffers a second time under the same ID gives back what they held at first. */
  method ProtectTwice(p: Protection, encID: nat, d1: array<Byte>, d2: array<Byte>, d3: array<Byte>, d4: array<Byte>)
    requires d1 != d2 && d1 != d3 && d1 != d4 && d2 != d3 && d2 != d4 && d3 != d4
    modifies d1, d2, d3, d4
    ensures d1[..] == old(d1[..]) && d2[..] == old(d2[..]) && d3[..] == old(d3[..]) && d4[..] == old(d4[..])
  {
    ghost var was := d1[..] + d2[..] + d3[..] + d4[..];
    VcProtectMemory(p, encID, d1, d2, d3, d4);
    VcProtectMemory(p, encID, d1, d2, d3, d4);
    MaskedTwice(p, encID, 0, was);
    ghost var now := d1[..] + d2[..] + d3[..] + d4[..];
    ghost var n1, n2, n3 := d1.Length, d1.Length + d2.Length, d1.Length + d2.Length + d3.Length;
    assert now == was;
    assert d1[..] == now[..n1] && d2[..] == now[n1..n2] && d3[..] == now[n2..n3] && d4[..] == now[n3..];
  }
}
