/**
 The ones' complement checksum of kernel/UProtocols.cc and include/UProtocols4.tcc
 (section 1 of RFC 1071): computing it over a packet with its checksum field left out,
 storing it in that field, and verifying the packet.
 */
module Checksum {
  import opened Blocks

  const MOD := 65535

  type Short = x: int | 0 <= x < 65536

  /** r is what folding s into 16 bits gives: congruent to s modulo 65535, and zero only for zero. */
  predicate Folded(s: nat, r: Short) { r % MOD == s % MOD && (r == 0 <==> s == 0) }

  lemma FoldedUnique(s: nat, r: Short, r': Short)
    requires Folded(s, r) && Folded(s, r')
    ensures r == r'
  {
  }

  /** Adding the high half to the low half loses nothing modulo 65535. */
  lemma FoldStep(s: nat)
    ensures (s % 65536 + s / 65536) % MOD == s % MOD
    ensures s >= 65536 ==> 0 < s % 65536 + s / 65536 < s
  {
    var h, l := s / 65536, s % 65536;
    assert s == (h + l) + MOD * h;
    ModStep(h + l, h);
  }

  lemma {:induction false} ModStep(x: nat, k: nat)
    ensures (x + MOD * k) % MOD == x % MOD
  {
    if k > 0 {
      ModStep(x, k - 1);
      assert x + MOD * k == (x + MOD * (k - 1)) + MOD;
      assert ((x + MOD * (k - 1)) + MOD) % MOD == (x + MOD * (k - 1)) % MOD;
    }
  }

  method Fold(s: Word) returns (r: Short)
    ensures Folded(s, r)
  {
    var t: nat := s;
    while t / 65536 != 0
      invariant t % MOD == s % MOD && (t == 0 <==> s == 0)
      decreases t
    {
      FoldStep(t);
      t := t % 65536 + t / 65536;
    }
    r := t;
  }

  function Sum(ws: seq<Short>): nat {
    if ws == [] then 0 else Sum(ws[..|ws| - 1]) + ws[|ws| - 1]
  }

  lemma {:induction false} SumBound(ws: seq<Short>)
    ensures Sum(ws) <= 65535 * |ws|
  {
    if ws != [] { SumBound(ws[..|ws| - 1]); }
  }

  lemma {:induction false} SumUpdate(ws: seq<Short>, k: nat, w: Short)
    requires k < |ws|
    ensures Sum(ws[k := w]) == Sum(ws[k := 0]) + w
  {
    var m := |ws| - 1;
    assert ws[k := w][..m] == if k < m then ws[..m][k := w] else ws[..m];
    assert ws[k := 0][..m] == if k < m then ws[..m][k := 0] else ws[..m];
    if k < m { SumUpdate(ws[..m], k, w); }
  }

  /** What a packet's words verify to: the complement of the folded sum. */
  ghost predicate VerifiesTo(init: nat, ws: seq<Short>, r: Short) { Folded(init + Sum(ws), 65535 - r) }

  /**
   Which values of the checksum field make verification return zero: the computed one, and
   no other but its alias modulo 65535, as long as the packet is not all zero.
   */
  lemma ValidExactly(init: nat, ws: seq<Short>, k: nat, computed: Short, c: Short)
    requires k < |ws| && VerifiesTo(init, ws[k := 0], computed)
    ensures VerifiesTo(init, ws[k := c], 0) <==> c % MOD == computed % MOD && init + Sum(ws[k := c]) > 0
  {
    SumUpdate(ws, k, c);
    var s := init + Sum(ws[k := 0]);
    Complement(s, 65535 - computed, c);
  }

  lemma Complement(s: nat, r: Short, c: Short)
    requires Folded(s, r)
    ensures (s + c) % MOD == 0 <==> c % MOD == (65535 - r) % MOD
  {
    assert s == s / MOD * MOD + s % MOD;
    ModStep(s % MOD + c, s / MOD);
  }

  /** The computed checksum, stored, verifies. */
  lemma StoredVerifies(init: nat, ws: seq<Short>, k: nat, computed: Short)
    requires k < |ws| && VerifiesTo(init, ws[k := 0], computed)
    ensures VerifiesTo(init, ws[k := computed], 0)
  {
    SumUpdate(ws, k, computed);
    ValidExactly(init, ws, k, computed, computed);
  }

  function Pair(high: Byte, low: Byte): Short { 256 * (high as int) + low }

  lemma SumNext(ws: seq<Short>, i: nat)
    requires i < |ws|
    ensures Sum(ws[..i + 1]) == Sum(ws[..i]) + ws[i]
  {
    assert ws[..i + 1][..i] == ws[..i];
  }

  lemma SumNone()
    ensures Sum([]) == 0
  {
  }

  /** A packet; its words are in network byte order. */
  class Packet {
    const data: array<Byte>

    constructor (d: array<Byte>)
      ensures data == d
    {
      data := d;
    }

    function WordAt(i: nat): Short
      requires 2 * i + 1 < data.Length
      reads data
    {
      Pair(data[2 * i], data[2 * i + 1])
    }

    ghost function Words(n: nat): (ws: seq<Short>)
      requires 2 * n <= data.Length
      reads data
      ensures |ws| == n && forall i :: 0 <= i < n ==> ws[i] == WordAt(i)
    {
      seq(n, i requires 0 <= i < n reads data => WordAt(i))
    }

    /** init is the sum of the pseudo header, zero if there is none. */
    method VerifyChecksum(init: Word, n: nat, field: nat, computeOnly: bool) returns (r: Short)
      requires 2 * n <= data.Length && field < n && init + 65535 * n < 0x1_0000_0000
      ensures VerifiesTo(init, if computeOnly then Words(n)[field := 0] else Words(n), r)
    {
      hide Folded, Sum, Pair, Packet.Words;
      ghost var ws := if computeOnly then Words(n)[field := 0] else Words(n);
      SumNone();
      assert ws[..0] == [];
      var sum: Word := init;
      var i := 0;
      while i < n
        invariant 0 <= i <= n
        invariant sum == init + Sum(ws[..i])
      {
        SumNext(ws, i);
        SumBound(ws[..i + 1]);
        if !(computeOnly && i == field) {
          sum := sum + WordAt(i);
        }
        i := i + 1;
      }
      assert ws[..n] == ws;
      var folded := Fold(sum);
      r := 65535 - folded;
    }

    method SetWord(i: nat, w: Short, ghost n: nat)
      requires i < n && 2 * n <= data.Length
      modifies data
      ensures Words(n) == old(Words(n))[i := w] && data[2 * i] == w / 256 && data[2 * i + 1] == w % 256
      ensures forall k :: 0 <= k < data.Length && k / 2 != i ==> data[k] == old(data[k])
    {
      data[2 * i] := w / 256;
      data[2 * i + 1] := w % 256;
    }

    /** What sending does: store the computed checksum; the packet then verifies to zero. */
    method Seal(init: Word, n: nat, field: nat)
      requires 2 * n <= data.Length && field < n && init + 65535 * n < 0x1_0000_0000
      modifies data
      ensures VerifiesTo(init, Words(n), 0)
      ensures forall k :: 0 <= k < data.Length && k / 2 != field ==> data[k] == old(data[k])
    {
      ghost var ws := Words(n);
      var c := VerifyChecksum(init, n, field, true);
      StoredVerifies(init, ws, field, c);
      SetWord(field, c, n);
    }

    /** The IPv4 header: ten words, the checksum in the sixth (section 3.1 of RFC 791). */
    method SealHeader() returns (r: Short)
      requires data.Length >= 20
      modifies data
      ensures r == 0 && VerifiesTo(0, Words(10), 0)
    {
      Seal(0, 10, 5);
      r := VerifyChecksum(0, 10, 5, false);
      FoldedUnique(Sum(Words(10)), 65535, 65535 - r);
    }
  }
}
