/** FNV-1a as crates/common/src/worktree_names.rs (32 bits) and scripts/smoke_task_tmp.py
    (64 bits) compute it, and the names made from it. */
module Fnv {
  import opened Prelude

  // ---- 32 bits ----

  const OFFSET32: bv32 := 0x811c_9dc5

  /** `wrapping_mul` by the FNV prime. */
  function Times32(x: bv32): bv32 {
    x * 0x0100_0193
  }

  /** Multiplication by the prime's inverse modulo 2^32. */
  function Undo32(x: bv32): bv32 {
    x * 0x359c_449b
  }

  lemma UndoProduct32(x: bv32)
    ensures Undo32(x * 0x0100_0193) == x
  {
  }

  lemma PrimeInverts32(x: bv32)
    ensures Undo32(Times32(x)) == x
  {
    hide Undo32;
    UndoProduct32(x);
    assert Times32(x) == x * 0x0100_0193;
  }

  lemma XorInverts32(h: bv32, b: bv32)
    ensures (h ^ b) ^ b == h
  {
  }

  lemma XorSeparates32(h: bv32, b: Byte, c: Byte)
    requires h ^ (b as bv32) == h ^ (c as bv32)
    ensures b == c
  {
  }

  function Step32(h: bv32, b: Byte): bv32 {
    Times32(h ^ (b as bv32))
  }

  function Hash32(h: bv32, bytes: seq<Byte>): bv32 {
    if bytes == [] then h else Step32(Hash32(h, bytes[..|bytes| - 1]), bytes[|bytes| - 1])
  }

  /** Each step can be undone knowing its byte. */
  lemma StepInverts32(h: bv32, b: Byte)
    ensures Undo32(Step32(h, b)) ^ (b as bv32) == h
  {
    hide Times32;
    hide Undo32;
    PrimeInverts32(h ^ (b as bv32));
    XorInverts32(h, b as bv32);
  }

  lemma StepSeparates32(h: bv32, b: Byte, c: Byte)
    ensures Step32(h, b) == Step32(h, c) <==> b == c
  {
    hide Times32;
    hide Undo32;
    if Step32(h, b) == Step32(h, c) {
      PrimeInverts32(h ^ (b as bv32));
      PrimeInverts32(h ^ (c as bv32));
      XorSeparates32(h, b, c);
    }
  }

  /** A common ending neither makes nor removes a collision. */
  lemma {:induction false} CommonEnding32(h: bv32, g: bv32, bytes: seq<Byte>)
    ensures Hash32(h, bytes) == Hash32(g, bytes) <==> h == g
    decreases |bytes|
  {
    hide Step32;
    hide Undo32;
    if bytes != [] {
      var n := |bytes| - 1;
      CommonEnding32(h, g, bytes[..n]);
      StepInverts32(Hash32(h, bytes[..n]), bytes[n]);
      StepInverts32(Hash32(g, bytes[..n]), bytes[n]);
    }
  }

  lemma {:induction false} HashSplits32(h: bv32, a: seq<Byte>, b: seq<Byte>)
    ensures Hash32(h, a + b) == Hash32(Hash32(h, a), b)
    decreases |b|
  {
    if b == [] {
      assert a + b == a;
    } else {
      assert (a + b)[..|a + b| - 1] == a + b[..|b| - 1];
      HashSplits32(h, a, b[..|b| - 1]);
    }
  }

  /** The two inputs agree except at position k. */
  ghost predicate OneByteApart(a: seq<Byte>, b: seq<Byte>, k: nat) {
    k < |a| == |b| && a[k] != b[k] && a[..k] == b[..k] && a[k + 1..] == b[k + 1..]
  }

  /** Inputs one byte apart never share a hash. */
  lemma OneByteChangesHash32(h: bv32, a: seq<Byte>, b: seq<Byte>, k: nat)
    requires OneByteApart(a, b, k)
    ensures Hash32(h, a) != Hash32(h, b)
  {
    hide Step32;
    assert a == (a[..k] + [a[k]]) + a[k + 1..] && b == (b[..k] + [b[k]]) + b[k + 1..];
    HashSplits32(h, a[..k] + [a[k]], a[k + 1..]);
    HashSplits32(h, b[..k] + [b[k]], b[k + 1..]);
    assert (a[..k] + [a[k]])[..k] == a[..k] && (b[..k] + [b[k]])[..k] == b[..k];
    StepSeparates32(Hash32(h, a[..k]), a[k], b[k]);
    CommonEnding32(Hash32(h, a[..k] + [a[k]]), Hash32(h, b[..k] + [b[k]]), a[k + 1..]);
  }

  // ---- 64 bits ----

  const OFFSET64: bv64 := 0xcbf2_9ce4_8422_2325

  /** `wrapping_mul` by the FNV prime. */
  function Times64(x: bv64): bv64 {
    x * 0x100_0000_01b3
  }

  /** Multiplication by the prime's inverse modulo 2^64. */
  function Undo64(x: bv64): bv64 {
    x * 0xce96_5057_aff6_957b
  }

  lemma UndoProduct64(x: bv64)
    ensures Undo64(x * 0x100_0000_01b3) == x
  {
  }

  lemma PrimeInverts64(x: bv64)
    ensures Undo64(Times64(x)) == x
  {
    hide Undo64;
    UndoProduct64(x);
    assert Times64(x) == x * 0x100_0000_01b3;
  }

  lemma XorInverts64(h: bv64, b: bv64)
    ensures (h ^ b) ^ b == h
  {
  }

  lemma XorSeparates64(h: bv64, b: Byte, c: Byte)
    requires h ^ (b as bv64) == h ^ (c as bv64)
    ensures b == c
  {
  }

  function Step64(h: bv64, b: Byte): bv64 {
    Times64(h ^ (b as bv64))
  }

  function Hash64(h: bv64, bytes: seq<Byte>): bv64 {
    if bytes == [] then h else Step64(Hash64(h, bytes[..|bytes| - 1]), bytes[|bytes| - 1])
  }

  lemma StepInverts64(h: bv64, b: Byte)
    ensures Undo64(Step64(h, b)) ^ (b as bv64) == h
  {
    hide Times64;
    hide Undo64;
    PrimeInverts64(h ^ (b as bv64));
    XorInverts64(h, b as bv64);
  }

  lemma StepSeparates64(h: bv64, b: Byte, c: Byte)
    ensures Step64(h, b) == Step64(h, c) <==> b == c
  {
    hide Times64;
    hide Undo64;
    if Step64(h, b) == Step64(h, c) {
      PrimeInverts64(h ^ (b as bv64));
      PrimeInverts64(h ^ (c as bv64));
      XorSeparates64(h, b, c);
    }
  }

  lemma {:induction false} CommonEnding64(h: bv64, g: bv64, bytes: seq<Byte>)
    ensures Hash64(h, bytes) == Hash64(g, bytes) <==> h == g
    decreases |bytes|
  {
    hide Step64;
    hide Undo64;
    if bytes != [] {
      var n := |bytes| - 1;
      CommonEnding64(h, g, bytes[..n]);
      StepInverts64(Hash64(h, bytes[..n]), bytes[n]);
      StepInverts64(Hash64(g, bytes[..n]), bytes[n]);
    }
  }

  lemma {:induction false} HashSplits64(h: bv64, a: seq<Byte>, b: seq<Byte>)
    ensures Hash64(h, a + b) == Hash64(Hash64(h, a), b)
    decreases |b|
  {
    if b == [] {
      assert a + b == a;
    } else {
      assert (a + b)[..|a + b| - 1] == a + b[..|b| - 1];
      HashSplits64(h, a, b[..|b| - 1]);
    }
  }

  lemma OneByteChangesHash64(h: bv64, a: seq<Byte>, b: seq<Byte>, k: nat)
    requires OneByteApart(a, b, k)
    ensures Hash64(h, a) != Hash64(h, b)
  {
    hide Step64;
    assert a == (a[..k] + [a[k]]) + a[k + 1..] && b == (b[..k] + [b[k]]) + b[k + 1..];
    HashSplits64(h, a[..k] + [a[k]], a[k + 1..]);
    HashSplits64(h, b[..k] + [b[k]], b[k + 1..]);
    assert (a[..k] + [a[k]])[..k] == a[..k] && (b[..k] + [b[k]])[..k] == b[..k];
    StepSeparates64(Hash64(h, a[..k]), a[k], b[k]);
    CommonEnding64(Hash64(h, a[..k] + [a[k]]), Hash64(h, b[..k] + [b[k]]), a[k + 1..]);
  }

  // ---- Hexadecimal ----

  function HexDigit(n: bv32): char {
    if n == 0 then '0' else if n == 1 then '1' else if n == 2 then '2' else if n == 3 then '3'
    else if n == 4 then '4' else if n == 5 then '5' else if n == 6 then '6' else if n == 7 then '7'
    else if n == 8 then '8' else if n == 9 then '9' else if n == 10 then 'a' else if n == 11 then 'b'
    else if n == 12 then 'c' else if n == 13 then 'd' else if n == 14 then 'e' else 'f'
  }

  function Nibble(h: bv32, shift: bv5): bv32 {
    (h >> shift) & 0xF
  }

  /** `{h:08x}` */
  function Hex8(h: bv32): (text: string)
    ensures |text| == 8
  {
    [HexDigit(Nibble(h, 28)), HexDigit(Nibble(h, 24)), HexDigit(Nibble(h, 20)), HexDigit(Nibble(h, 16)),
     HexDigit(Nibble(h, 12)), HexDigit(Nibble(h, 8)), HexDigit(Nibble(h, 4)), HexDigit(Nibble(h, 0))]
  }

  lemma HexDigitSeparates(n: bv32, m: bv32)
    requires n < 16 && m < 16
    ensures HexDigit(n) == HexDigit(m) <==> n == m
  {
  }

  lemma NibblesSeparate(h: bv32, g: bv32)
    requires Nibble(h, 28) == Nibble(g, 28) && Nibble(h, 24) == Nibble(g, 24) && Nibble(h, 20) == Nibble(g, 20)
    requires Nibble(h, 16) == Nibble(g, 16) && Nibble(h, 12) == Nibble(g, 12) && Nibble(h, 8) == Nibble(g, 8)
    requires Nibble(h, 4) == Nibble(g, 4) && Nibble(h, 0) == Nibble(g, 0)
    ensures h == g
  {
  }

  /** The number a hexadecimal digit stands for. */
  function DigitValue(c: char): bv32 {
    match c
    case '0' => 0
    case '1' => 1
    case '2' => 2
    case '3' => 3
    case '4' => 4
    case '5' => 5
    case '6' => 6
    case '7' => 7
    case '8' => 8
    case '9' => 9
    case 'a' => 10
    case 'b' => 11
    case 'c' => 12
    case 'd' => 13
    case 'e' => 14
    case _ => 15
  }

  lemma DigitReads(n: bv32)
    requires n < 16
    ensures DigitValue(HexDigit(n)) == n
    ensures n == 15 ==> HexDigit(n) == 'f'
  {
  }

  lemma NibblesAdd(h: bv32)
    ensures (Nibble(h, 28) << 28) | (Nibble(h, 24) << 24) | (Nibble(h, 20) << 20) | (Nibble(h, 16) << 16)
            | (Nibble(h, 12) << 12) | (Nibble(h, 8) << 8) | (Nibble(h, 4) << 4) | Nibble(h, 0) == h
  {
  }

  lemma NibbleIsSmall(h: bv32, shift: bv5)
    ensures Nibble(h, shift) < 16
  {
  }

  /** The eight digits, most significant first, are the number. */
  lemma HexIsNumber(h: bv32)
    ensures var d := seq(8, k requires 0 <= k < 8 => DigitValue(Hex8(h)[k]));
            (d[0] << 28) | (d[1] << 24) | (d[2] << 20) | (d[3] << 16) | (d[4] << 12) | (d[5] << 8) | (d[6] << 4) | d[7]
            == h
  {
    DigitAt(h, 28);
    DigitAt(h, 24);
    DigitAt(h, 20);
    DigitAt(h, 16);
    DigitAt(h, 12);
    DigitAt(h, 8);
    DigitAt(h, 4);
    DigitAt(h, 0);
    NibblesAdd(h);
    hide Nibble;
    hide HexDigit;
    hide DigitValue;
  }

  lemma DigitAt(h: bv32, shift: bv5)
    ensures DigitValue(HexDigit(Nibble(h, shift))) == Nibble(h, shift)
  {
    hide Nibble;
    hide HexDigit;
    hide DigitValue;
    NibbleIsSmall(h, shift);
    DigitReads(Nibble(h, shift));
  }

  lemma HexSeparates(h: bv32, g: bv32)
    ensures Hex8(h) == Hex8(g) <==> h == g
  {
    if Hex8(h) == Hex8(g) {
      SameNibble(h, g, 0, 28);
      SameNibble(h, g, 1, 24);
      SameNibble(h, g, 2, 20);
      SameNibble(h, g, 3, 16);
      SameNibble(h, g, 4, 12);
      SameNibble(h, g, 5, 8);
      SameNibble(h, g, 6, 4);
      SameNibble(h, g, 7, 0);
      NibblesSeparate(h, g);
    }
  }

  lemma SameNibble(h: bv32, g: bv32, i: nat, shift: bv5)
    requires i < 8 && Hex8(h)[i] == Hex8(g)[i]
    requires Hex8(h)[i] == HexDigit(Nibble(h, shift)) && Hex8(g)[i] == HexDigit(Nibble(g, shift))
    ensures Nibble(h, shift) == Nibble(g, shift)
  {
    HexDigitSeparates(Nibble(h, shift), Nibble(g, shift));
  }
}
