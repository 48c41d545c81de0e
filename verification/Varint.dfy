/** Base 128 varints, zigzag and fixed-width integers: what the bytes mean. */
module Varint {
  import opened Bits

  /** Outcome of reading something from the front of a byte string. */
  datatype Parse<+T> = Fail | Done(v: T, rest: seq<Byte>)

  // ----- The encoding guide's own reading of a varint -----

  /** Number of bytes of the varint that `s` starts with; 0 if `s` ends inside it. */
  function VarintLen(s: seq<Byte>): (n: nat)
    ensures n <= |s|
  {
    if s == [] then 0
    else if s[0] < 128 then 1
    else var n := VarintLen(s[1..]); if n == 0 then 0 else n + 1
  }

  /** Little-endian sum of 7-bit groups. */
  function Value(s: seq<Byte>): nat {
    if s == [] then 0 else s[0] % 128 + 128 * Value(s[1..])
  }

  /** The shortest varint of `v`. */
  function EncVarint(v: nat): (s: seq<Byte>)
    ensures |s| >= 1
  {
    if v < 128 then [v] else [v % 128 + 128] + EncVarint(v / 128)
  }

  /** pb_decode_varint: at most ten bytes, result modulo 2^64. */
  function Varint64(s: seq<Byte>): (p: Parse<nat>)
    ensures p.Done? ==> |p.rest| < |s|
  {
    var n := VarintLen(s);
    if 1 <= n <= 10 then Done(Value(s[..n]) % 0x1_0000_0000_0000_0000, s[n..]) else Fail
  }

  /** The multibyte case of pb_decode_varint32_eof, from a given bit position (an 8-bit counter). */
  function Varint32From(s: seq<Byte>, bitpos: nat, result: nat): (p: Parse<nat>)
    ensures p.Done? ==> |p.rest| < |s|
  {
    if s == [] then Fail
    else
      var byte := s[0];
      var signExtension := if bitpos < 63 then 0xFF else 0x01;
      if bitpos >= 32 && byte % 128 != 0 && (result / 0x8000_0000 == 0 || byte != signExtension) then Fail
      else
        var result' := if bitpos >= 32 then result else BitOr(result, Shl(byte % 128, bitpos) % 0x1_0000_0000);
        var bitpos' := (bitpos + 7) % 256;
        if byte >= 128 then Varint32From(s[1..], bitpos', result')
        else if bitpos' == 35 && byte / 16 % 8 != 0 then Fail
        else Done(result', s[1..])
  }

  /** pb_decode_varint32. */
  function Varint32(s: seq<Byte>): (p: Parse<nat>)
    ensures p.Done? ==> |p.rest| < |s|
  {
    if s == [] then Fail
    else if s[0] < 128 then Done(s[0], s[1..])
    else Varint32From(s[1..], 7, s[0] % 128)
  }

  // ----- Groups and lengths -----

  /** `x` moved up by `n` groups. */
  function Shift(x: nat, n: nat): nat {
    if n == 0 then x else 128 * Shift(x, n - 1)
  }

  lemma {:induction false} ShiftIsShl(x: nat, n: nat)
    ensures Shl(x, 7 * n) == Shift(x, n)
  {
    if n > 0 {
      var k := 7 * (n - 1);
      ShiftIsShl(x, n - 1);
      assert Shl(x, k + 2) == 4 * Shl(x, k) && Shl(x, k + 4) == 4 * Shl(x, k + 2) && Shl(x, k + 6) == 4 * Shl(x, k + 4);
      assert Shl(x, k + 7) == 2 * Shl(x, k + 6);
    }
  }

  lemma {:induction false} ShiftValues(x: nat)
    ensures Shift(x, 1) == 0x80 * x && Shift(x, 2) == 0x4000 * x && Shift(x, 3) == 0x20_0000 * x
    ensures Shift(x, 4) == 0x1000_0000 * x && Shift(x, 5) == 0x8_0000_0000 * x
  {
    assert Shift(x, 2) == 128 * Shift(x, 1) && Shift(x, 3) == 128 * Shift(x, 2);
    assert Shift(x, 4) == 128 * Shift(x, 3) && Shift(x, 5) == 128 * Shift(x, 4);
  }

  lemma {:induction false} ShiftNine(x: nat)
    ensures Shift(x, 9) == 0x8000_0000_0000_0000 * x && Shift(x, 10) == 0x40_0000_0000_0000_0000 * x
  {
    ShiftValues(x);
    assert Shift(x, 7) == 0x4000 * Shift(x, 5) && Shift(x, 9) == 0x4000 * Shift(x, 7);
    assert Shift(x, 10) == 128 * Shift(x, 9);
  }

  lemma {:induction false} ValueAppend(s: seq<Byte>, t: seq<Byte>)
    ensures Value(s + t) == Value(s) + Shift(Value(t), |s|)
  {
    if s == [] {
      assert s + t == t;
    } else {
      ValueAppend(s[1..], t);
      assert (s + t)[1..] == s[1..] + t;
    }
  }

  lemma {:induction false} ValueBound(s: seq<Byte>)
    ensures Value(s) < Shift(1, |s|)
  {
    if s != [] {
      ValueBound(s[1..]);
    }
  }

  lemma {:induction false} VarintLenExtend(s: seq<Byte>, t: seq<Byte>)
    requires VarintLen(s) > 0
    ensures VarintLen(s + t) == VarintLen(s)
  {
    assert (s + t)[0] == s[0];
    if s[0] >= 128 {
      assert (s + t)[1..] == s[1..] + t;
      VarintLenExtend(s[1..], t);
    }
  }

  /** Every group but the last of a varint carries the continuation bit. */
  lemma {:induction false} VarintLenShape(s: seq<Byte>)
    requires VarintLen(s) > 0
    ensures var n := VarintLen(s); s[n - 1] < 128 && forall i | 0 <= i < n - 1 :: s[i] >= 128
  {
    if s[0] >= 128 {
      VarintLenShape(s[1..]);
    }
  }

  lemma {:induction false} VarintLenIs(s: seq<Byte>, n: nat)
    requires 1 <= n <= |s| && s[n - 1] < 128 && forall i | 0 <= i < n - 1 :: s[i] >= 128
    ensures VarintLen(s) == n
  {
    if n > 1 {
      VarintLenIs(s[1..], n - 1);
    }
  }

  lemma {:induction false} AllContinued(s: seq<Byte>, n: nat)
    requires n <= |s| && forall i | 0 <= i < n :: s[i] >= 128
    ensures VarintLen(s) == 0 || VarintLen(s) > n
  {
    if VarintLen(s) > 0 {
      VarintLenShape(s);
    }
  }

  lemma {:induction false} EncVarintParses(v: nat)
    ensures VarintLen(EncVarint(v)) == |EncVarint(v)|
    ensures Value(EncVarint(v)) == v
  {
    if v >= 128 {
      EncVarintParses(v / 128);
      assert EncVarint(v)[1..] == EncVarint(v / 128);
    }
  }

  lemma {:induction false} EncVarintLen(v: nat, k: nat)
    requires k >= 1
    ensures |EncVarint(v)| <= k <==> v < Shift(1, k)
  {
    if v >= 128 && k > 1 {
      EncVarintLen(v / 128, k - 1);
    } else if v < 128 {
      ShiftGrows(k);
    }
  }

  lemma {:induction false} ShiftGrows(k: nat)
    requires k >= 1
    ensures Shift(1, k) >= 128
  {
    if k > 1 { ShiftGrows(k - 1); }
  }

  // ----- The 64-bit decoder -----

  /** Decoding what was encoded gives the value back, whatever follows it. */
  lemma {:induction false} Varint64RoundTrip(v: nat, t: seq<Byte>)
    requires v < 0x1_0000_0000_0000_0000
    ensures Varint64(EncVarint(v) + t) == Done(v, t)
  {
    var s := EncVarint(v);
    EncVarintParses(v);
    EncVarintLen(v, 10);
    ShiftNine(1);
    VarintLenExtend(s, t);
    assert (s + t)[..|s|] == s && (s + t)[|s|..] == t;
  }

  lemma {:induction false} Varint64Extend(s: seq<Byte>, t: seq<Byte>)
    requires Varint64(s).Done?
    ensures Varint64(s + t) == Done(Varint64(s).v, Varint64(s).rest + t)
  {
    VarintLenExtend(s, t);
    var n := VarintLen(s);
    assert (s + t)[..n] == s[..n] && (s + t)[n..] == s[n..] + t;
  }

  lemma {:induction false} ShiftLess(d: nat, n: nat)
    requires d < 128
    ensures Shift(d, n) + Shift(1, n) <= Shift(1, n + 1)
  {
    if n > 0 {
      ShiftLess(d, n - 1);
    }
  }

  lemma {:induction false} ShiftMonotone(m: nat, n: nat)
    requires m <= n
    ensures Shift(1, m) <= Shift(1, n)
    decreases n
  {
    if m < n {
      ShiftMonotone(m, n - 1);
    }
  }

  /** The part of group `n` of at most ten that fits in 64 bits. */
  lemma {:induction false} Group64Fits(low: nat, d: nat, n: nat)
    requires n <= 9 && d < 128 && low < Shift(1, n)
    ensures var e := if n == 9 then d % 2 else d;
            Shift(d, n) % 0x1_0000_0000_0000_0000 == Shift(e, n)
            && (low + Shift(d, n)) % 0x1_0000_0000_0000_0000 == low + Shift(e, n)
            && low % 0x1_0000_0000_0000_0000 == low
  {
    ShiftNine(1);
    ShiftLess(d, n);
    if n == 9 {
      ShiftNine(d);
      ShiftNine(d % 2);
      assert d == 2 * (d / 2) + d % 2;
    } else {
      ShiftMonotone(n + 1, 9);
    }
  }

  /** Adding group `n` of at most ten to the 64-bit result. */
  lemma {:induction false} Group64(s: seq<Byte>, n: nat)
    requires n <= 9 && n < |s|
    ensures BitOr(Value(s[..n]) % 0x1_0000_0000_0000_0000, Shl(s[n] % 128, 7 * n) % 0x1_0000_0000_0000_0000)
            == Value(s[..n + 1]) % 0x1_0000_0000_0000_0000
  {
    var low, d := Value(s[..n]), s[n] % 128;
    assert Value(s[..n + 1]) == low + Shift(d, n) by {
      assert s[..n + 1] == s[..n] + [s[n]] && [s[n]][1..] == [];
      ValueAppend(s[..n], [s[n]]);
    }
    assert low < Shift(1, n) by { ValueBound(s[..n]); }
    var e := if n == 9 then d % 2 else d;
    Group64Fits(low, d, n);
    assert low < Pow2(7 * n) by { ShiftIsShl(1, n); ShlOne(7 * n); }
    ShiftIsShl(d, n);
    ShiftIsShl(e, n);
    OrDisjoint(low, e, 7 * n);
  }

  // ----- The 32-bit decoder -----

  lemma {:induction false} Varint32FromExtend(s: seq<Byte>, t: seq<Byte>, bitpos: nat, result: nat)
    requires Varint32From(s, bitpos, result).Done?
    ensures var p := Varint32From(s, bitpos, result);
            Varint32From(s + t, bitpos, result) == Done(p.v, p.rest + t)
    decreases |s|
  {
    assert (s + t)[0] == s[0] && (s + t)[1..] == s[1..] + t;
    if s[0] >= 128 {
      var result' := if bitpos >= 32 then result else BitOr(result, Shl(s[0] % 128, bitpos) % 0x1_0000_0000);
      Varint32FromExtend(s[1..], t, (bitpos + 7) % 256, result');
    }
  }

  lemma {:induction false} Varint32Extend(s: seq<Byte>, t: seq<Byte>)
    requires Varint32(s).Done?
    ensures Varint32(s + t) == Done(Varint32(s).v, Varint32(s).rest + t)
  {
    assert (s + t)[0] == s[0] && (s + t)[1..] == s[1..] + t;
    if s[0] >= 128 {
      Varint32FromExtend(s[1..], t, 7, s[0] % 128);
    }
  }

  /** The low word that the first five groups of an `n`-byte varint make up. */
  function LowWord(s: seq<Byte>): nat {
    Value(s[..if |s| < 5 then |s| else 5]) % 0x1_0000_0000
  }

  /** The bits of group `i < 5` that fit in 32 bits. */
  function Kept(d: nat, i: nat): nat {
    if i == 4 then d % 16 else d
  }

  lemma {:induction false} GroupFits(low: nat, d: nat, i: nat)
    requires 1 <= i <= 4 && d < 128 && low < Shift(1, i)
    ensures Shift(d, i) % 0x1_0000_0000 == Shift(Kept(d, i), i)
    ensures (low + Shift(d, i)) % 0x1_0000_0000 == low + Shift(Kept(d, i), i)
    ensures low % 0x1_0000_0000 == low && low < Pow2(7 * i)
  {
    if i == 4 {
      FifthGroupFits(low, d);
    } else {
      ShiftValues(1);
      ShiftValues(d);
    }
    ShiftIsShl(1, i);
    ShlOne(7 * i);
  }

  lemma {:induction false} FifthGroupFits(low: nat, d: nat)
    requires d < 128 && low < Shift(1, 4)
    ensures Shift(d, 4) % 0x1_0000_0000 == Shift(d % 16, 4)
    ensures (low + Shift(d, 4)) % 0x1_0000_0000 == low + Shift(d % 16, 4)
    ensures low % 0x1_0000_0000 == low
  {
    ShiftValues(1);
    ShiftValues(d);
    ShiftValues(d % 16);
    assert d == 16 * (d / 16) + d % 16;
  }

  lemma {:induction false} LowStep(s: seq<Byte>, i: nat)
    requires 1 <= i <= 4 && i < |s|
    ensures BitOr(LowWord(s[..i]), Shl(s[i] % 128, 7 * i) % 0x1_0000_0000) == LowWord(s[..i + 1])
  {
    var low, d := Value(s[..i]), s[i] % 128;
    assert Value(s[..i + 1]) == low + Shift(d, i) by {
      assert s[..i + 1] == s[..i] + [s[i]];
      assert [s[i]][1..] == [];
      ValueAppend(s[..i], [s[i]]);
    }
    assert low < Shift(1, i) by { ValueBound(s[..i]); }
    assert LowWord(s[..i]) == low % 0x1_0000_0000 by { assert s[..i][..i] == s[..i]; }
    assert LowWord(s[..i + 1]) == (low + Shift(d, i)) % 0x1_0000_0000 by { assert s[..i + 1][..i + 1] == s[..i + 1]; }
    GroupFits(low, d, i);
    ShiftIsShl(d, i);
    ShiftIsShl(Kept(d, i), i);
    OrDisjoint(low, Kept(d, i), 7 * i);
  }

  /** Group `i >= 5` is one the 32-bit decoder lets pass. */
  predicate Ignorable(s: seq<Byte>, i: nat)
    requires i < |s|
  {
    s[i] % 128 == 0 || (LowWord(s) >= 0x8000_0000 && s[i] == (if i < 9 then 0xFF else 0x01))
  }

  /** What the 32-bit decoder asks of a varint `s` of at most 36 bytes. */
  predicate Fits32(s: seq<Byte>) {
    (|s| == 5 ==> s[4] % 128 < 16) && forall i: nat | 5 <= i < |s| :: Ignorable(s, i)
  }

  lemma {:induction false} Varint32Step(s: seq<Byte>, t: seq<Byte>, i: nat)
    requires 1 <= i < |s| <= 36
    ensures Varint32From(s[i..] + t, 7 * i, LowWord(s[..i]))
            == if i >= 5 && !Ignorable(s, i) then Fail
               else if s[i] >= 128 then Varint32From(s[i + 1..] + t, 7 * (i + 1), LowWord(s[..i + 1]))
               else if i == 4 && s[i] % 128 >= 16 then Fail
               else Done(LowWord(s[..i + 1]), s[i + 1..] + t)
  {
    LowNext(s, i);
    UnfoldStep(s[i], s[i + 1..] + t, i, LowWord(s[..i]), LowWord(s[..i + 1]), LowWord(s));
    assert s[i..] + t == [s[i]] + (s[i + 1..] + t);
  }

  lemma {:induction false} LowNext(s: seq<Byte>, i: nat)
    requires 1 <= i < |s|
    ensures i < 5 ==> LowWord(s[..i + 1]) == BitOr(LowWord(s[..i]), Shl(s[i] % 128, 7 * i) % 0x1_0000_0000)
    ensures i >= 5 ==> LowWord(s[..i]) == LowWord(s[..i + 1]) == LowWord(s)
  {
    if i < 5 {
      LowStep(s, i);
    } else {
      assert s[..i][..5] == s[..5] == s[..i + 1][..5];
    }
  }

  lemma {:induction false} UnfoldStep(byte: Byte, rest: seq<Byte>, i: nat, low: nat, low': nat, all: nat)
    requires 1 <= i <= 35
    requires i < 5 ==> low' == BitOr(low, Shl(byte % 128, 7 * i) % 0x1_0000_0000)
    requires i >= 5 ==> low == low' == all < 0x1_0000_0000
    ensures Varint32From([byte] + rest, 7 * i, low)
            == if i >= 5 && !(byte % 128 == 0 || (all >= 0x8000_0000 && byte == if i < 9 then 0xFF else 0x01)) then Fail
               else if byte >= 128 then Varint32From(rest, 7 * (i + 1), low')
               else if i == 4 && byte % 128 >= 16 then Fail
               else Done(low', rest)
  {
    assert ([byte] + rest)[1..] == rest;
  }

  lemma {:induction false} Varint32Tail(s: seq<Byte>, t: seq<Byte>, i: nat)
    requires 1 <= i < VarintLen(s) == |s| <= 36
    requires forall j: nat | 5 <= j < i :: Ignorable(s, j)
    ensures Varint32From(s[i..] + t, 7 * i, LowWord(s[..i]))
            == if Fits32(s) then Done(LowWord(s), t) else Fail
    decreases |s| - i
  {
    VarintLenShape(s);
    Varint32Step(s, t, i);
    if i == |s| - 1 {
      assert s[..i + 1] == s && s[i + 1..] + t == t;
    } else if i < 5 || Ignorable(s, i) {
      Varint32Tail(s, t, i + 1);
    }
  }

  lemma {:induction false} LowWordIsMod(s: seq<Byte>)
    ensures LowWord(s) == Value(s) % 0x1_0000_0000
  {
    if |s| > 5 {
      assert s == s[..5] + s[5..];
      ValueAppend(s[..5], s[5..]);
      ShiftValues(Value(s[5..]));
    } else {
      assert s[..|s|] == s;
    }
  }

  /** The first byte, before the loop over the others. */
  lemma {:induction false} Varint32First(s: seq<Byte>, t: seq<Byte>)
    requires s != []
    ensures LowWord(s[..1]) == s[0] % 128
    ensures s[0] >= 128 ==> Varint32(s + t) == Varint32From(s[1..] + t, 7, s[0] % 128)
    ensures s[0] < 128 ==> Varint32(s + t) == Done(s[0], s[1..] + t)
  {
    assert (s + t)[0] == s[0] && (s + t)[1..] == s[1..] + t;
    var f := s[..1];
    assert f[..1] == f && f[1..] == [];
    assert Value(f) == s[0] % 128;
    assert LowWord(f) == Value(f) % 0x1_0000_0000;
  }

  lemma {:induction false} Varint32Low(s: seq<Byte>, t: seq<Byte>)
    requires 1 <= VarintLen(s) == |s| <= 36
    ensures Varint32(s + t) == if Fits32(s) then Done(LowWord(s), t) else Fail
  {
    Varint32First(s, t);
    if s[0] < 128 {
      assert s == s[..1] && s[1..] + t == t;
    } else {
      Varint32Tail(s, t, 1);
    }
  }

  /** The exact behaviour of the 32-bit decoder on a varint `s` of at most 36 bytes; after that the 8-bit bit position
      wraps around. */
  lemma {:induction false} Varint32Exact(s: seq<Byte>, t: seq<Byte>)
    requires 1 <= VarintLen(s) == |s| <= 36
    ensures Varint32(s + t) == if Fits32(s) then Done(Value(s) % 0x1_0000_0000, t) else Fail
  {
    Varint32Low(s, t);
    LowWordIsMod(s);
  }

  /** The two decoders agree modulo 2^32 wherever both succeed. */
  lemma {:induction false} Varint32Refines64(s: seq<Byte>)
    requires Varint32(s).Done? && Varint64(s).Done?
    ensures Varint32(s).v == Varint64(s).v % 0x1_0000_0000
    ensures Varint32(s).rest == Varint64(s).rest
  {
    var n := VarintLen(s);
    assert s == s[..n] + s[n..];
    VarintLenPrefix(s);
    Varint32Exact(s[..n], s[n..]);
    ModMod(Value(s[..n]));
  }

  lemma {:induction false} ModMod(w: nat)
    ensures w % 0x1_0000_0000_0000_0000 % 0x1_0000_0000 == w % 0x1_0000_0000
  {}

  lemma {:induction false} VarintLenPrefix(s: seq<Byte>)
    requires VarintLen(s) > 0
    ensures VarintLen(s[..VarintLen(s)]) == VarintLen(s)
  {
    if s[0] >= 128 {
      VarintLenPrefix(s[1..]);
      assert s[..VarintLen(s)][1..] == s[1..][..VarintLen(s[1..])];
    }
  }

  // ----- The 32-bit decoder on the encoder's output -----

  /** Group `i` of `v`. */
  function Digit(v: nat, i: nat): nat {
    if i == 0 then v % 128 else Digit(v / 128, i - 1)
  }

  lemma {:induction false} EncVarintBytes(v: nat, i: nat)
    requires i < |EncVarint(v)|
    ensures EncVarint(v)[i] == Digit(v, i) + (if i < |EncVarint(v)| - 1 then 128 else 0)
    ensures i > 0 && i == |EncVarint(v)| - 1 ==> EncVarint(v)[i] > 0
  {
    if i > 0 {
      EncVarintBytes(v / 128, i - 1);
    }
  }

  lemma {:induction false} DigitBound(v: nat, i: nat)
    ensures Digit(v, i) < 128
  {
    if i > 0 { DigitBound(v / 128, i - 1); }
  }

  /** The values whose varint the 32-bit decoder accepts. */
  predicate Narrow(v: nat) {
    v < 0x1_0000_0000
    || (&& v >= 0x8000_0000_0000_0000 && v % 0x1_0000_0000 >= 0x8000_0000
        && forall i: nat | 5 <= i <= 8 :: Digit(v, i) == 0 || Digit(v, i) == 127)
  }

  lemma {:induction false} EncodedLength(v: nat)
    requires v < 0x1_0000_0000_0000_0000
    ensures |EncVarint(v)| <= 10
    ensures |EncVarint(v)| <= 4 <==> v < 0x1000_0000
    ensures |EncVarint(v)| <= 5 <==> v < 0x8_0000_0000
    ensures |EncVarint(v)| <= 9 <==> v < 0x8000_0000_0000_0000
  {
    ShiftValues(1);
    ShiftNine(1);
    EncVarintLen(v, 4);
    EncVarintLen(v, 5);
    EncVarintLen(v, 9);
    EncVarintLen(v, 10);
  }

  lemma {:induction false} LastGroup(v: nat, n: nat)
    requires |EncVarint(v)| == n + 1
    ensures v == Value(EncVarint(v)[..n]) + Shift(EncVarint(v)[n], n)
    ensures EncVarint(v)[n] < 128 && (n > 0 ==> EncVarint(v)[n] > 0)
    ensures Value(EncVarint(v)[..n]) < Shift(1, n)
  {
    var s := EncVarint(v);
    assert s[n] < 128 && (n > 0 ==> s[n] > 0) by {
      EncVarintBytes(v, n);
      DigitBound(v, n);
    }
    assert v == Value(s[..n]) + Shift(s[n], n) by {
      EncVarintParses(v);
      assert s == s[..n] + [s[n]] && [s[n]][1..] == [];
      ValueAppend(s[..n], [s[n]]);
    }
    ValueBound(s[..n]);
  }

  lemma {:induction false} FiveGroups(v: nat)
    requires |EncVarint(v)| == 5
    ensures v < 0x1_0000_0000 <==> EncVarint(v)[4] % 128 < 16
  {
    LastGroup(v, 4);
    ShiftValues(1);
    ShiftValues(EncVarint(v)[4]);
  }

  lemma {:induction false} TenGroups(v: nat)
    requires v < 0x1_0000_0000_0000_0000 && |EncVarint(v)| == 10
    ensures EncVarint(v)[9] == 1
  {
    LastGroup(v, 9);
    ShiftNine(EncVarint(v)[9]);
  }

  lemma {:induction false} EncodedFits(v: nat)
    requires v < 0x1_0000_0000_0000_0000
    ensures Fits32(EncVarint(v)) <==> Narrow(v)
  {
    var s := EncVarint(v);
    var n := |s|;
    EncodedLength(v);
    EncVarintParses(v);
    LowWordIsMod(s);
    forall i: nat | i < n
      ensures s[i] == Digit(v, i) + (if i < n - 1 then 128 else 0) && Digit(v, i) < 128
    {
      EncVarintBytes(v, i);
      DigitBound(v, i);
    }
    if n == 5 {
      FiveGroups(v);
    } else if n > 5 {
      EncVarintBytes(v, n - 1);
      if n < 10 {
        assert !Ignorable(s, n - 1);
      } else {
        TenGroups(v);
        assert forall i: nat | 5 <= i <= 8 && LowWord(s) >= 0x8000_0000 ::
            Ignorable(s, i) <==> Digit(v, i) == 0 || Digit(v, i) == 127;
        assert Ignorable(s, 9) <==> LowWord(s) >= 0x8000_0000;
      }
    }
  }

  /** On the encoder's output the 32-bit decoder returns the low word, or fails, and this says which. */
  lemma {:induction false} Varint32OfEncoded(v: nat, t: seq<Byte>)
    requires v < 0x1_0000_0000_0000_0000
    ensures Varint32(EncVarint(v) + t) == if Narrow(v) then Done(v % 0x1_0000_0000, t) else Fail
  {
    EncodedLength(v);
    EncVarintParses(v);
    EncodedFits(v);
    Varint32Exact(EncVarint(v), t);
  }

  lemma {:induction false} Varint32RoundTrip(v: nat, t: seq<Byte>)
    requires v < 0x1_0000_0000
    ensures Varint32(EncVarint(v) + t) == Done(v, t)
  {
    assert Narrow(v) && v % 0x1_0000_0000 == v;
    Varint32OfEncoded(v, t);
  }

  /** The 32-bit decoder uses the same bytes as any other, however many they are. */
  lemma {:induction false} Varint32FromUses(s: seq<Byte>, bitpos: nat, result: nat)
    requires Varint32From(s, bitpos, result).Done?
    ensures VarintLen(s) > 0 && Varint32From(s, bitpos, result).rest == s[VarintLen(s)..]
    decreases |s|
  {
    if s[0] >= 128 {
      var result' := if bitpos >= 32 then result else BitOr(result, Shl(s[0] % 128, bitpos) % 0x1_0000_0000);
      Varint32FromUses(s[1..], (bitpos + 7) % 256, result');
    }
  }

  lemma {:induction false} Varint32Uses(s: seq<Byte>)
    requires Varint32(s).Done?
    ensures VarintLen(s) > 0 && Varint32(s).rest == s[VarintLen(s)..]
  {
    if s[0] >= 128 {
      Varint32FromUses(s[1..], 7, s[0] % 128);
    }
  }

  // ----- Signed values -----

  type Int32 = x: int | -0x8000_0000 <= x < 0x8000_0000
  type Int64 = x: int | -0x8000_0000_0000_0000 <= x < 0x8000_0000_0000_0000

  /** Two's complement of `x` in 64 bits. */
  function Unsigned64(x: int): nat
    requires -0x8000_0000_0000_0000 <= x < 0x1_0000_0000_0000_0000
  {
    if x < 0 then x + 0x1_0000_0000_0000_0000 else x
  }

  /** Reading the low `2^bits` of `v` as a two's complement number. */
  function Signed(v: nat, modulus: nat): int
    requires modulus > 0
  {
    var w := v % modulus;
    if w >= modulus / 2 then w - modulus else w
  }

  /** A negative int32 survives the 32-bit decoder: it returns the low word. */
  lemma {:induction false} NegativeInt32(x: Int32, t: seq<Byte>)
    requires x < 0
    ensures |EncVarint(Unsigned64(x))| == 10
    ensures Varint32(EncVarint(Unsigned64(x)) + t) == Done(x + 0x1_0000_0000, t)
  {
    var v := Unsigned64(x);
    EncodedLength(v);
    SignDigits(v);
    Varint32OfEncoded(v, t);
  }

  lemma {:induction false} SignDigits(v: nat)
    requires 0x1_0000_0000_0000_0000 - 0x8000_0000 <= v < 0x1_0000_0000_0000_0000
    ensures v % 0x1_0000_0000 == v - (0x1_0000_0000_0000_0000 - 0x1_0000_0000)
    ensures forall i: nat | 5 <= i <= 8 :: Digit(v, i) == 127
  {
    var w := v / 0x8_0000_0000;
    assert w == 0x1FFF_FFFF;
    DigitSkip5(v);
    assert Digit(w, 0) == 127 && Digit(w, 1) == 127;
    assert Digit(w, 2) == 127;
    assert w / 128 / 128 / 128 == 0xFF;
    assert Digit(w, 3) == 127;
  }

  lemma {:induction false} DigitSkip5(v: nat)
    ensures forall i: nat | i >= 5 :: Digit(v, i) == Digit(v / 0x8_0000_0000, i - 5)
  {
    assert v / 128 / 128 / 128 / 128 / 128 == v / 0x8_0000_0000;
    forall i: nat | i >= 5 ensures Digit(v, i) == Digit(v / 0x8_0000_0000, i - 5) {
      assert Digit(v, i) == Digit(v / 128, i - 1);
      assert Digit(v / 128, i - 1) == Digit(v / 128 / 128, i - 2);
      assert Digit(v / 128 / 128, i - 2) == Digit(v / 128 / 128 / 128, i - 3);
      assert Digit(v / 128 / 128 / 128, i - 3) == Digit(v / 128 / 128 / 128 / 128, i - 4);
    }
  }

  /** ZigZag of the encoding guide: small magnitudes to small values. */
  function ZigZag(x: int): nat {
    if x < 0 then -2 * x - 1 else 2 * x
  }

  /** The shift-and-complement form of pb_encode_svarint computes it. */
  lemma {:induction false} ZigZagBits(x: Int64)
    ensures ZigZag(x) < 0x1_0000_0000_0000_0000
    ensures ZigZag(x) == if x < 0 then 0x1_0000_0000_0000_0000 - 1 - Unsigned64(x) * 2 % 0x1_0000_0000_0000_0000
                         else Unsigned64(x) * 2
  {}

  /** pb_decode_svarint on the decoded unsigned value. */
  function UnZigZag(v: nat): int {
    if v % 2 == 1 then -(v / 2) - 1 else v / 2
  }

  // ----- Fixed-width values -----

  function LittleEndian(v: nat, width: nat): (s: seq<Byte>)
    ensures |s| == width
  {
    if width == 0 then [] else [v % 256] + LittleEndian(v / 256, width - 1)
  }

  function FromLittleEndian(s: seq<Byte>): nat {
    if s == [] then 0 else s[0] + 256 * FromLittleEndian(s[1..])
  }

  lemma {:induction false} FixedRoundTrip(v: nat, width: nat)
    requires v < Pow2(8 * width)
    ensures FromLittleEndian(LittleEndian(v, width)) == v
  {
    if width > 0 {
      Pow2Byte(width);
      FixedRoundTrip(v / 256, width - 1);
      assert LittleEndian(v, width)[1..] == LittleEndian(v / 256, width - 1);
    }
  }

  lemma {:induction false} Pow2Byte(n: nat)
    requires n > 0
    ensures Pow2(8 * n) == 256 * Pow2(8 * (n - 1))
  {
    var k := 8 * (n - 1);
    assert Pow2(k + 2) == 4 * Pow2(k) && Pow2(k + 4) == 4 * Pow2(k + 2);
    assert Pow2(k + 6) == 4 * Pow2(k + 4) && Pow2(k + 8) == 4 * Pow2(k + 6);
  }
}
