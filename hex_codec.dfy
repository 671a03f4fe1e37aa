/**
 * Scalar codec shared by all hex files: Python's `x & mask` on unbounded
 * two's-complement integers, `format(v, '0Nx')` and `int(s, 16)`, and the
 * hardware-side reading of a masked pattern as a signed number.
 */
module HexCodec {
  import opened Wrappers

  /** The masks `train_model.py` writes: 8-bit weights and 16-bit biases. */
  const BYTE_MASK: nat := 0xFF
  const WORD_MASK: nat := 0xFFFF

  function Pow2(k: nat): (r: nat)
    ensures r >= 1
  {
    if k == 0 then 1 else 2 * Pow2(k - 1)
  }

  function Pow16(n: nat): (r: nat)
    ensures r >= 1
  {
    if n == 0 then 1 else 16 * Pow16(n - 1)
  }

  // ---------------------------------------------------------------------
  // Two's-complement masking
  // ---------------------------------------------------------------------

  /**
   * `x & (2^k - 1)` for a Python int `x`: the k lowest bits of x's
   * infinite two's-complement form, taken one bit at a time. Dafny's `/`
   * and `%` by 2 are floor division and a non-negative remainder, which is
   * exactly Python's `x >> 1` and `x & 1`, negative x included. The
   * weights and biases masked in `train_model.py` are numpy int64
   * elements; for every int64 value, int64 `&` with these masks gives
   * the same result as the unbounded reading here.
   */
  function LowBits(x: int, k: nat): (r: nat)
    ensures r < Pow2(k)
    decreases k
  {
    if k == 0 then 0 else x % 2 + 2 * LowBits(x / 2, k - 1)
  }

  /** `x & 0xFF`, the weight mask of `train_model.py`: the byte pattern of x, negatives wrapped. */
  function Mask8(x: int): (r: nat)
    ensures r < 256 && r == x % 256
  {
    Pow2Facts();
    LowBitsIsMod(x, 8);
    LowBits(x, 8)
  }

  /** `x & 0xFFFF`, the bias mask of `train_model.py`. */
  function Mask16(x: int): (r: nat)
    ensures r < 65536 && r == x % 65536
  {
    Pow2Facts();
    LowBitsIsMod(x, 16);
    LowBits(x, 16)
  }

  lemma MulAtLeast(m: int, d: int)
    requires m > 0 && d >= 1
    ensures m * d >= m
  {
    assert m * d == m * (d - 1) + m;
  }

  /** Quotient and remainder by a positive divisor are unique. */
  lemma ModUnique(x: int, m: int, t: int, s: int)
    requires m > 0 && 0 <= s < m && x == m * t + s
    ensures x % m == s && x / m == t
  {
    var q, r := x / m, x % m;
    assert x == m * q + r;
    if q < t {
      MulAtLeast(m, t - q);
    } else if q > t {
      MulAtLeast(m, q - t);
    }
  }

  lemma Pow2Facts()
    ensures Pow2(7) == 128 && Pow2(8) == 256 && Pow2(15) == 32768 && Pow2(16) == 65536
    ensures Pow16(2) == 256 && Pow16(4) == 65536
  {
    assert Pow2(2) == 4;
    assert Pow2(4) == 16;
    assert Pow2(6) == 64;
    assert Pow2(8) == 256;
    assert Pow2(10) == 1024;
    assert Pow2(12) == 4096;
    assert Pow2(14) == 16384;
    assert Pow16(2) == 256;
    assert Pow16(4) == 65536;
  }

  lemma Regroup(x: int, q: int, b: int, p: int, t: int, r: int)
    requires x == 2 * q + b && q == p * t + r
    ensures x == (2 * p) * t + (2 * r + b)
  {
    assert 2 * (p * t) == (2 * p) * t;
  }

  /** The remainder by 2p is the low bit plus twice the remainder of the half by p. */
  lemma HalvingMod(x: int, p: int)
    requires p > 0
    ensures x % (2 * p) == x % 2 + 2 * ((x / 2) % p)
  {
    var q, b := x / 2, x % 2;
    var t, r := q / p, q % p;
    Regroup(x, q, b, p, t, r);
    ModUnique(x, 2 * p, t, 2 * r + b);
  }

  /** Masking to k bits is reduction modulo 2^k, negative inputs included. */
  lemma {:induction false} LowBitsIsMod(x: int, k: nat)
    ensures LowBits(x, k) == x % Pow2(k)
    decreases k
  {
    if k > 0 {
      LowBitsIsMod(x / 2, k - 1);
      HalvingMod(x, Pow2(k - 1));
    }
  }

  lemma ModShift(w: int, m: int)
    requires m > 0
    ensures (w + m) % m == w % m
  {
    var q := w / m;
    assert m * (q + 1) == m * q + m;
    ModUnique(w + m, m, q + 1, w % m);
  }

  /** Masking wraps silently: w and w + 2^k give the same bit pattern. */
  lemma LowBitsWraps(w: int, k: nat)
    ensures LowBits(w + Pow2(k), k) == LowBits(w, k)
  {
    LowBitsIsMod(w, k);
    LowBitsIsMod(w + Pow2(k), k);
    ModShift(w, Pow2(k));
  }

  /** Masking leaves a value that already fits in k bits unchanged. */
  lemma LowBitsOfSmall(x: int, k: nat)
    requires 0 <= x < Pow2(k)
    ensures LowBits(x, k) == x
  {
    LowBitsIsMod(x, k);
    ModUnique(x, Pow2(k), 0, x);
  }

  /**
   * How the consumer reads a k-bit pattern back as a signed number: the
   * patterns with the top bit set stand for x - 2^k
   * (`x >= 128 ? x - 256 : x` for bytes).
   */
  function ToSigned(x: int, k: nat): int
  {
    if 2 * x >= Pow2(k) then x - Pow2(k) else x
  }

  /** Every value in the signed k-bit range survives masking and signed read-back. */
  lemma SignRecovered(w: int, k: nat)
    requires k >= 1 && -(Pow2(k - 1) as int) <= w < Pow2(k - 1)
    ensures ToSigned(LowBits(w, k), k) == w
  {
    LowBitsIsMod(w, k);
    if w < 0 {
      ModUnique(w, Pow2(k), -1, w + Pow2(k));
    } else {
      ModUnique(w, Pow2(k), 0, w);
    }
  }

  // ---------------------------------------------------------------------
  // Hex digits, int(s, 16) and format(v, '0Nx')
  // ---------------------------------------------------------------------

  predicate IsHexDigit(c: char)
  {
    ('0' <= c <= '9') || ('a' <= c <= 'f') || ('A' <= c <= 'F')
  }

  predicate IsLowerHexDigit(c: char)
  {
    ('0' <= c <= '9') || ('a' <= c <= 'f')
  }

  predicate AllHexDigits(s: string)
  {
    forall i | 0 <= i < |s| :: IsHexDigit(s[i])
  }

  predicate AllLowerHexDigits(s: string)
  {
    forall i | 0 <= i < |s| :: IsLowerHexDigit(s[i])
  }

  function DigitValue(c: char): (d: nat)
    requires IsHexDigit(c)
    ensures d < 16
  {
    if '0' <= c <= '9' then c as int - '0' as int
    else if 'a' <= c <= 'f' then c as int - 'a' as int + 10
    else c as int - 'A' as int + 10
  }

  /** The lowercase digit `format` writes for d. */
  function DigitChar(d: nat): (c: char)
    requires d < 16
    ensures IsLowerHexDigit(c) && DigitValue(c) == d
  {
    if d < 10 then ('0' as int + d) as char else ('a' as int + d - 10) as char
  }

  /**
   * The number a string of hex digits denotes, most significant digit
   * first, or None when some character is not a hex digit.
   */
  function DigitsValue(s: string): Option<nat>
  {
    if s == [] then Some(0)
    else if !IsHexDigit(s[|s| - 1]) then None
    else
      var prefix := DigitsValue(s[..|s| - 1]);
      if prefix.None? then None else Some(16 * prefix.value + DigitValue(s[|s| - 1]))
  }

  /** The value p shifted up by one hex place, with the digit c appended. */
  function Shift(p: Option<nat>, c: char): Option<nat>
    requires IsHexDigit(c)
  {
    if p.None? then None else Some(16 * p.value + DigitValue(c))
  }

  /**
   * A run of hex digits in either case with single underscores between
   * digits, read most significant digit first; None for anything else
   * (empty, a leading, trailing or doubled underscore, a non-digit).
   */
  function GroupedValue(s: string): Option<nat>
  {
    if s == [] || !IsHexDigit(s[|s| - 1]) then None
    else if |s| == 1 then Some(DigitValue(s[0]))
    else if s[|s| - 2] == '_' then Shift(GroupedValue(s[..|s| - 2]), s[|s| - 1])
    else Shift(GroupedValue(s[..|s| - 1]), s[|s| - 1])
  }

  /** `0x` or `0X`, which base 16 accepts before the digits. */
  predicate HasHexPrefix(s: string)
  {
    |s| >= 2 && s[0] == '0' && (s[1] == 'x' || s[1] == 'X')
  }

  /** One underscore is allowed straight after the base prefix. */
  function SkipUnderscore(s: string): string
  {
    if |s| > 0 && s[0] == '_' then s[1..] else s
  }

  /** The digits after an optional base prefix: what `int(s, 16)` reads once the sign is gone. */
  function UnsignedValue(u: string): Option<nat>
  {
    GroupedValue(if HasHexPrefix(u) then SkipUnderscore(u[2..]) else u)
  }

  /**
   * `int(s, 16)` on an already stripped line: an optional sign, an optional
   * `0x`/`0X` prefix (optionally followed by one underscore), then digits
   * grouped by single underscores; anything else raises ValueError (None).
   */
  function ParseHex(s: string): Option<int>
  {
    if |s| > 0 && (s[0] == '-' || s[0] == '+') then
      match UnsignedValue(s[1..])
      case None => None
      case Some(v) =>
        var n: int := v;
        Some(if s[0] == '-' then -n else n)
    else
      match UnsignedValue(s)
      case None => None
      case Some(v) => Some(v as int)
  }

  /** Without underscores, a grouped run is read like a plain run of digits. */
  lemma {:induction false} GroupedValueOfDigits(s: string)
    requires s != [] && AllHexDigits(s)
    ensures GroupedValue(s) == DigitsValue(s) && DigitsValue(s).Some?
    decreases |s|
  {
    if |s| == 1 {
      assert s[..0] == [];
    } else {
      assert IsHexDigit(s[|s| - 2]);
      GroupedValueOfDigits(s[..|s| - 1]);
    }
  }

  /** A bare run of hex digits is read as the number it spells. */
  lemma ParseHexOfDigits(s: string)
    requires s != [] && AllHexDigits(s)
    ensures DigitsValue(s).Some? && ParseHex(s) == Some(DigitsValue(s).value as int)
  {
    assert IsHexDigit(s[0]);
    if |s| >= 2 {
      assert IsHexDigit(s[1]);
    }
    GroupedValueOfDigits(s);
  }

  /** Nothing, or `0x` / `0X`, optionally followed by one underscore. */
  predicate IsBasePrefix(p: string)
  {
    || p == []
    || (&& (|p| == 2 || |p| == 3) && p[0] == '0' && (p[1] == 'x' || p[1] == 'X')
        && (|p| == 3 ==> p[2] == '_'))
  }

  /** A run of digits with no prefix is read as it stands. */
  lemma NoPrefix(s: string)
    requires s != [] && AllHexDigits(s)
    ensures DigitsValue(s).Some? && UnsignedValue(s) == DigitsValue(s)
  {
    GroupedValueOfDigits(s);
    assert IsHexDigit(s[0]);
    if |s| >= 2 {
      assert IsHexDigit(s[1]);
    }
  }

  /** A base prefix, with or without its underscore, leaves the digits' value unchanged. */
  lemma PrefixIgnored(prefix: string, s: string)
    requires IsBasePrefix(prefix)
    requires s != [] && AllHexDigits(s)
    ensures DigitsValue(s).Some? && UnsignedValue(prefix + s) == DigitsValue(s)
  {
    if prefix == [] {
      assert prefix + s == s;
      NoPrefix(s);
    } else {
      GroupedValueOfDigits(s);
      var u := prefix + s;
      assert u[0] == '0' && u[1] == prefix[1];
      assert u[2..] == prefix[2..] + s;
      assert IsHexDigit(s[0]);
      assert SkipUnderscore(u[2..]) == s;
    }
  }

  /** Without a sign, the value is read as it stands. */
  lemma UnsignedRead(u: string)
    requires u != [] && u[0] != '-' && u[0] != '+'
    ensures ParseHex(u) == if UnsignedValue(u).None? then None else Some(UnsignedValue(u).value as int)
  {
  }

  /** A leading `-` negates the value read after it, a leading `+` keeps it. */
  lemma SignedRead(sign: char, u: string)
    requires sign == '-' || sign == '+'
    ensures ParseHex([sign] + u) ==
              if UnsignedValue(u).None? then None
              else if sign == '-' then Some(-(UnsignedValue(u).value as int))
              else Some(UnsignedValue(u).value as int)
  {
    assert ([sign] + u)[0] == sign && ([sign] + u)[1..] == u;
  }

  /** With no sign, `+` or `-` in front of an unsigned spelling of v: v, v and -v. */
  lemma Signs(u: string, v: nat)
    requires u != [] && u[0] != '-' && u[0] != '+' && UnsignedValue(u) == Some(v)
    ensures ParseHex(u) == Some(v as int)
    ensures ParseHex("+" + u) == Some(v as int)
    ensures ParseHex("-" + u) == Some(-(v as int))
  {
    UnsignedRead(u);
    SignedRead('+', u);
    SignedRead('-', u);
    assert "+" + u == ['+'] + u && "-" + u == ['-'] + u;
  }

  /** A sign and a base prefix in front of hex digits are accepted: `-0x1f` is -31. */
  lemma ParseHexSignAndPrefix(prefix: string, s: string)
    requires IsBasePrefix(prefix)
    requires s != [] && AllHexDigits(s)
    ensures DigitsValue(s).Some?
    ensures ParseHex(prefix + s) == Some(DigitsValue(s).value as int)
    ensures ParseHex("+" + (prefix + s)) == Some(DigitsValue(s).value as int)
    ensures ParseHex("-" + (prefix + s)) == Some(-(DigitsValue(s).value as int))
  {
    PrefixIgnored(prefix, s);
    var u := prefix + s;
    assert u[0] == '0' || IsHexDigit(u[0]) by {
      if prefix == [] { assert u[0] == s[0] && IsHexDigit(s[0]); } else { assert u[0] == prefix[0]; }
    }
    Signs(u, DigitsValue(s).value);
  }

  /** A digit after a digit shifts the value read so far by one place. */
  lemma GroupedSnocDigit(x: string, c: char)
    requires x != [] && x[|x| - 1] != '_' && IsHexDigit(c)
    ensures GroupedValue(x + [c]) == Shift(GroupedValue(x), c)
  {
    var t := x + [c];
    assert |t| == |x| + 1;
    assert t[|t| - 1] == c;
    assert t[|t| - 2] == x[|x| - 1];
    assert GroupedValue(t) == Shift(GroupedValue(t[..|t| - 1]), c);
    assert t[..|t| - 1] == x;
  }

  /** So does a digit after a single underscore. */
  lemma GroupedSnocUnderscore(x: string, c: char)
    requires IsHexDigit(c)
    ensures GroupedValue(x + "_" + [c]) == Shift(GroupedValue(x), c)
  {
    var t := x + "_" + [c];
    assert |t| == |x| + 2;
    assert t[|t| - 1] == c;
    assert t[|t| - 2] == '_';
    assert GroupedValue(t) == Shift(GroupedValue(t[..|t| - 2]), c);
    assert t[..|t| - 2] == x;
  }

  lemma DigitsSnoc(x: string, c: char)
    requires IsHexDigit(c)
    ensures DigitsValue(x + [c]) == Shift(DigitsValue(x), c)
  {
    assert (x + [c])[..|x|] == x;
    assert (x + [c])[|x|] == c;
  }

  /** A single underscore between two runs of digits is accepted and ignored. */
  lemma {:induction false} UnderscoreBetween(a: string, b: string)
    requires a != [] && AllHexDigits(a) && b != [] && AllHexDigits(b)
    ensures GroupedValue(a + "_" + b) == DigitsValue(a + b)
    decreases |b|
  {
    var b', c := b[..|b| - 1], b[|b| - 1];
    var x := a + "_" + b';
    var y := a + b';
    assert a + "_" + b == x + [c];
    assert a + b == y + [c];
    assert IsHexDigit(c);
    DigitsSnoc(y, c);
    if b' == [] {
      assert x == a + "_" && y == a;
      GroupedValueOfDigits(a);
      GroupedSnocUnderscore(a, c);
    } else {
      UnderscoreBetween(a, b');
      assert x[|x| - 1] == b'[|b'| - 1];
      GroupedSnocDigit(x, c);
    }
  }

  /** Two underscores in a row are refused by the digit reader, whatever follows. */
  lemma {:induction false} DoubledUnderscore(a: string, b: string)
    requires AllHexDigits(b)
    ensures GroupedValue(a + "__" + b) == None
    decreases |b|
  {
    var t := a + "__" + b;
    if b != [] {
      var b', c := b[..|b| - 1], b[|b| - 1];
      assert t[..|t| - 1] == a + "__" + b' && t[|t| - 1] == c;
      DoubledUnderscore(a, b');
      if b' == [] {
        assert a + "__" + b' == (a + "_") + "_";
        var f := a + "__";
        assert f[..|f| - 1] == a + "_";
        assert (a + "_")[|a + "_"| - 1] == '_';
      } else {
        assert (a + "__" + b')[|a + "__" + b'| - 1] == b'[|b'| - 1];
      }
    } else {
      assert t[|t| - 1] == '_';
    }
  }

  /** So `int(s, 16)` reads two runs of digits with one `_` between them as the joined digits. */
  lemma UnderscoreAccepted(a: string, b: string)
    requires a != [] && AllHexDigits(a) && b != [] && AllHexDigits(b)
    ensures DigitsValue(a + b).Some? && ParseHex(a + "_" + b) == Some(DigitsValue(a + b).value as int)
  {
    var t := a + "_" + b;
    UnderscoreBetween(a, b);
    assert AllHexDigits(a + b) by {
      forall i | 0 <= i < |a + b| ensures IsHexDigit((a + b)[i]) {
        if i >= |a| { assert (a + b)[i] == b[i - |a|]; }
      }
    }
    ParseHexOfDigits(a + b);
    GroupedValueOfDigits(a + b);
    assert t[0] == a[0] && IsHexDigit(a[0]);
    assert t[1] == if |a| >= 2 then a[1] else '_';
    assert |a| >= 2 ==> IsHexDigit(a[1]);
    assert !HasHexPrefix(t);
  }

  /** So `int(s, 16)` fails on two runs of digits with `__` between them. */
  lemma DoubledUnderscoreFails(a: string, b: string)
    requires a != [] && AllHexDigits(a) && AllHexDigits(b)
    ensures ParseHex(a + "__" + b) == None
  {
    var t := a + "__" + b;
    DoubledUnderscore(a, b);
    assert t[0] == a[0] && IsHexDigit(a[0]);
    assert t[1] == if |a| >= 2 then a[1] else '_';
    assert |a| >= 2 ==> IsHexDigit(a[1]);
    assert !HasHexPrefix(t);
  }

  /** `format(v, 'x')`: the shortest lowercase hex spelling of v. */
  function ToHex(v: nat): (s: string)
    ensures s != [] && AllLowerHexDigits(s)
  {
    (if v < 16 then [] else ToHex(v / 16)) + [DigitChar(v % 16)]
  }

  /** `format(v, '0Nx')`: `format(v, 'x')` left-padded with '0' to width N, never truncated. */
  function FormatHex(v: nat, width: nat): (r: string)
    ensures |r| >= width && r != [] && AllLowerHexDigits(r)
    ensures DigitsValue(r) == Some(v)
  {
    var h := ToHex(v);
    DigitsValueOfToHex(v);
    if |h| < width then
      var z := seq(width - |h|, _ => '0');
      DigitsValueLeadingZeros(z, h);
      assert forall i | 0 <= i < |z + h| :: IsLowerHexDigit((z + h)[i]) by {
        forall i | 0 <= i < |z + h| ensures IsLowerHexDigit((z + h)[i]) {
          if i >= |z| { assert (z + h)[i] == h[i - |z|]; }
        }
      }
      z + h
    else h
  }

  lemma {:induction false} DigitsValueOfToHex(v: nat)
    ensures DigitsValue(ToHex(v)) == Some(v)
  {
    var pre: string := if v < 16 then [] else ToHex(v / 16);
    var c := DigitChar(v % 16);
    var s := ToHex(v);
    assert s == pre + [c];
    assert s[..|s| - 1] == pre && s[|s| - 1] == c;
    if v >= 16 {
      DigitsValueOfToHex(v / 16);
    }
    assert DigitsValue(pre) == Some(v / 16);
  }

  lemma {:induction false} DigitsValueOfZeros(z: string)
    requires forall i | 0 <= i < |z| :: z[i] == '0'
    ensures DigitsValue(z) == Some(0)
  {
    if z != [] {
      DigitsValueOfZeros(z[..|z| - 1]);
    }
  }

  /** Leading zeros do not change the value a digit string spells. */
  lemma {:induction false} DigitsValueLeadingZeros(z: string, s: string)
    requires forall i | 0 <= i < |z| :: z[i] == '0'
    ensures DigitsValue(z + s) == DigitsValue(s)
  {
    if s == [] {
      assert z + s == z;
      DigitsValueOfZeros(z);
    } else {
      var s' := s[..|s| - 1];
      assert (z + s)[..|z + s| - 1] == z + s' && (z + s)[|z + s| - 1] == s[|s| - 1];
      DigitsValueLeadingZeros(z, s');
    }
  }

  /** `format(v, 'x')` never needs more than n digits when v < 16^n. */
  lemma {:induction false} ToHexLength(v: nat, n: nat)
    requires n >= 1 && v < Pow16(n)
    ensures |ToHex(v)| <= n
  {
    if v >= 16 {
      assert n >= 2;
      assert v / 16 < Pow16(n - 1);
      ToHexLength(v / 16, n - 1);
    }
  }

  /** What `format(v, '0Nx')` writes, `int(_, 16)` reads back as v. */
  lemma FormatHexParses(v: nat, width: nat)
    ensures AllLowerHexDigits(FormatHex(v, width))
    ensures ParseHex(FormatHex(v, width)) == Some(v)
  {
    LowerAreHex(FormatHex(v, width));
    ParseHexOfDigits(FormatHex(v, width));
  }

  lemma LowerAreHex(s: string)
    requires AllLowerHexDigits(s)
    ensures AllHexDigits(s)
  {
    forall i | 0 <= i < |s|
      ensures IsHexDigit(s[i])
    {
      assert IsLowerHexDigit(s[i]);
    }
  }

  /** For v < 16^N, `format(v, '0Nx')` is exactly N characters. */
  lemma FormatHexWidth(v: nat, width: nat)
    requires width >= 1 && v < Pow16(width)
    ensures |FormatHex(v, width)| == width
  {
    ToHexLength(v, width);
  }

  /** A byte value formatted with '02x' is two lowercase digits that read back as it. */
  lemma ByteToken(v: nat)
    requires v < 256
    ensures |FormatHex(v, 2)| == 2 && AllLowerHexDigits(FormatHex(v, 2))
    ensures ParseHex(FormatHex(v, 2)) == Some(v)
  {
    Pow2Facts();
    FormatHexWidth(v, 2);
    FormatHexParses(v, 2);
  }

  /** `format(w & 0xFF, '02x')` */
  function Token8(w: int): string
  {
    FormatHex(Mask8(w), 2)
  }

  /** `format(b & 0xFFFF, '04x')` */
  function Token16(b: int): string
  {
    FormatHex(Mask16(b), 4)
  }

  /**
   * A weight token is two lowercase hex digits holding `w & 0xFF`, and a
   * weight in [-128, 127] is recovered from it by the signed reading.
   */
  lemma Token8Decodes(w: int)
    ensures |Token8(w)| == 2 && AllLowerHexDigits(Token8(w))
    ensures ParseHex(Token8(w)) == Some(Mask8(w))
    ensures Mask8(w) == w % 256
    ensures -128 <= w < 128 ==> ToSigned(Mask8(w), 8) == w
  {
    Pow2Facts();
    LowBitsIsMod(w, 8);
    ByteToken(Mask8(w));
    if -128 <= w < 128 {
      SignRecovered(w, 8);
    }
  }

  /** Weights that differ by 256 are written identically: the mask wraps. */
  lemma Token8Wraps(w: int)
    ensures Token8(w + 256) == Token8(w)
  {
    Pow2Facts();
    LowBitsWraps(w, 8);
  }

  /**
   * A bias token is exactly four lowercase hex digits holding `b & 0xFFFF`,
   * and a bias in [-32768, 32767] is recovered as a 16-bit signed value.
   */
  lemma Token16Decodes(b: int)
    ensures |Token16(b)| == 4 && AllLowerHexDigits(Token16(b))
    ensures ParseHex(Token16(b)) == Some(Mask16(b))
    ensures Mask16(b) == b % 65536
    ensures -32768 <= b < 32768 ==> ToSigned(Mask16(b), 16) == b
  {
    Pow2Facts();
    LowBitsIsMod(b, 16);
    FormatHexWidth(Mask16(b), 4);
    FormatHexParses(Mask16(b), 4);
    if -32768 <= b < 32768 {
      SignRecovered(b, 16);
    }
  }

  /** Biases that differ by 65536 are written identically. */
  lemma Token16Wraps(b: int)
    ensures Token16(b + 65536) == Token16(b)
  {
    Pow2Facts();
    LowBitsWraps(b, 16);
  }

  /** Two kernel weights as the export writes them: -85 becomes `ab`, 127 becomes `7f`. */
  lemma WeightTokenExamples()
    ensures Token8(-85) == "ab" && Token8(127) == "7f"
  {
    Token8OfTwoDigits(-85, 171);
    Token8OfTwoDigits(127, 127);
  }

  /** A weight whose byte v has two hex digits is written as those two digits. */
  lemma Token8OfTwoDigits(w: int, v: nat)
    requires v == w % 256 && 16 <= v
    ensures Token8(w) == [DigitChar(v / 16), DigitChar(v % 16)]
  {
    TwoDigitHex(v);
  }

  /** A value in [16, 256) is written as its two hex digits. */
  lemma TwoDigitHex(v: nat)
    requires 16 <= v < 256
    ensures FormatHex(v, 2) == [DigitChar(v / 16), DigitChar(v % 16)]
  {
    assert ToHex(v / 16) == [DigitChar(v / 16)];
    assert ToHex(v) == ToHex(v / 16) + [DigitChar(v % 16)];
  }

  /** `x & 0xFF` and `x & 0xFFFF` with the literal masks of `train_model.py`: reduction modulo mask + 1, masks of 8 and 16 low ones. */
  lemma MasksAreLowOnes(x: int)
    ensures BYTE_MASK == Pow2(8) - 1 && WORD_MASK == Pow2(16) - 1
    ensures Mask8(x) == x % (BYTE_MASK + 1) && Mask16(x) == x % (WORD_MASK + 1)
  {
    Pow2Facts();
    LowBitsIsMod(x, 8);
    LowBitsIsMod(x, 16);
  }
}
