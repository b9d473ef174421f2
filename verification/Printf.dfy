/**
 * The integer printer (printf.c:198-321) and the number parsers it is read back with (utils.c:15-22 and 231-322).
 */
module Printf {
  import opened Arith

  const BUFFER_SIZE: nat := 32       // PRINTF_NTOA_BUFFER_SIZE
  const WORD: nat := 0x1_0000_0000_0000_0000

  datatype Flags = Flags(left: bool, zeropad: bool, hash: bool, plus: bool, space: bool, upper: bool, precision: bool)

  // ---- digits ------------------------------------------------------------------------

  function Digit(d: nat, upper: bool): (c: char)
    requires d < 16
    ensures DigitValue(c) == d && IsHex(c) && (d < 10 ==> '0' <= c <= '9') && c != '\0'
  {
    if d < 10 then '0' + d as char else if upper then 'A' + (d - 10) as char else 'a' + (d - 10) as char
  }

  predicate IsHex(c: char)
  {
    '0' <= c <= '9' || 'a' <= c <= 'f' || 'A' <= c <= 'F'
  }

  function DigitValue(c: char): (d: nat)
    ensures d < 16
  {
    if '0' <= c <= '9' then (c - '0') as nat
    else if 'a' <= c <= 'f' then (c - 'a') as nat + 10
    else if 'A' <= c <= 'F' then (c - 'A') as nat + 10 else 0
  }

  /** The digits of a number, lowest first; 0 has one. */
  function Digits(v: nat, base: nat, upper: bool): (ds: seq<char>)
    requires 2 <= base <= 16
    ensures |ds| > 0
    decreases v
  {
    if v < base then [Digit(v, upper)] else [Digit(v % base, upper)] + Digits(v / base, base, upper)
  }

  /** What digits, lowest first, are worth. */
  function Worth(ds: seq<char>, base: nat): nat
  {
    if ds == [] then 0 else DigitValue(ds[0]) + base * Worth(ds[1..], base)
  }

  lemma {:induction false} DigitsWorth(v: nat, base: nat, upper: bool)
    requires 2 <= base <= 16
    ensures Worth(Digits(v, base, upper), base) == v
    decreases v
  {
    if v >= base {
      DigitsWorth(v / base, base, upper);
      WorthStep(Digit(v % base, upper), Digits(v / base, base, upper), base);
      QuotientRest(v, base);
    } else {
      WorthStep(Digit(v, upper), [], base);
    }
  }

  lemma WorthStep(c: char, ds: seq<char>, base: nat)
    ensures Worth([c] + ds, base) == DigitValue(c) + base * Worth(ds, base)
    ensures ds == [] ==> Worth([c] + ds, base) == DigitValue(c) == Worth([c], base)
  {
    assert ([c] + ds)[1..] == ds;
    if ds == [] { assert [c] + ds == [c]; }
  }

  lemma QuotientRest(v: nat, base: nat)
    requires base > 0
    ensures v == v % base + base * (v / base)
  {
  }

  lemma {:induction false} DigitsAre(v: nat, base: nat, upper: bool)
    requires 2 <= base <= 16
    ensures forall i :: 0 <= i < |Digits(v, base, upper)| ==>
              var c := Digits(v, base, upper)[i]; IsHex(c) && (base <= 10 ==> '0' <= c <= '9')
    decreases v
  {
    hide Digit, DigitValue;
    if v >= base {
      DigitsAre(v / base, base, upper);
      var rest := Digits(v / base, base, upper);
      forall i | 0 <= i < |rest| + 1
        ensures var c := ([Digit(v % base, upper)] + rest)[i]; IsHex(c) && (base <= 10 ==> '0' <= c <= '9')
      {
      }
    }
  }

  /** A number has at most k digits exactly when it is below base^k. */
  lemma {:induction false} DigitCount(v: nat, base: nat, upper: bool, k: nat)
    requires 2 <= base <= 16 && k >= 1
    ensures |Digits(v, base, upper)| <= k <==> v < Pow(base, k)
    decreases k
  {
    if k == 1 {
      assert Pow(base, 1) == base * Pow(base, 0) == base;
    } else {
      DigitCount(v / base, base, upper, k - 1);
      QuotientBelow(v, base, Pow(base, k - 1));
    }
  }

  lemma QuotientBelow(v: nat, b: nat, p: nat)
    requires b > 0 && p >= 1
    ensures v / b < p <==> v < b * p
    ensures v < b ==> v < b * p
  {
    var q, r := v / b, v % b;
    assert v == b * q + r;
    if q < p {
      assert b * (q + 1) <= b * p;
    } else {
      assert b * p <= b * q;
    }
    assert b * 1 <= b * p;
  }

  /** The 32-character buffer holds every 64-bit number in bases 8, 10 and 16. */
  lemma BufferLargeEnough(v: nat, base: nat, upper: bool)
    requires v < WORD && (base == 8 || base == 10 || base == 16)
    ensures |Digits(v, base, upper)| <= 22 < BUFFER_SIZE
  {
    DigitCount(v, base, upper, 22);
    PowOver();
  }

  lemma PowOver()
    ensures Pow(8, 22) > WORD && Pow(10, 22) > WORD && Pow(16, 22) > WORD
  {
    PowSplit(8, 11, 11);
    PowSplit(10, 11, 11);
    PowSplit(16, 11, 11);
    assert Pow(8, 11) == 0x2_0000_0000 by { assert Pow(8, 4) == 4096; assert Pow(8, 8) == 0x100_0000; }
    assert Pow(10, 11) == 100_000_000_000 by { assert Pow(10, 4) == 10000; assert Pow(10, 8) == 100_000_000; }
    assert Pow(16, 11) == 0x1000_0000_0000 by { assert Pow(16, 4) == 0x1_0000; assert Pow(16, 8) == 0x1_0000_0000; }
  }

  lemma {:induction false} PowSplit(b: nat, j: nat, k: nat)
    ensures Pow(b, j + k) == Pow(b, j) * Pow(b, k)
  {
    if j > 0 {
      PowSplit(b, j - 1, k);
      Associate(b, Pow(b, j - 1), Pow(b, k));
    } else {
      assert Pow(b, 0) * Pow(b, k) == Pow(b, k);
    }
  }

  lemma Associate(b: nat, x: nat, y: nat)
    ensures b * (x * y) == (b * x) * y
  {
  }

  /** In base 2 it is too small exactly for numbers of more than 32 bits, whose high digits are lost. */
  lemma BinaryCut(v: nat, upper: bool)
    ensures |Digits(v, 2, upper)| > BUFFER_SIZE <==> v >= 0x1_0000_0000
  {
    DigitCount(v, 2, upper, 32);
    PowSplit(2, 16, 16);
    assert Pow(2, 16) == 0x1_0000 by { assert Pow(2, 4) == 16; assert Pow(2, 8) == 256; assert Pow(2, 12) == 4096; }
  }

  // ---- the printed text ----------------------------------------------------------------

  function Fill(c: char, n: nat): (s: seq<char>)
    ensures |s| == n && forall i :: 0 <= i < n ==> s[i] == c
  {
    if n == 0 then [] else Fill(c, n - 1) + [c]
  }

  function PadTo(buf: seq<char>, n: nat): seq<char>
  {
    if |buf| < n then buf + Fill('0', n - |buf|) else buf
  }

  function Reverse(s: seq<char>): (r: seq<char>)
    ensures |r| == |s|
  {
    if s == [] then [] else Reverse(s[1..]) + [s[0]]
  }

  /** The characters _ntoa_long puts in its buffer, lowest digit first. */
  function Raw(value: nat, base: nat, flags: Flags): seq<char>
    requires 2 <= base <= 16
  {
    if flags.precision && value == 0 then []
    else var ds := Digits(value, base, flags.upper); ds[..Min(|ds|, BUFFER_SIZE)]
  }

  function Width(negative: bool, width: nat, flags: Flags): nat
  {
    if !flags.left && width > 0 && flags.zeropad && (negative || flags.plus || flags.space) then width - 1 else width
  }

  /** Leading zeros, which come last in the reversed buffer. */
  function Padded(buf: seq<char>, prec: nat, width: nat, flags: Flags): seq<char>
  {
    if flags.left then buf
    else
      var b := PadTo(buf, Min(prec, BUFFER_SIZE));
      if flags.zeropad then PadTo(b, Min(width, BUFFER_SIZE)) else b
  }

  function Put(buf: seq<char>, c: char): seq<char>
  {
    if |buf| < BUFFER_SIZE then buf + [c] else buf
  }

  /** The base's prefix, which may overwrite padding zeros. */
  function Hashed(buf: seq<char>, base: nat, prec: nat, width: nat, flags: Flags): seq<char>
  {
    if !flags.hash then buf
    else
      var n := |buf|;
      var cut := if !flags.precision && n > 0 && (n == prec || n == width) then (if n - 1 > 0 && base == 16 then n - 2 else n - 1) else n;
      var b := buf[..cut];
      var b1 := if base == 16 then Put(b, if flags.upper then 'X' else 'x') else if base == 2 then Put(b, 'b') else b;
      Put(b1, '0')
  }

  function SignOf(buf: seq<char>, negative: bool, flags: Flags): seq<char>
  {
    if negative then Put(buf, '-') else if flags.plus then Put(buf, '+') else if flags.space then Put(buf, ' ') else buf
  }

  /** Reversed, with spaces up to the width. */
  function Emitted(buf: seq<char>, width: nat, flags: Flags): seq<char>
  {
    var blanks := if |buf| < width then Fill(' ', width - |buf|) else [];
    if flags.left then Reverse(buf) + blanks else if flags.zeropad then Reverse(buf) else blanks + Reverse(buf)
  }

  /** What printing an integer sends to the output. */
  function Rendered(value: nat, negative: bool, base: nat, prec: nat, width: nat, flags: Flags): seq<char>
    requires 2 <= base <= 16
  {
    var fl := if value == 0 then flags.(hash := false) else flags;
    var w := Width(negative, width, fl);
    Emitted(SignOf(Hashed(Padded(Raw(value, base, fl), prec, w, fl), base, prec, w, fl), negative, fl), w, fl)
  }

  // ---- the printer ------------------------------------------------------------------------

  /** _out_rev */
  method OutRev(buf: array<char>, len: nat, width: nat, flags: Flags) returns (s: seq<char>)
    requires len <= buf.Length
    ensures s == Emitted(buf[..len], width, flags)
  {
    s := [];
    if !flags.left && !flags.zeropad {
      s := Blanks(s, len, width);
    }
    ghost var blanks := s;
    var rest: nat := len;
    while rest > 0
      invariant rest <= len && s == blanks + Reverse(buf[rest..len])
    {
      rest := rest - 1;
      s := s + [buf[rest]];
      assert buf[rest..len][1..] == buf[rest + 1..len];
    }
    assert buf[0..len] == buf[..len];
    if flags.left {
      s := Blanks(s, |s|, width);
    }
  }

  /** Spaces from a position up to the width. */
  method Blanks(s0: seq<char>, from: nat, width: nat) returns (s: seq<char>)
    ensures s == s0 + if from < width then Fill(' ', width - from) else []
  {
    s := s0;
    var i: nat := from;
    while i < width
      invariant from <= i && (if from < width then i <= width else i == from) && s == s0 + Fill(' ', i - from)
    {
      s := s + [' '];
      i := i + 1;
    }
  }

  /** _ntoa_format: zeros, prefix and sign go behind the reversed digits. */
  method NtoaFormat(buf: array<char>, len0: nat, negative: bool, base: nat, prec: nat, width0: nat, flags: Flags)
    returns (s: seq<char>)
    requires buf.Length == BUFFER_SIZE && len0 <= BUFFER_SIZE
    modifies buf
    ensures var w := Width(negative, width0, flags);
            s == Emitted(SignOf(Hashed(Padded(old(buf[..len0]), prec, w, flags), base, prec, w, flags), negative, flags), w, flags)
  {
    hide Hashed, PadTo, Emitted;
    var len, width: nat := len0, width0;
    if !flags.left {
      if width > 0 && flags.zeropad && (negative || flags.plus || flags.space) {
        width := width - 1;
      }
      len := AddZeros(buf, len, prec);
      if flags.zeropad {
        len := AddZeros(buf, len, width);
      }
    }
    ghost var w := Width(negative, width0, flags);
    ghost var padded := buf[..len];
    assert width == w && padded == Padded(old(buf[..len0]), prec, w, flags);
    len := AddPrefix(buf, len, base, prec, width, flags);
    ghost var hashed := buf[..len];
    if len < BUFFER_SIZE {
      if negative {
        len := Append(buf, len, '-');
      } else if flags.plus {
        len := Append(buf, len, '+');
      } else if flags.space {
        len := Append(buf, len, ' ');
      }
    }
    assert buf[..len] == SignOf(hashed, negative, flags);
    s := OutRev(buf, len, width, flags);
  }

  /** The part of _ntoa_format that marks the base. */
  method AddPrefix(buf: array<char>, len0: nat, base: nat, prec: nat, width: nat, flags: Flags) returns (len: nat)
    requires buf.Length == BUFFER_SIZE && len0 <= BUFFER_SIZE
    modifies buf
    ensures len <= BUFFER_SIZE && buf[..len] == Hashed(old(buf[..len0]), base, prec, width, flags)
  {
    len := len0;
    if flags.hash {
      if !flags.precision && len > 0 && (len == prec || len == width) {
        len := len - 1;
        if len > 0 && base == 16 {
          len := len - 1;
        }
      }
      assert buf[..len] == buf[..len0][..len];
      if base == 16 && !flags.upper && len < BUFFER_SIZE {
        len := Append(buf, len, 'x');
      } else if base == 16 && flags.upper && len < BUFFER_SIZE {
        len := Append(buf, len, 'X');
      } else if base == 2 && len < BUFFER_SIZE {
        len := Append(buf, len, 'b');
      }
      if len < BUFFER_SIZE {
        len := Append(buf, len, '0');
      }
    }
  }

  /** buf[len++] = c */
  method Append(buf: array<char>, len: nat, c: char) returns (n: nat)
    requires len < buf.Length
    modifies buf
    ensures n == len + 1 && buf[..n] == old(buf[..len]) + [c]
  {
    buf[len] := c;
    n := len + 1;
  }

  /** The loops that append zeros up to a length, or as far as the buffer goes. */
  method AddZeros(buf: array<char>, len0: nat, goal: nat) returns (len: nat)
    requires buf.Length == BUFFER_SIZE && len0 <= BUFFER_SIZE
    modifies buf
    ensures len <= BUFFER_SIZE && buf[..len] == PadTo(old(buf[..len0]), Min(goal, BUFFER_SIZE))
  {
    len := len0;
    while len < goal && len < BUFFER_SIZE
      invariant len0 <= len <= BUFFER_SIZE && (len0 < len ==> len <= goal)
      invariant buf[..len] == old(buf[..len0]) + Fill('0', len - len0)
    {
      len := Append(buf, len, '0');
    }
  }

  /** The loop of _ntoa_long: digits lowest first, as far as the buffer goes. */
  method WriteDigits(buf: array<char>, value0: nat, base: nat, upper: bool) returns (len: nat)
    requires buf.Length == BUFFER_SIZE && 2 <= base <= 16
    modifies buf
    ensures len <= BUFFER_SIZE && len == Min(|Digits(value0, base, upper)|, BUFFER_SIZE)
    ensures buf[..len] == Digits(value0, base, upper)[..len]
  {
    hide Digit;
    ghost var ds := Digits(value0, base, upper);
    var value: nat := value0;
    len := 0;
    var more := true;
    while more
      invariant len <= BUFFER_SIZE && len <= |ds| && buf[..len] == ds[..len]
      invariant if len < |ds| then ds[len..] == Digits(value, base, upper) else value == 0
      invariant more == ((len == 0 || value != 0) && len < BUFFER_SIZE)
      invariant value != 0 ==> len < |ds|
      invariant value == 0 && len > 0 ==> len == |ds|
      decreases BUFFER_SIZE - len
    {
      ghost var rest := ds[len..];
      DigitsStep(value, base, upper);
      assert ds[len] == rest[0] && ds[len + 1..] == rest[1..] && ds[..len + 1] == ds[..len] + [ds[len]];
      len := Append(buf, len, Digit(value % base, upper));
      value := value / base;
      more := value != 0 && len < BUFFER_SIZE;
    }
  }

  lemma DigitsStep(v: nat, base: nat, upper: bool)
    requires 2 <= base <= 16
    ensures var ds := Digits(v, base, upper);
      ds[0] == Digit(v % base, upper) && (if v / base == 0 then ds[1..] == [] else ds[1..] == Digits(v / base, base, upper))
  {
    hide Digit;
    SmallQuotient(v, base);
    if v >= base {
      var rest := Digits(v / base, base, upper);
      assert ([Digit(v % base, upper)] + rest)[1..] == rest;
    }
  }

  lemma SmallQuotient(v: nat, base: nat)
    requires base > 0
    ensures v < base <==> v / base == 0
    ensures v < base ==> v % base == v
  {
    QuotientBelow(v, base, 1);
  }

  /** _ntoa_long */
  method NtoaLong(value: nat, negative: bool, base: nat, prec: nat, width: nat, flags0: Flags) returns (s: seq<char>)
    requires 2 <= base <= 16 && value < WORD
    ensures s == Rendered(value, negative, base, prec, width, flags0)
  {
    hide Emitted, SignOf, Hashed, Padded, Width;
    var buf := new char[BUFFER_SIZE];
    var len: nat, flags := 0, flags0;
    if value == 0 {
      flags := flags.(hash := false);
    }
    if !flags.precision || value != 0 {
      len := WriteDigits(buf, value, base, flags.upper);
    }
    assert buf[..len] == Raw(value, base, flags);
    s := NtoaFormat(buf, len, negative, base, prec, width, flags);
  }

  // ---- the parsers ---------------------------------------------------------------------------

  /** The character at an index of a C string; its end reads as NUL. */
  function CharAt(a: seq<char>, i: nat): char
  {
    if i < |a| then a[i] else '\0'
  }

  /** mstrlen */
  function Mstrlen(a: seq<char>, i: nat): (n: nat)
    requires i <= |a| && forall j :: 0 <= j < |a| ==> a[j] != '\0'
    ensures n == |a| - i
    decreases |a| - i
  {
    if CharAt(a, i) == '\0' then 0 else 1 + Mstrlen(a, i + 1)
  }

  /** What a numeral, highest digit first, is worth. */
  function Numeral(a: seq<char>, base: nat): nat
  {
    if a == [] then 0 else Numeral(a[..|a| - 1], base) * base + DigitValue(a[|a| - 1])
  }

  predicate AllHex(a: seq<char>) { forall i :: 0 <= i < |a| ==> IsHex(a[i]) }

  predicate AllDecimal(a: seq<char>) { forall i :: 0 <= i < |a| ==> '0' <= a[i] <= '9' }

  /** The text after an optional 0x or 0X. */
  function AfterPrefix(a: seq<char>): seq<char>
  {
    if CharAt(a, 0) == '0' && (CharAt(a, 1) == 'x' || CharAt(a, 1) == 'X') then a[2..] else a
  }

  /** What matox makes of a text: its value modulo 2^64, or 0 when a character is no hexadecimal digit. */
  function MatoxOf(a: seq<char>): nat
  {
    if AllHex(AfterPrefix(a)) then Numeral(AfterPrefix(a), 16) % WORD else 0
  }

  /** A 32-bit word read as a signed number. */
  function Signed(x: int): (r: int)
    ensures -0x8000_0000 <= r < 0x8000_0000 && (-0x8000_0000 <= x < 0x8000_0000 ==> r == x)
  {
    (x + 0x8000_0000) % 0x1_0000_0000 - 0x8000_0000
  }

  /** What matoi makes of a text, with 32-bit arithmetic that wraps around; 0 when a character is no decimal digit. */
  function MatoiOf(a: seq<char>): int
  {
    var text := if CharAt(a, 0) == '-' then a[1..] else a;
    if !AllDecimal(text) then 0
    else if CharAt(a, 0) == '-' then Signed(-Signed(Numeral(text, 10))) else Signed(Numeral(text, 10))
  }

  /** Adding the digits from the last one on, each times its power, modulo m. */
  method Accumulate(a: seq<char>, base: nat, m: nat) returns (result: nat)
    requires m > 0 && base > 0
    ensures result == Numeral(a, base) % m
  {
    var i: int := |a| - 1;
    var power: nat := 1 % m;
    result := 0;
    while i >= 0
      invariant -1 <= i < |a|
      invariant power == Pow(base, |a| - 1 - i) % m
      invariant result == Numeral(a[i + 1..], base) % m
    {
      Leading(a[i], a[i + 1..], base);
      assert a[i..] == [a[i]] + a[i + 1..];
      StepModulo(Pow(base, |a| - 1 - i), Numeral(a[i + 1..], base), DigitValue(a[i]), base, m);
      result := (result + power * DigitValue(a[i])) % m;
      power := power * base % m;
      i := i - 1;
    }
    assert a[0..] == a;
  }

  /** A digit in front counts its power. */
  lemma {:induction false} Leading(c: char, a: seq<char>, base: nat)
    ensures Numeral([c] + a, base) == Pow(base, |a|) * DigitValue(c) + Numeral(a, base)
  {
    if a == [] {
      assert ([c] + a)[..0] == [] && [c] + a == [c];
      assert Numeral([], base) * base == 0;
    } else {
      var init, d := a[..|a| - 1], DigitValue(a[|a| - 1]);
      assert ([c] + a)[..|a|] == [c] + init;
      Leading(c, init, base);
      Distribute(Pow(base, |init|), DigitValue(c), Numeral(init, base), base);
    }
  }

  lemma Distribute(p: nat, c: nat, n: nat, base: nat)
    ensures (p * c + n) * base == (base * p) * c + n * base
  {
  }

  lemma StepModulo(p: nat, n: nat, c: nat, base: nat, m: nat)
    requires m > 0
    ensures (n % m + (p % m) * c) % m == (p * c + n) % m
    ensures (p % m) * base % m == base * p % m
  {
    ProductModulo(p, c, m);
    ProductModulo(p, base, m);
    SumModulo(n, (p % m) * c, m);
    SumModulo(p * c, n, m);
    assert base * p == p * base;
  }

  lemma SumModulo(x: nat, y: nat, m: nat)
    requires m > 0
    ensures (x % m + y) % m == (x + y) % m == (x % m + y % m) % m
  {
    Shift(x / m, x % m + y, m);
    assert x + y == x / m * m + (x % m + y);
    Shift(y / m, x % m + y % m, m);
    assert x % m + y == y / m * m + (x % m + y % m);
  }

  lemma {:induction false} Shift(q: nat, r: nat, m: nat)
    requires m > 0
    ensures (q * m + r) % m == r % m
  {
    if q > 0 {
      Shift(q - 1, r, m);
      assert q * m + r == (q - 1) * m + r + m;
      AddModulus((q - 1) * m + r, m);
    } else {
      assert q * m == 0;
    }
  }

  lemma AddModulus(x: nat, m: nat)
    requires m > 0
    ensures (x + m) % m == x % m
  {
    AsQuotient(x, m);
    AsQuotient(x + m, m);
  }

  lemma ProductModulo(p: nat, c: nat, m: nat)
    requires m > 0
    ensures (p % m) * c % m == p * c % m
  {
    assert p == p / m * m + p % m;
    assert p * c == (p / m * c) * m + (p % m) * c;
    Shift(p / m * c, (p % m) * c, m);
  }

  /** matox */
  method Matox(a0: seq<char>) returns (result: nat)
    requires forall j :: 0 <= j < |a0| ==> a0[j] != '\0'
    ensures result == MatoxOf(a0)
    ensures result == if AllHex(AfterPrefix(a0)) then Numeral(AfterPrefix(a0), 16) % 0x1_0000_0000_0000_0000 else 0
  {
    var a := a0;
    if CharAt(a, 0) == '0' {
      if CharAt(a, 1) == 'x' || CharAt(a, 1) == 'X' {
        a := a[2..];
      }
    }
    var len: nat := 0;
    while IsHex(CharAt(a, len))
      invariant len <= |a| && AllHex(a[..len])
      decreases |a| - len
    {
      len := len + 1;
    }
    if len != Mstrlen(a, 0) {
      assert !IsHex(a[len]);
      return 0;
    }
    assert a[..len] == a;
    result := Accumulate(a, 16, WORD);
  }

  /** matoi */
  method Matoi(a0: seq<char>) returns (result: int)
    requires forall j :: 0 <= j < |a0| ==> a0[j] != '\0'
    ensures result == MatoiOf(a0)
  {
    var a, negate := a0, false;
    if CharAt(a, 0) == '-' {
      negate := true;
      a := a[1..];
    }
    var len: nat := 0;
    while '0' <= CharAt(a, len) <= '9'
      invariant len <= |a| && AllDecimal(a[..len])
      decreases |a| - len
    {
      len := len + 1;
    }
    if len != Mstrlen(a, 0) {
      assert !('0' <= a[len] <= '9');
      return 0;
    }
    assert a[..len] == a;
    var magnitude := Accumulate(a, 10, 0x1_0000_0000);
    SignedModulo(Numeral(a, 10));
    result := Signed(magnitude);
    if negate {
      result := Signed(-result);
    }
  }

  lemma SignedModulo(x: nat)
    ensures Signed(x % 0x1_0000_0000) == Signed(x)
  {
  }

  // ---- the round trips -------------------------------------------------------------------------

  lemma {:induction false} NumeralReversed(ds: seq<char>, base: nat)
    ensures Numeral(Reverse(ds), base) == Worth(ds, base)
  {
    if ds != [] {
      NumeralReversed(ds[1..], base);
      var r := Reverse(ds[1..]);
      assert (r + [ds[0]])[..|r|] == r;
      assert Numeral(r, base) * base == base * Worth(ds[1..], base);
    }
  }

  /** Zeros above the highest digit are worth nothing. */
  lemma {:induction false} WorthPadded(ds: seq<char>, n: nat, base: nat)
    ensures Worth(ds + Fill('0', n), base) == Worth(ds, base)
    decreases |ds|, n
  {
    if ds != [] {
      assert (ds + Fill('0', n))[1..] == ds[1..] + Fill('0', n);
      WorthPadded(ds[1..], n, base);
    } else if n > 0 {
      assert [] + Fill('0', n) == Fill('0', n);
      assert Fill('0', n)[1..] == Fill('0', n - 1);
      assert [] + Fill('0', n - 1) == Fill('0', n - 1);
      WorthPadded([], n - 1, base);
      assert base * Worth(Fill('0', n - 1), base) == 0;
    } else {
      assert ds + Fill('0', 0) == ds;
    }
  }

  lemma {:induction false} ReverseAt(s: seq<char>, i: nat)
    requires i < |s|
    ensures Reverse(s)[|s| - 1 - i] == s[i]
  {
    if i > 0 {
      ReverseAt(s[1..], i - 1);
    }
  }

  /** Zero padding only, or none and no width: what is left of the format is the digits and a sign. */
  predicate Plain(width: nat, flags: Flags)
  {
    !flags.left && !flags.hash && !flags.plus && !flags.space && !flags.precision && (flags.zeropad || width == 0)
  }

  /** %x, %d and the like, and the same with zero padding to any width. */
  lemma PlainFormats(width: nat, upper: bool)
    ensures Plain(0, Flags(false, false, false, false, false, upper, false))
    ensures Plain(width, Flags(false, true, false, false, false, upper, false))
  {
  }

  /** A plain rendering is the sign and the digits, highest first, behind some zeros. */
  lemma PlainIs(value: nat, negative: bool, base: nat, width: nat, flags: Flags) returns (n: nat)
    requires value < WORD && (base == 8 || base == 10 || base == 16) && Plain(width, flags)
    ensures var buf := Digits(value, base, flags.upper) + Fill('0', n);
            Rendered(value, negative, base, 0, width, flags)
            == if negative && width <= BUFFER_SIZE then ['-'] + Reverse(buf) else Reverse(buf)
  {
    hide Digits, Fill;
    var ds := Digits(value, base, flags.upper);
    BufferLargeEnough(value, base, flags.upper);
    var w := Width(negative, width, flags);
    assert flags.(hash := false) == flags;
    assert Raw(value, base, flags) == ds by { assert ds[..|ds|] == ds; }
    var buf := Padded(ds, 0, w, flags);
    n := |buf| - |ds|;
    assert ds + Fill('0', 0) == ds;
    assert buf == ds + Fill('0', n);
    if negative && width <= BUFFER_SIZE {
      assert |buf| < BUFFER_SIZE;
      ReverseSnoc(buf, '-');
    }
  }

  lemma {:induction false} ReverseSnoc(s: seq<char>, c: char)
    ensures Reverse(s + [c]) == [c] + Reverse(s)
  {
    if s == [] {
      assert [] + [c] == [c] && [c][1..] == [];
    } else {
      assert (s + [c])[1..] == s[1..] + [c];
      ReverseSnoc(s[1..], c);
    }
  }

  /** The text of a plain rendering consists of digits. */
  lemma DigitsOnly(value: nat, base: nat, upper: bool, n: nat)
    requires 2 <= base <= 16
    ensures var text := Reverse(Digits(value, base, upper) + Fill('0', n));
            |text| > 0 && AllHex(text) && (base <= 10 ==> AllDecimal(text)) && Numeral(text, base) == value
  {
    hide Digits, DigitValue;
    var ds := Digits(value, base, upper) + Fill('0', n);
    DigitsAre(value, base, upper);
    DigitsWorth(value, base, upper);
    WorthPadded(Digits(value, base, upper), n, base);
    NumeralReversed(ds, base);
    forall i | 0 <= i < |ds| ensures IsHex(Reverse(ds)[i]) && (base <= 10 ==> '0' <= Reverse(ds)[i] <= '9') {
      ReverseAt(ds, |ds| - 1 - i);
    }
  }

  /** %lx and %0<width>lx, in either case: matox reads back every 64-bit number. */
  lemma HexRoundTrip(v: nat, width: nat, flags: Flags)
    requires v < 0x1_0000_0000_0000_0000 && Plain(width, flags)
    ensures MatoxOf(Rendered(v, false, 16, 0, width, flags)) == v
  {
    hide Rendered, Digits, Numeral, Fill, Reverse;
    var n := PlainIs(v, false, 16, width, flags);
    DigitsOnly(v, 16, flags.upper, n);
    var text := Rendered(v, false, 16, 0, width, flags);
    assert AfterPrefix(text) == text by {
      assert IsHex(text[0]) && (|text| > 1 ==> IsHex(text[1]));
    }
  }

  /**
   * %d and %0<width>d: matoi reads back a number strictly between -2^31 and 2^31 exactly when it is not negative or the
   * width is at most 32; wider, the padding fills the buffer and the sign is lost.
   */
  lemma DecimalRoundTrip(n: int, width: nat, flags: Flags)
    requires -0x8000_0000 < n < 0x8000_0000 && Plain(width, flags)
    ensures MatoiOf(Rendered(if n > 0 then n else -n, n < 0, 10, 0, width, flags)) == n <==> n >= 0 || width <= BUFFER_SIZE
  {
    hide Rendered, Digits, Numeral, Fill, Reverse;
    var value: nat := if n > 0 then n else -n;
    var zeros := PlainIs(value, n < 0, 10, width, flags);
    DigitsOnly(value, 10, flags.upper, zeros);
    var text := Reverse(Digits(value, 10, flags.upper) + Fill('0', zeros));
    assert text[0] != '-';
    assert (['-'] + text)[1..] == text;
  }

  // ---- the layout ------------------------------------------------------------------------------

  /** A number as a numeral, highest digit first. */
  function NumeralOf(value: nat, base: nat, upper: bool): seq<char>
    requires 2 <= base <= 16
  {
    Reverse(Digits(value, base, upper))
  }

  /** A digit, or a letter in the case asked for. */
  predicate InCase(c: char, base: nat, upper: bool)
  {
    '0' <= c <= '9' || (base > 10 && if upper then 'A' <= c <= 'F' else 'a' <= c <= 'f')
  }

  /** It is worth the number, has no zero in front of other digits, and its letters are in the case asked for. */
  lemma NumeralIs(value: nat, base: nat, upper: bool)
    requires 2 <= base <= 16
    ensures var text := NumeralOf(value, base, upper);
      && Numeral(text, base) == value && text != [] && (|text| > 1 ==> text[0] != '0')
      && forall i :: 0 <= i < |text| ==> InCase(text[i], base, upper)
  {
    hide Digit, DigitValue, Digits, InCase, Worth, Numeral;
    var ds := Digits(value, base, upper);
    DigitsWorth(value, base, upper);
    NumeralReversed(ds, base);
    TopDigit(value, base, upper);
    ReverseAt(ds, |ds| - 1);
    DigitCase(value, base, upper);
    forall i | 0 <= i < |ds| ensures InCase(Reverse(ds)[i], base, upper) {
      ReverseAt(ds, |ds| - 1 - i);
    }
  }

  lemma {:induction false} TopDigit(v: nat, base: nat, upper: bool)
    requires 2 <= base <= 16
    ensures |Digits(v, base, upper)| > 1 || v > 0 ==> Digits(v, base, upper)[|Digits(v, base, upper)| - 1] != '0'
    decreases v
  {
    hide Digit;
    if v >= base {
      Smaller(v, base);
      TopDigit(v / base, base, upper);
      TopOf(v % base, upper, Digits(v / base, base, upper));
    } else {
      OnlyZero(v, upper);
    }
  }

  lemma TopOf(d: nat, upper: bool, rest: seq<char>)
    requires d < 16 && |rest| > 0
    ensures ([Digit(d, upper)] + rest)[|[Digit(d, upper)] + rest| - 1] == rest[|rest| - 1]
  {
  }

  lemma Smaller(v: nat, base: nat)
    requires 2 <= base <= v
    ensures 0 < v / base < v
  {
    AsQuotient(v, base);
    QuotSmaller(v, base);
  }

  lemma {:induction false} QuotSmaller(v: nat, n: nat)
    requires 2 <= n && v >= 1
    ensures Quot(v, n) < v
  {
    if v > n {
      QuotSmaller(v - n, n);
    }
  }

  lemma OnlyZero(d: nat, upper: bool)
    requires d < 16
    ensures Digit(d, upper) == '0' <==> d == 0
  {
  }

  lemma {:induction false} DigitCase(v: nat, base: nat, upper: bool)
    requires 2 <= base <= 16
    ensures forall i :: 0 <= i < |Digits(v, base, upper)| ==> InCase(Digits(v, base, upper)[i], base, upper)
    decreases v
  {
    hide Digit, InCase;
    if v >= base {
      DigitCase(v / base, base, upper);
      CaseOf(v % base, base, upper);
      var rest := Digits(v / base, base, upper);
      forall i | 0 <= i < |rest| + 1 ensures InCase(([Digit(v % base, upper)] + rest)[i], base, upper) {
      }
    } else {
      CaseOf(v, base, upper);
    }
  }

  lemma CaseOf(d: nat, base: nat, upper: bool)
    requires d < base <= 16
    ensures InCase(Digit(d, upper), base, upper)
  {
  }

  /** The sign in front: '-', or what the flags ask for in front of a number that is not negative. */
  function Sign(negative: bool, flags: Flags): seq<char>
  {
    if negative then "-" else if flags.plus then "+" else if flags.space then " " else ""
  }

  /** What sign and numeral leave of the width. */
  function Gap(taken: nat, width: nat): nat
  {
    if taken < width then width - taken else 0
  }

  /**
   * %d, %u, %x and %o with a width: blanks behind with '-', zeros between sign and numeral with '0' and a width of at
   * most 32, and blanks in front otherwise.
   */
  lemma Laid(value: nat, negative: bool, base: nat, width: nat, flags: Flags)
    requires value < WORD && (base == 8 || base == 10 || base == 16) && !flags.hash && !flags.precision
    ensures var s, text, sign := Rendered(value, negative, base, 0, width, flags), NumeralOf(value, base, flags.upper), Sign(negative, flags);
      var gap := Gap(|sign| + |text|, width);
      && (flags.left ==> s == sign + text + Fill(' ', gap))
      && (!flags.left && !flags.zeropad ==> s == Fill(' ', gap) + (sign + text))
      && (!flags.left && flags.zeropad && width <= 32 ==> s == sign + Fill('0', gap) + text)
  {
    if flags.left || !flags.zeropad {
      LaidBlanks(value, negative, base, width, flags);
    } else if width <= 32 {
      LaidZeros(value, negative, base, width, flags);
    }
  }

  lemma LaidBlanks(value: nat, negative: bool, base: nat, width: nat, flags: Flags)
    requires value < WORD && (base == 8 || base == 10 || base == 16) && !flags.hash && !flags.precision
    requires flags.left || !flags.zeropad
    ensures var s, text := Rendered(value, negative, base, 0, width, flags), Sign(negative, flags) + NumeralOf(value, base, flags.upper);
      s == if flags.left then text + Fill(' ', Gap(|text|, width)) else Fill(' ', Gap(|text|, width)) + text
  {
    hide Digits, Fill, Emitted, SignOf, Raw, Padded, Hashed, Width, Reverse, Sign;
    var ds := Digits(value, base, flags.upper);
    BufferLargeEnough(value, base, flags.upper);
    RawAll(value, base, flags);
    var n := PadIs(ds, negative, width, flags);
    assert ds + Fill('0', 0) == ds by { NoBlanks(ds, []); }
    SignIs(ds, negative, flags);
    EmittedIs(SignOf(ds, negative, flags), width, flags);
  }

  lemma LaidZeros(value: nat, negative: bool, base: nat, width: nat, flags: Flags)
    requires value < WORD && (base == 8 || base == 10 || base == 16) && !flags.hash && !flags.precision
    requires !flags.left && flags.zeropad && width <= 32
    ensures var sign, text := Sign(negative, flags), NumeralOf(value, base, flags.upper);
      Rendered(value, negative, base, 0, width, flags) == sign + Fill('0', Gap(|sign| + |text|, width)) + text
  {
    hide Digits, Fill, Emitted, SignOf, Raw, Padded, Hashed, Width, Reverse, Sign, Gap;
    var ds, w := Digits(value, base, flags.upper), Width(negative, width, flags);
    BufferLargeEnough(value, base, flags.upper);
    RawAll(value, base, flags);
    var n := PadIs(ds, negative, width, flags);
    var buf := ds + Fill('0', n);
    ReverseFill(ds, n);
    SignIs(buf, negative, flags);
    EmittedIs(SignOf(buf, negative, flags), w, flags);
    Pieces(Sign(negative, flags), n, Reverse(ds));
  }

  lemma Pieces(sign: seq<char>, n: nat, text: seq<char>)
    ensures n == 0 ==> sign + (Fill('0', n) + text) == sign + text
    ensures sign + (Fill('0', n) + text) == sign + Fill('0', n) + text
  {
    assert Fill('0', 0) + text == text;
  }

  lemma RawAll(value: nat, base: nat, flags: Flags)
    requires 2 <= base <= 16 && !flags.precision && |Digits(value, base, flags.upper)| <= BUFFER_SIZE
    ensures Raw(value, base, flags) == Digits(value, base, flags.upper)
    ensures forall prec: nat, w: nat, buf :: !flags.hash ==> Hashed(buf, base, prec, w, flags) == buf
    ensures !flags.hash ==> flags.(hash := false) == flags
  {
    hide Digits;
    var ds := Digits(value, base, flags.upper);
    assert ds[..|ds|] == ds;
  }

  /** The zeros, and the width that is left for blanks. */
  lemma PadIs(ds: seq<char>, negative: bool, width: nat, flags: Flags) returns (n: nat)
    requires |ds| < 32
    ensures var w := Width(negative, width, flags);
      && Padded(ds, 0, w, flags) == ds + Fill('0', n)
      && (flags.left || !flags.zeropad ==> n == 0 && w == width)
      && (!flags.left && flags.zeropad && width <= 32 ==>
            && n == Gap(|Sign(negative, flags)| + |ds|, width)
            && (Sign(negative, flags) != [] ==> |ds| + n < 32))
  {
    hide Fill;
    assert ds + Fill('0', 0) == ds;
    var w := Width(negative, width, flags);
    n := if flags.left || !flags.zeropad then 0 else Gap(|ds|, Min(w, BUFFER_SIZE));
  }

  lemma SignIs(buf: seq<char>, negative: bool, flags: Flags)
    ensures |buf| < 32 || Sign(negative, flags) == [] ==>
              && Reverse(SignOf(buf, negative, flags)) == Sign(negative, flags) + Reverse(buf)
              && |SignOf(buf, negative, flags)| == |buf| + |Sign(negative, flags)|
  {
    hide Reverse;
    ReverseSnoc(buf, '-');
    ReverseSnoc(buf, '+');
    ReverseSnoc(buf, ' ');
    assert [] + Reverse(buf) == Reverse(buf);
  }

  lemma EmittedIs(buf: seq<char>, width: nat, flags: Flags)
    ensures var s, blanks := Emitted(buf, width, flags), Fill(' ', Gap(|buf|, width));
      s == if flags.left then Reverse(buf) + blanks else if flags.zeropad then Reverse(buf) else blanks + Reverse(buf)
  {
  }

  lemma {:induction false} ReverseFill(s: seq<char>, n: nat)
    ensures Reverse(s + Fill('0', n)) == Fill('0', n) + Reverse(s)
  {
    if n == 0 {
      assert s + Fill('0', 0) == s && Fill('0', 0) + Reverse(s) == Reverse(s);
    } else {
      assert s + Fill('0', n) == (s + Fill('0', n - 1)) + ['0'];
      ReverseSnoc(s + Fill('0', n - 1), '0');
      ReverseFill(s, n - 1);
      assert ['0'] + Fill('0', n - 1) == Fill('0', n);
    }
  }

  /** %#x, %#X and %#o without a width: 0x, 0X or 0 between sign and numeral, and nothing for 0. */
  lemma LaidHash(value: nat, negative: bool, base: nat, flags: Flags)
    requires value < WORD && (base == 8 || base == 16) && flags.hash && !flags.precision
    ensures Rendered(value, negative, base, 0, 0, flags)
      == Sign(negative, flags) + (if value == 0 then "" else if base == 8 then "0" else if flags.upper then "0X" else "0x")
         + NumeralOf(value, base, flags.upper)
  {
    hide Digits, Fill, Emitted, Reverse, SignOf, Raw, Padded, Hashed;
    var ds, text := Digits(value, base, flags.upper), NumeralOf(value, base, flags.upper);
    BufferLargeEnough(value, base, flags.upper);
    if value == 0 {
      Laid(value, negative, base, 0, flags.(hash := false));
      Pieces(Sign(negative, flags), 0, text);
      NoBlanks(Sign(negative, flags), text);
    } else {
      RawAll(value, base, flags);
      assert Padded(ds, 0, 0, flags) == ds by { PaddedNone(ds, flags); }
      var buf := Hashed(ds, base, 0, 0, flags);
      HashIs(ds, base, flags);
      SignIs(buf, negative, flags);
      EmittedIs(SignOf(buf, negative, flags), 0, flags);
      NoBlanks(Sign(negative, flags), Reverse(buf));
      Joined(Sign(negative, flags), if base == 8 then "0" else if flags.upper then "0X" else "0x", text);
    }
  }

  lemma Joined(a: seq<char>, b: seq<char>, c: seq<char>)
    ensures a + (b + c) == a + b + c
  {
  }

  lemma NoBlanks(a: seq<char>, text: seq<char>)
    ensures Fill(' ', 0) + (a + text) == a + text + Fill(' ', 0) == a + Fill('0', 0) + text == a + text == a + "" + text
    ensures a + Fill('0', 0) == a && (a + text) + Fill(' ', 0) == Fill(' ', 0) + (a + text) == a + text
  {
  }

  lemma PaddedNone(ds: seq<char>, flags: Flags)
    ensures Padded(ds, 0, 0, flags) == ds
  {
  }

  lemma HashIs(ds: seq<char>, base: nat, flags: Flags)
    requires 0 < |ds| <= 22 && (base == 8 || base == 16) && flags.hash && !flags.precision
    ensures var buf := Hashed(ds, base, 0, 0, flags);
      && |buf| < 32
      && Reverse(buf) == (if base == 8 then "0" else if flags.upper then "0X" else "0x") + Reverse(ds)
  {
    hide Reverse;
    var x := if flags.upper then 'X' else 'x';
    assert ds[..|ds|] == ds;
    ReverseSnoc(ds, x);
    ReverseSnoc(ds + [x], '0');
    ReverseSnoc(ds, '0');
    assert ['0'] + ([x] + Reverse(ds)) == ['0', x] + Reverse(ds);
  }
}
