/** src/stdlib.c: printing and parsing of unsigned numbers. */
module Stdlib {
  import opened Powers

  const ULONG_LIMIT: nat := 0x1_0000_0000_0000_0000
  const ULONG_MAX: nat := ULONG_LIMIT - 1

  /** int */
  type CInt = x: int | -0x8000_0000 <= x < 0x8000_0000

  // ----- characters -----

  predicate IsSpace(c: char) {
    c == ' ' || 9 <= c as int <= 13
  }

  predicate IsDigit(c: char) {
    '0' <= c <= '9'
  }

  function ToUpper(c: char): char {
    if 'a' <= c <= 'z' then (c as int - 32) as char else c
  }

  function ToLower(c: char): char {
    if 'A' <= c <= 'Z' then (c as int + 32) as char else c
  }

  /** digits[d] */
  function DigitChar(d: nat): char
    requires d < 36
  {
    if d < 10 then (48 + d) as char else (87 + d) as char
  }

  /** The value of a byte as a char, which is signed. */
  function CharValue(c: char): int {
    if c as int < 128 then c as int else c as int - 256
  }

  /** isdigit(c) ? c - '0' : c - 'A' + 10, for c in upper case */
  function DigitValue(c: char): int {
    var u := ToUpper(c);
    if IsDigit(u) then CharValue(u) - 48 else CharValue(u) - 65 + 10
  }

  /** The values of letters, of both cases, and digits; any other byte counts as a char 55 below itself. */
  lemma {:induction false} DigitValueIs(c: char)
    requires c as int < 256
    ensures '0' <= c <= '9' ==> DigitValue(c) == c as int - '0' as int
    ensures 'a' <= c <= 'z' ==> DigitValue(c) == c as int - 'a' as int + 10
    ensures 'A' <= c <= 'Z' ==> DigitValue(c) == c as int - 'A' as int + 10
    ensures !('0' <= c <= '9') && !('a' <= c <= 'z') ==>
              DigitValue(c) == (if c as int < 128 then c as int else c as int - 256) - 55
  {
  }

  lemma {:induction false} DigitBack(d: nat)
    requires d < 36
    ensures DigitValue(DigitChar(d)) == d && !IsSpace(DigitChar(d)) && DigitChar(d) != '-' && DigitChar(d) != '+'
    ensures DigitChar(d) == '0' <==> d == 0
  {
  }

  // ----- printing -----

  /** The digits of a number, the most significant first. */
  function Digits(v: nat, base: nat): (s: seq<char>)
    requires 2 <= base <= 36
    ensures |s| >= 1
  {
    if v < base then [DigitChar(v)]
    else
      Smaller(v, base);
      Digits(v / base, base) + [DigitChar(v % base)]
  }

  /** No leading zero but for 0 itself. */
  lemma {:induction false} NoLeadingZero(v: nat, base: nat)
    requires 2 <= base <= 36
    ensures Digits(v, base)[0] == '0' <==> v == 0
    ensures v == 0 ==> Digits(v, base) == ['0']
    ensures !IsSpace(Digits(v, base)[0]) && Digits(v, base)[0] != '-' && Digits(v, base)[0] != '+'
    decreases v
  {
    if v < base {
      DigitBack(v);
    } else {
      Smaller(v, base);
      NoLeadingZero(v / base, base);
    }
  }

  /** Only digits and small letters are printed. */
  lemma {:induction false} SmallLetters(v: nat, base: nat)
    requires 2 <= base <= 36
    ensures forall c | c in Digits(v, base) :: '0' <= c <= '9' || 'a' <= c <= 'z'
    decreases v
  {
    if v >= base {
      Smaller(v, base);
      SmallLetters(v / base, base);
    }
  }

  lemma {:induction false} Smaller(v: nat, base: nat)
    requires 2 <= base <= v
    ensures 0 < v / base < v
  {
    var q := v / base;
    assert v == q * base + v % base;
    Scale(q, base);
    assert q * base == q * (base - 2) + q + q;
    Scale(q, base - 1);
    assert q * (base - 1) == q * base - q;
  }

  function Reversed(s: seq<char>): (r: seq<char>)
    ensures |r| == |s|
  {
    seq(|s|, i requires 0 <= i < |s| => s[|s| - 1 - i])
  }

  /** ulltoa: the digits and a terminator, written backwards and then turned around in place. */
  method Ulltoa(value: nat, str: array<char>, base: nat)
    requires 2 <= base <= 36 && |Digits(value, base)| < str.Length
    modifies str
    ensures var s := Digits(value, base);
      str[..|s|] == s && str[|s|] == 0 as char && str[|s| + 1..] == old(str[|s| + 1..])
  {
    var n := Emit(value, str, base);
    str[n] := 0 as char;
    ghost var back := str[..n];
    Turn(str, n);
    ReversedTwice(Digits(value, base));
  }

  lemma {:induction false} ReversedTwice(s: seq<char>)
    ensures Reversed(Reversed(s)) == s
  {
  }

  lemma {:induction false} ReversedMore(s: seq<char>, c: char)
    ensures Reversed([c] + s) == Reversed(s) + [c]
    ensures Reversed(s + [c]) == [c] + Reversed(s)
  {
  }

  /** The first loop of ulltoa: the digits, the least significant first. */
  method Emit(value: nat, str: array<char>, base: nat) returns (n: nat)
    requires 2 <= base <= 36 && |Digits(value, base)| < str.Length
    modifies str
    ensures n == |Digits(value, base)| && str[..n] == Reversed(Digits(value, base)) && str[n..] == old(str[n..])
  {
    hide Reversed;
    hide Digits;
    ghost var all := Digits(value, base);
    var rest: nat := value;
    n := 0;
    assert str[..0] == [] == Reversed([]) by { assert |Reversed([])| == 0; }
    assert all + [] == all;
    while rest >= base
      invariant 0 <= n && n + |Digits(rest, base)| == |all|
      invariant all == Digits(rest, base) + Reversed(str[..n])
      invariant str[|all|..] == old(str[|all|..])
      decreases rest
    {
      n := EmitOne(rest, str, base, n, all);
      rest := rest / base;
    }
    n := EmitOne(rest, str, base, n, all);
  }

  /** *ptr++ = digits[value % base] */
  method EmitOne(rest: nat, str: array<char>, base: nat, n: nat, ghost all: seq<char>) returns (m: nat)
    requires 2 <= base <= 36 && n + |Digits(rest, base)| == |all| < str.Length
               && all == Digits(rest, base) + Reversed(str[..n])
    modifies str
    ensures m == n + 1 && str[|all|..] == old(str[|all|..])
    ensures rest < base ==> m == |all| && str[..m] == Reversed(all)
    ensures rest >= base ==> rest / base < rest && m + |Digits(rest / base, base)| == |all|
                             && all == Digits(rest / base, base) + Reversed(str[..m])
  {
    hide Reversed;
    ghost var before := str[..n];
    var c := DigitChar(rest % base);
    LastDigit(rest, base);
    hide Digits;
    str[n] := c;
    m := n + 1;
    assert str[..m] == before + [c];
    ReversedMore(before, c);
    if rest >= base {
      Regroup(Digits(rest / base, base), c, Reversed(before));
    } else {
      assert all == Reversed(before + [c]);
      ReversedTwice(before + [c]);
    }
  }

  lemma {:induction false} WholeAndRest(v: nat, base: nat)
    requires 2 <= base <= 36
    ensures v / base >= 0 && 0 <= v % base < base && v / base * base + v % base == v && (v < base ==> v % base == v)
  {
    var q := v / base;
    assert v == q * base + v % base;
  }

  lemma {:induction false} LastDigit(v: nat, base: nat)
    requires 2 <= base <= 36
    ensures v < base ==> Digits(v, base) == [DigitChar(v % base)]
    ensures v >= base ==> v / base < v && Digits(v, base) == Digits(v / base, base) + [DigitChar(v % base)]
  {
    if v >= base {
      Smaller(v, base);
    } else {
      assert v % base == v;
    }
  }

  lemma {:induction false} Regroup(s: seq<char>, c: char, t: seq<char>)
    ensures s + [c] + t == s + ([c] + t)
  {
  }

  /** The second loop of ulltoa. */
  method Turn(str: array<char>, n: nat)
    requires n < str.Length
    modifies str
    ensures str[..n] == Reversed(old(str[..n])) && str[n..] == old(str[n..])
  {
    var start, ptr := 0, n - 1;
    while start < ptr
      invariant start + ptr == n - 1 && 0 <= start <= n && -1 <= ptr < n
      invariant forall k | 0 <= k < start || ptr < k < n :: str[k] == old(str[n - 1 - k])
      invariant forall k | start <= k <= ptr :: str[k] == old(str[k])
      invariant str[n..] == old(str[n..])
    {
      str[start], str[ptr] := str[ptr], str[start];
      start, ptr := start + 1, ptr - 1;
    }
    assert str[..n] == Reversed(old(str[..n]));
  }

  // ----- parsing -----

  /** unsigned long arithmetic */
  function Wrap(x: int): nat {
    x % ULONG_LIMIT
  }

  /** *(str + i) of a string that ends with a terminator */
  function At(s: seq<char>, i: nat): char {
    if i < |s| then s[i] else 0 as char
  }

  function SkipSpaces(s: seq<char>, i: nat): (j: nat)
    ensures j >= i
    decreases |s| - i
  {
    if i < |s| && IsSpace(s[i]) then SkipSpaces(s, i + 1) else i
  }

  /** The base that counts, and where the digits begin, once spaces and sign are skipped. */
  function Prefix(s: seq<char>, i: nat, base: CInt): (CInt, nat) {
    if base == 0 then
      if At(s, i) != '0' then (10, i)
      else if ToLower(At(s, i + 1)) == 'x' then (16, i + 2)
      else (8, i + 1)
    else if base == 8 && At(s, i) == '0' then (base, i + 1)
    else if base == 16 && At(s, i) == '0' && At(s, i + 1) == 'x' then (base, i + 2)
    else (base, i)
  }

  /** The accumulation loop: the value, and where it stopped. */
  function Scan(s: seq<char>, i: nat, base: nat, ret: nat): (nat, nat)
    requires base > 0
    decreases |s| - i
  {
    if i >= |s| then (ret, i)
    else if ret > Wrap(ULONG_MAX - DigitValue(s[i])) / base then (ULONG_MAX, i)
    else Scan(s, i + 1, base, Wrap(ret * base + DigitValue(s[i])))
  }

  predicate Negated(s: seq<char>) {
    At(s, SkipSpaces(s, 0)) == '-'
  }

  /** The base that counts, and where the digits begin. */
  function DigitsStart(s: seq<char>, base: CInt): (CInt, nat) {
    var start := SkipSpaces(s, 0);
    Prefix(s, if At(s, start) == '-' || At(s, start) == '+' then start + 1 else start, base)
  }

  /** What the value and the end of the loop make of the whole, for digits that begin at i. */
  function Outcome(s: seq<char>, i: nat, scanned: (nat, nat)): (nat, nat) {
    (if Negated(s) then Wrap(0 - scanned.0) else scanned.0, if scanned.1 > i then scanned.1 else 0)
  }

  /** strtoul: the value, and the offset that endptr gets. */
  function Parsed(s: seq<char>, base: CInt): (nat, nat) {
    var (radix, i) := DigitsStart(s, base);
    Outcome(s, i, Scan(s, i, Wrap(radix), 0))
  }

  /** strtoul */
  method Strtoul(str: seq<char>, base: CInt) returns (ret: nat, end: nat)
    requires forall i | 0 <= i < |str| :: 0 < str[i] as int < 256
    ensures (ret, end) == Parsed(str, base)
  {
    hide Scan;
    hide SkipSpaces;
    hide DigitValue;
    var ptr := PassSpaces(str);
    var negate := false;
    if At(str, ptr) == '-' || At(str, ptr) == '+' {
      negate := At(str, ptr) == '-';
      ptr := ptr + 1;
    }
    var radix := base;
    if base == 0 {
      radix := 10;
      if At(str, ptr) == '0' {
        radix := 8;
        ptr := ptr + 1;
        if ToLower(At(str, ptr)) == 'x' {
          radix := 16;
          ptr := ptr + 1;
        }
      }
    } else {
      if base == 8 && At(str, ptr) == '0' {
        ptr := ptr + 1;
      }
      if base == 16 && At(str, ptr) == '0' && At(str, ptr + 1) == 'x' {
        ptr := ptr + 2;
      }
    }
    var consumed;
    ret, ptr, consumed := ScanDigits(str, ptr, Wrap(radix));
    end := if consumed then ptr else 0;
    if negate {
      ret := Wrap(0 - ret);
    }
  }

  /** The first loop of strtoul. */
  method PassSpaces(str: seq<char>) returns (ptr: nat)
    ensures ptr == SkipSpaces(str, 0)
  {
    ptr := 0;
    while IsSpace(At(str, ptr))
      invariant SkipSpaces(str, ptr) == SkipSpaces(str, 0)
      decreases |str| - ptr
    {
      ptr := ptr + 1;
    }
  }

  /** The last loop of strtoul. */
  method ScanDigits(str: seq<char>, i: nat, radix: nat) returns (ret: nat, ptr: nat, consumed: bool)
    requires radix > 0 && forall i | 0 <= i < |str| :: str[i] != 0 as char
    ensures (ret, ptr) == Scan(str, i, radix, 0) && consumed == (ptr > i)
  {
    hide Wrap;
    hide DigitValue;
    ret, ptr, consumed := 0, i, false;
    while At(str, ptr) != 0 as char
      invariant ptr >= i && consumed == (ptr > i)
      invariant Scan(str, ptr, radix, ret) == Scan(str, i, radix, 0)
      decreases |str| - ptr
    {
      var digit := DigitValue(At(str, ptr));
      if ret > Wrap(ULONG_MAX - digit) / radix {
        ret := ULONG_MAX;
        return;
      }
      ret := Wrap(ret * radix + digit);
      consumed := true;
      ptr := ptr + 1;
    }
  }

  // ----- what parsing yields -----

  predicate AllDigits(s: seq<char>, i: nat, base: nat) {
    forall k | i <= k < |s| :: 0 <= DigitValue(s[k]) < base
  }

  /** The number that the digits from i on continue. */
  function Number(s: seq<char>, i: nat, base: nat, high: int): int
    decreases |s| - i
  {
    if i >= |s| then high else Number(s, i + 1, base, high * base + DigitValue(s[i]))
  }

  lemma {:induction false} NumberGrows(s: seq<char>, i: nat, base: nat, high: nat)
    requires AllDigits(s, i, base) && base > 0
    ensures Number(s, i, base, high) >= high
    decreases |s| - i
  {
    if i < |s| {
      Scale(base, if high > 0 then high else 1);
      assert high * base >= high;
      NumberGrows(s, i + 1, base, high * base + DigitValue(s[i]));
    }
  }

  /** The overflow guard is exact. */
  lemma {:induction false} Guard(ret: nat, base: nat, d: nat)
    requires base > 0 && d <= ULONG_MAX
    ensures ret > Wrap(ULONG_MAX - d) / base <==> ret * base + d > ULONG_MAX
  {
    NoWrap(ULONG_MAX - d);
    hide Wrap;
    QuotientBelow(ret, base, ULONG_MAX - d);
  }

  lemma {:induction false} QuotientBelow(ret: nat, base: nat, m: nat)
    requires base > 0
    ensures ret > m / base <==> ret * base > m
  {
    var q := m / base;
    assert m == q * base + m % base;
    assert (ret - q) * base == ret * base - q * base;
    Scale(ret - q, base);
    assert (q - ret) * base == q * base - ret * base;
    Scale(q - ret, base);
  }

  /** The loop stopped with ULONG_MAX at the first digit with which the number is larger. */
  predicate Saturated(s: seq<char>, i: nat, base: nat, ret: nat, scanned: (nat, nat)) {
    var end := scanned.1;
    && scanned.0 == ULONG_MAX && i <= end < |s|
    && Number(s[..end], i, base, ret) <= ULONG_MAX < Number(s[..end + 1], i, base, ret)
  }

  /** Digits of any value, up to j: the loop goes on with their number, or stops with ULONG_MAX. */
  lemma {:induction false} ScanThrough(s: seq<char>, i: nat, j: nat, base: nat, ret: nat)
    requires base > 0 && ret <= ULONG_MAX && i <= j <= |s| && forall k | i <= k < j :: 0 <= DigitValue(s[k])
    ensures var n := Number(s[..j], i, base, ret);
      if n <= ULONG_MAX then n >= 0 && Scan(s, i, base, ret) == Scan(s, j, base, n)
      else Saturated(s, i, base, ret, Scan(s, i, base, ret)) && Scan(s, i, base, ret).1 < j
    decreases j - i
  {
    hide Scan;
    hide DigitValue;
    if i < j {
      var next := ret * base + DigitValue(s[i]);
      ScanStep(s, i, base, ret);
      FirstDigit(s, i, j, base, ret);
      hide Number;
      if next <= ULONG_MAX {
        ScanThrough(s, i + 1, j, base, next);
        if Number(s[..j], i, base, ret) > ULONG_MAX {
          SaturatedBack(s, i, base, ret, Scan(s, i + 1, base, next));
        }
      } else {
        LargerYet(s, i + 1, j, base, next);
        SaturatedNow(s, i, base, ret);
      }
    }
  }

  lemma {:induction false} ScanStep(s: seq<char>, i: nat, base: nat, ret: nat)
    requires base > 0 && ret <= ULONG_MAX && i < |s| && DigitValue(s[i]) >= 0
    ensures var next := ret * base + DigitValue(s[i]);
      && next >= 0
      && Scan(s, i, base, ret) == if next <= ULONG_MAX then Scan(s, i + 1, base, next) else (ULONG_MAX, i)
  {
    var d: nat := DigitValue(s[i]);
    assert d <= ULONG_MAX;
    hide DigitValue;
    Guard(ret, base, d);
    if ret * base + d <= ULONG_MAX {
      NoWrap(ret * base + d);
    }
    hide Wrap;
  }

  lemma {:induction false} SaturatedBack(s: seq<char>, i: nat, base: nat, ret: nat, r: (nat, nat))
    requires i < |s| && DigitValue(s[i]) >= 0 && Saturated(s, i + 1, base, ret * base + DigitValue(s[i]), r)
    ensures Saturated(s, i, base, ret, r)
  {
    hide DigitValue;
    FirstDigit(s, i, r.1, base, ret);
    FirstDigit(s, i, r.1 + 1, base, ret);
    hide Number;
  }

  lemma {:induction false} SaturatedNow(s: seq<char>, i: nat, base: nat, ret: nat)
    requires i < |s| && ret <= ULONG_MAX < ret * base + DigitValue(s[i])
    ensures Saturated(s, i, base, ret, (ULONG_MAX, i))
  {
    hide DigitValue;
    FirstDigit(s, i, i + 1, base, ret);
  }

  lemma {:induction false} FirstDigit(s: seq<char>, i: nat, j: nat, base: nat, ret: nat)
    requires i < j <= |s|
    ensures Number(s[..j], i, base, ret) == Number(s[..j], i + 1, base, ret * base + DigitValue(s[i]))
    ensures j == i + 1 ==> Number(s[..j], i, base, ret) == ret * base + DigitValue(s[i])
  {
    hide DigitValue;
    assert s[..j][i] == s[i];
  }

  lemma {:induction false} LargerYet(s: seq<char>, i: nat, j: nat, base: nat, high: nat)
    requires base > 0 && i <= j <= |s| && forall k | i <= k < j :: 0 <= DigitValue(s[k])
    ensures Number(s[..j], i, base, high) >= high
    decreases j - i
  {
    if i < j {
      FirstDigit(s, i, j, base, high);
      Scale(base, if high > 0 then high else 1);
      assert high * base >= high;
      LargerYet(s, i + 1, j, base, high * base + DigitValue(s[i]));
    }
  }

  /** A character whose value is negative: the loop stops with ULONG_MAX there or at the next one, or the value wraps
      around at the end of the string. */
  lemma {:induction false} NegativeDigit(s: seq<char>, i: nat, base: nat, ret: nat)
    requires base >= 2 && ret <= ULONG_MAX && i < |s| && s[i] as int < 256 && DigitValue(s[i]) < 0
    ensures var x := ret * base + DigitValue(s[i]);
      Scan(s, i, base, ret) == if x >= 0 then (ULONG_MAX, i)
                               else if i + 1 == |s| then (ULONG_LIMIT + x, |s|) else (ULONG_MAX, i + 1)
  {
    var d := DigitValue(s[i]);
    var m: nat := -1 - d;
    var x := ret * base + d;
    assert m < 256;
    hide DigitValue;
    assert Wrap(ULONG_MAX - d) == m;
    QuotientBelow(ret, base, m);
    if x < 0 {
      WrapNegative(x);
      if i + 1 < |s| {
        HalfIsLess(ULONG_MAX - DigitValue(s[i + 1]), base);
      }
    }
    hide Wrap;
  }

  lemma {:induction false} WrapNegative(x: int)
    requires -256 <= x < 0
    ensures Wrap(x) == ULONG_LIMIT + x
  {
  }

  lemma {:induction false} HalfIsLess(x: int, base: nat)
    requires base >= 2
    ensures Wrap(x) / base <= ULONG_MAX / 2
  {
    var y := Wrap(x);
    var q := y / base;
    assert y == q * base + y % base;
    assert q * base == q * (base - 2) + q + q;
    assert q >= 0 ==> q * (base - 2) >= 0;
  }

  /** Digits yield their number, or ULONG_MAX when it is larger. */
  lemma {:induction false} ScanNumber(s: seq<char>, i: nat, base: nat, ret: nat)
    requires 2 <= base <= 36 && AllDigits(s, i, base) && ret <= ULONG_MAX && i <= |s|
    ensures var n := Number(s, i, base, ret); var (value, end) := Scan(s, i, base, ret);
      if n <= ULONG_MAX then value == n && end == |s| else value == ULONG_MAX && end < |s|
    decreases |s| - i
  {
    hide Wrap;
    hide DigitValue;
    if i < |s| {
      var next := ret * base + DigitValue(s[i]);
      Guard(ret, base, DigitValue(s[i]));
      NumberGrows(s, i + 1, base, next);
      if next <= ULONG_MAX {
        NoWrap(next);
        ScanNumber(s, i + 1, base, next);
      }
    }
  }

  lemma {:induction false} NoWrap(x: nat)
    requires x <= ULONG_MAX
    ensures Wrap(x) == x
  {
  }

  lemma {:induction false} NumberMore(s: seq<char>, c: char, i: nat, base: nat, high: int)
    requires i <= |s|
    ensures Number(s + [c], i, base, high) == Number(s, i, base, high) * base + DigitValue(c)
    decreases |s| - i
  {
    if i < |s| {
      NumberMore(s, c, i + 1, base, high * base + DigitValue(s[i]));
    } else {
      assert Number(s + [c], i + 1, base, high * base + DigitValue(c)) == high * base + DigitValue(c);
    }
  }

  lemma {:induction false} DigitsNumber(v: nat, base: nat)
    requires 2 <= base <= 36
    ensures Number(Digits(v, base), 0, base, 0) == v && AllDigits(Digits(v, base), 0, base)
    decreases v
  {
    LastDigit(v, base);
    WholeAndRest(v, base);
    hide *;
    var r: nat := v % base;
    DigitBack(r);
    if v < base {
      NumberOne(DigitChar(r), base);
    } else {
      var q: nat := v / base;
      DigitsNumber(q, base);
      NumberStep(Digits(q, base), DigitChar(r), base, q);
    }
  }

  lemma {:induction false} NumberStep(s: seq<char>, c: char, base: nat, q: nat)
    requires Number(s, 0, base, 0) == q && AllDigits(s, 0, base) && 0 <= DigitValue(c) < base
    ensures Number(s + [c], 0, base, 0) == q * base + DigitValue(c) && AllDigits(s + [c], 0, base)
  {
    hide DigitValue;
    NumberMore(s, c, 0, base, 0);
    AllMore(s, c, base);
  }

  lemma {:induction false} NumberOne(c: char, base: nat)
    ensures Number([c], 0, base, 0) == DigitValue(c)
    ensures 0 <= DigitValue(c) < base ==> AllDigits([c], 0, base)
  {
    hide DigitValue;
    NumberMore([], c, 0, base, 0);
    assert [] + [c] == [c];
  }

  lemma {:induction false} AllMore(s: seq<char>, c: char, base: nat)
    requires AllDigits(s, 0, base) && 0 <= DigitValue(c) < base
    ensures AllDigits(s + [c], 0, base)
  {
  }

  // ----- whole strings -----

  /** What isspace accepts: blank, tab, newline, vertical tab, form feed, carriage return */
  const BLANKS: seq<char> := [' ', '\t', '\n', 11 as char, 12 as char, '\r']

  /** All blanks in front are skipped, and nothing else. */
  lemma {:induction false} BlanksSkipped(s: seq<char>, i: nat)
    requires i <= |s|
    ensures var j := SkipSpaces(s, i);
      j <= |s| && (forall k | i <= k < j :: s[k] in BLANKS) && (j < |s| ==> s[j] !in BLANKS)
    decreases |s| - i
  {
    if i < |s| {
      BlankIs(s[i]);
      hide BLANKS;
      hide IsSpace;
      if IsSpace(s[i]) {
        BlanksSkipped(s, i + 1);
      }
    }
  }

  lemma {:induction false} BlankIs(c: char)
    ensures IsSpace(c) <==> c in BLANKS
  {
  }

  lemma {:induction false} BlanksPassed(p: seq<char>, rest: seq<char>)
    requires (forall c | c in p :: c in BLANKS) && (rest == [] || rest[0] !in BLANKS)
    ensures SkipSpaces(p + rest, 0) == |p|
  {
    var s := p + rest;
    hide BLANKS;
    hide SkipSpaces;
    BlanksSkipped(s, 0);
    assert forall k | 0 <= k < |p| :: s[k] == p[k];
    assert rest != [] ==> s[|p|] == rest[0];
  }

  /** Blanks and an optional sign are skipped; the prefix is what follows them. */
  lemma {:induction false} SignedStart(p: seq<char>, sign: seq<char>, rest: seq<char>, base: CInt)
    requires (forall c | c in p :: c in BLANKS) && (sign == [] || sign == ['+'] || sign == ['-'])
    requires rest != [] && rest[0] !in BLANKS && rest[0] != '-' && rest[0] != '+'
    ensures var s := p + sign + rest;
      && (Negated(s) <==> sign == ['-'])
      && DigitsStart(s, base) == Prefix(s, |p| + |sign|, base)
      && s[|p| + |sign|..] == rest
  {
    var s := p + sign + rest;
    assert s == p + (sign + rest) && (sign + rest)[0] == s[|p|];
    assert '+' !in BLANKS && '-' !in BLANKS;
    hide BLANKS;
    BlanksPassed(p, sign + rest);
    hide SkipSpaces;
    hide Prefix;
  }

  /** The same digits, in which letters may also be capital. */
  predicate Cased(d: seq<char>, e: seq<char>) {
    && |d| == |e|
    && forall k | 0 <= k < |e| :: d[k] == e[k] || ('a' <= e[k] <= 'z' && d[k] as int == e[k] as int - 32)
  }

  lemma {:induction false} CasedNumber(d: seq<char>, e: seq<char>, i: nat, base: nat, high: int)
    requires Cased(d, e) && i <= |e|
    ensures Number(d, i, base, high) == Number(e, i, base, high)
    ensures AllDigits(e, i, base) ==> AllDigits(d, i, base)
    decreases |e| - i
  {
    forall k | 0 <= k < |e|
      ensures DigitValue(d[k]) == DigitValue(e[k])
    {
      assert d[k] == e[k] || ('a' <= e[k] <= 'z' && d[k] as int == e[k] as int - 32);
    }
    hide DigitValue;
    hide Cased;
    if i < |e| {
      CasedNumber(d, e, i + 1, base, high * base + DigitValue(e[i]));
    }
  }

  /** The loop on the digits of v behind anything. */
  lemma {:induction false} PrintedScan(v: nat, base: nat, front: seq<char>, d: seq<char>)
    requires 2 <= base <= 36 && Cased(d, Digits(v, base))
    ensures var s := front + d; var (value, end) := Scan(s, |front|, base, 0);
      if v <= ULONG_MAX then value == v && end == |s| else value == ULONG_MAX && |front| < end < |s|
    ensures v == 0 ==> Scan(front + d, |front| + 1, base, 0) == (0, |front + d|)
    ensures d[0] !in BLANKS && d[0] != '-' && d[0] != '+' && (d[0] == '0' <==> v == 0)
  {
    var s := front + d;
    NoLeadingZero(v, base);
    SmallLetters(v, base);
    assert Digits(v, base)[0] in Digits(v, base);
    FrontCharacter(d[0], Digits(v, base)[0]);
    DigitsNumber(v, base);
    CasedNumber(d, Digits(v, base), 0, base, 0);
    NumberShift(front, d, 0, base, 0);
    hide DigitValue;
    assert AllDigits(s, |front|, base);
    ScanNumber(s, |front|, base, 0);
    if v > ULONG_MAX {
      ScanThrough(s, |front|, |s|, base, 0);
      assert s[..|s|] == s;
      NotAtOnce(s, |front|, base);
    }
  }

  lemma {:induction false} FrontCharacter(c: char, e: char)
    requires ('0' <= e <= '9' || 'a' <= e <= 'z') && (c == e || ('a' <= e <= 'z' && c as int == e as int - 32))
    ensures c !in BLANKS && c != '-' && c != '+' && (c == '0' <==> e == '0')
  {
  }

  /** The first digit never stops the loop. */
  lemma {:induction false} NotAtOnce(s: seq<char>, i: nat, base: nat)
    requires i < |s| && 2 <= base <= 36 && 0 <= DigitValue(s[i]) < base
    ensures Scan(s, i, base, 0).1 > i
  {
    ScanStep(s, i, base, 0);
    hide DigitValue;
    if i + 1 < |s| {
      ScanOn(s, i + 1, base, DigitValue(s[i]));
    }
  }

  /** The value that strtoul is to give for v behind the sign. */
  function SignedValue(v: nat, sign: seq<char>): nat {
    if v > ULONG_MAX then if sign == ['-'] then 1 else ULONG_MAX
    else if sign == ['-'] && v > 0 then ULONG_LIMIT - v else v
  }

  lemma {:induction false} OutcomeSigned(s: seq<char>, i: nat, scanned: (nat, nat), v: nat, sign: seq<char>)
    requires Negated(s) <==> sign == ['-']
    requires if v <= ULONG_MAX then scanned.0 == v else scanned.0 == ULONG_MAX
    ensures Outcome(s, i, scanned) == (SignedValue(v, sign), if scanned.1 > i then scanned.1 else 0)
  {
    hide Negated;
    assert v <= ULONG_MAX && v > 0 ==> Wrap(0 - v) == ULONG_LIMIT - v;
    assert Wrap(0) == 0 && Wrap(0 - ULONG_MAX) == 1;
  }

  /** Blanks, an optional sign, and then the digits of any number in a base, small or capital: the value, saturated and
      negated as the sign says.  All of it is consumed when the number is not too large, but for "0" in base 8, where
      the skipped prefix leaves nothing and endptr goes back to the start. */
  lemma {:induction false} ParsedPrinted(v: nat, base: nat, p: seq<char>, sign: seq<char>, d: seq<char>)
    requires 2 <= base <= 36 && Cased(d, Digits(v, base))
    requires (forall c | c in p :: c in BLANKS) && (sign == [] || sign == ['+'] || sign == ['-'])
    ensures Parsed(p + sign + d, base).0 == SignedValue(v, sign)
    ensures v <= ULONG_MAX ==> Parsed(p + sign + d, base).1 == if base == 8 && v == 0 then 0 else |p + sign + d|
  {
    var front := p + sign;
    PrintedScan(v, base, front, d);
    SignedStart(p, sign, d, base);
    NoWrap(base);
    NoLeadingZero(v, base);
    var s, i := front + d, |front|;
    assert At(s, i) == d[0];
    hide BLANKS;
    hide Scan;
    hide Cased;
    hide Digits;
    hide Negated;
    hide DigitsStart;
    hide Wrap;
    var j := if base == 8 && v == 0 then i + 1 else i;
    assert DigitsStart(s, base) == (base, j);
    OutcomeSigned(s, j, Scan(s, j, base, 0), v, sign);
    hide Outcome;
  }

  /** In base 0 the prefix tells the base: none is decimal, a leading 0 octal, 0x or 0X hexadecimal. */
  lemma {:induction false} ParsedDecimal(v: nat, p: seq<char>, sign: seq<char>)
    requires 0 < v <= ULONG_MAX
    requires (forall c | c in p :: c in BLANKS) && (sign == [] || sign == ['+'] || sign == ['-'])
    ensures var s := p + sign + Digits(v, 10); Parsed(s, 0) == (SignedValue(v, sign), |s|)
  {
    var front, d := p + sign, Digits(v, 10);
    PrintedScan(v, 10, front, d);
    SignedStart(p, sign, d, 0);
    NoWrap(10);
    var s := front + d;
    assert At(s, |front|) == d[0];
    hide BLANKS;
    hide Scan;
    hide Digits;
    hide Negated;
    hide DigitsStart;
    hide Wrap;
    OutcomeSigned(s, |front|, Scan(s, |front|, 10, 0), v, sign);
    hide Outcome;
  }

  lemma {:induction false} ParsedOctal(v: nat, base: CInt, p: seq<char>, sign: seq<char>)
    requires v <= ULONG_MAX && (base == 0 || base == 8)
    requires (forall c | c in p :: c in BLANKS) && (sign == [] || sign == ['+'] || sign == ['-'])
    ensures var s := p + sign + (['0'] + Digits(v, 8)); Parsed(s, base) == (SignedValue(v, sign), |s|)
  {
    var front, d := p + sign + ['0'], Digits(v, 8);
    var s, i := p + sign + (['0'] + d), |p + sign|;
    assert s == front + d;
    assert '0' !in BLANKS;
    PrintedScan(v, 8, front, d);
    SignedStart(p, sign, ['0'] + d, base);
    SmallLetters(v, 8);
    OctalDigit(v);
    NoWrap(8);
    assert At(s, i) == '0' && At(s, i + 1) == d[0];
    hide BLANKS;
    hide Scan;
    hide Digits;
    hide Negated;
    hide DigitsStart;
    hide Wrap;
    OutcomeSigned(s, i + 1, Scan(s, i + 1, 8, 0), v, sign);
    hide Outcome;
  }

  lemma {:induction false} OctalDigit(v: nat)
    ensures ToLower(Digits(v, 8)[0]) != 'x'
  {
    DigitsNumber(v, 8);
    var c := Digits(v, 8)[0];
    assert 0 <= DigitValue(c) < 8;
  }

  lemma {:induction false} ParsedHex(v: nat, base: CInt, x: char, p: seq<char>, sign: seq<char>)
    requires v <= ULONG_MAX && ((base == 0 && x == 'X') || ((base == 0 || base == 16) && x == 'x'))
    requires (forall c | c in p :: c in BLANKS) && (sign == [] || sign == ['+'] || sign == ['-'])
    ensures var s := p + sign + (['0', x] + Digits(v, 16)); Parsed(s, base) == (SignedValue(v, sign), |s|)
  {
    var front, d := p + sign + ['0', x], Digits(v, 16);
    var s, i := p + sign + (['0', x] + d), |p + sign|;
    assert s == front + d;
    assert '0' !in BLANKS;
    PrintedScan(v, 16, front, d);
    SignedStart(p, sign, ['0', x] + d, base);
    NoWrap(16);
    assert At(s, i) == '0' && At(s, i + 1) == x;
    hide BLANKS;
    hide Scan;
    hide Digits;
    hide Negated;
    hide DigitsStart;
    hide Wrap;
    OutcomeSigned(s, i + 2, Scan(s, i + 2, 16, 0), v, sign);
    hide Outcome;
  }

  /** strtoul undoes ulltoa for every value and base. */
  lemma {:induction false} RoundTrip(v: nat, base: nat)
    requires v <= ULONG_MAX && 2 <= base <= 36
    ensures Parsed(Digits(v, base), base) == (v, if base == 8 && v == 0 then 0 else |Digits(v, base)|)
  {
    assert [] + [] + Digits(v, base) == Digits(v, base);
    ParsedPrinted(v, base, [], [], Digits(v, base));
    hide Parsed;
    hide Digits;
  }

  // ----- where parsing departs from its intent -----

  /** A letter or digit whose value is below the base. */
  predicate IsDigitOf(c: char, base: nat) {
    (IsDigit(c) || 'A' <= ToUpper(c) <= 'Z') && DigitValue(c) < base
  }

  /** Where the digits of the base end. */
  function DigitsEnd(s: seq<char>, i: nat, base: nat): (j: nat)
    requires i <= |s|
    ensures i <= j <= |s| && forall k | i <= k < j :: IsDigitOf(s[k], base)
    ensures j < |s| ==> !IsDigitOf(s[j], base)
    decreases |s| - i
  {
    if i < |s| && IsDigitOf(s[i], base) then DigitsEnd(s, i + 1, base) else i
  }

  /** The loop as it is meant: it stops at the first character that is not a digit of the base. */
  function ScanPrefix(s: seq<char>, i: nat, base: nat, ret: nat): (nat, nat)
    requires base > 0
    decreases |s| - i
  {
    if i >= |s| || !IsDigitOf(s[i], base) then (ret, i)
    else if ret > Wrap(ULONG_MAX - DigitValue(s[i])) / base then (ULONG_MAX, i)
    else ScanPrefix(s, i + 1, base, Wrap(ret * base + DigitValue(s[i])))
  }

  /** What the loop as it is meant yields: the number of the digits in front, or ULONG_MAX when it is larger. */
  lemma {:induction false} PrefixNumber(s: seq<char>, i: nat, base: nat, ret: nat)
    requires 2 <= base <= 36 && ret <= ULONG_MAX && i <= |s|
    ensures var j := DigitsEnd(s, i, base); var n := Number(s[..j], i, base, ret);
      var (value, end) := ScanPrefix(s, i, base, ret);
      if n <= ULONG_MAX then value == n && end == j else value == ULONG_MAX && end < j
    decreases |s| - i
  {
    hide Wrap;
    hide DigitValue;
    var j := DigitsEnd(s, i, base);
    if i < j {
      DigitSteps(s, i, j, base, ret);
      var next := ret * base + DigitValue(s[i]);
      if next <= ULONG_MAX {
        NoWrap(next);
        PrefixNumber(s, i + 1, base, next);
      }
    }
  }

  lemma {:induction false} DigitOf(c: char, base: nat)
    requires IsDigitOf(c, base)
    ensures 0 <= DigitValue(c) < base
  {
  }

  lemma {:induction false} DigitSteps(s: seq<char>, i: nat, j: nat, base: nat, ret: nat)
    requires 2 <= base <= 36 && i < j <= |s| && forall k | i <= k < j :: IsDigitOf(s[k], base)
    ensures 0 <= DigitValue(s[i]) < base
    ensures ret > Wrap(ULONG_MAX - DigitValue(s[i])) / base <==> ret * base + DigitValue(s[i]) > ULONG_MAX
    ensures Number(s[..j], i, base, ret) == Number(s[..j], i + 1, base, ret * base + DigitValue(s[i]))
    ensures Number(s[..j], i, base, ret) >= ret * base + DigitValue(s[i])
  {
    forall k | i <= k < j
      ensures 0 <= DigitValue(s[k]) < base
    {
      DigitOf(s[k], base);
    }
    hide DigitValue;
    hide IsDigitOf;
    assert AllDigits(s[..j], i + 1, base);
    assert s[..j][i] == s[i];
    Guard(ret, base, DigitValue(s[i]));
    hide Wrap;
    NumberGrows(s[..j], i + 1, base, ret * base + DigitValue(s[i]));
  }

  /** The loop does not test that a digit is below the base: it does as meant if and only if digits of the base are
      all that is left, or those in front of the first other character reach ULONG_MAX already. */
  lemma {:induction false} StopsIff(s: seq<char>, i: nat, base: nat, ret: nat)
    requires 2 <= base <= 36 && ret <= ULONG_MAX && i <= |s|
    ensures var j := DigitsEnd(s, i, base);
      Scan(s, i, base, ret) == ScanPrefix(s, i, base, ret) <==> j == |s| || Number(s[..j], i, base, ret) >= ULONG_MAX
    decreases |s| - i
  {
    hide Wrap;
    hide DigitValue;
    var j := DigitsEnd(s, i, base);
    if i < j {
      DigitSteps(s, i, j, base, ret);
      var next := ret * base + DigitValue(s[i]);
      if next <= ULONG_MAX {
        NoWrap(next);
        StopsIff(s, i + 1, base, next);
      }
    } else if i < |s| {
      if ret == ULONG_MAX {
        HalfIsLess(ULONG_MAX - DigitValue(s[i]), base);
      }
      ScanOn(s, i, base, ret);
    }
  }

  /** A turn of the loop goes on by at least one character, or ends with ULONG_MAX. */
  lemma {:induction false} ScanOn(s: seq<char>, i: nat, base: nat, ret: nat)
    requires base > 0 && i < |s|
    ensures Scan(s, i, base, ret).1 > i || Scan(s, i, base, ret) == (ULONG_MAX, i)
    ensures Scan(s, i, base, ret).1 == i ==> ret > Wrap(ULONG_MAX - DigitValue(s[i])) / base
    decreases |s| - i
  {
    hide Wrap;
    hide DigitValue;
    if i + 1 < |s| {
      ScanOn(s, i + 1, base, Wrap(ret * base + DigitValue(s[i])));
    }
  }

  /** strtoul as it is meant, with the loop that stops at the first character that is not a digit of the base. */
  function Meant(s: seq<char>, base: CInt): (nat, nat) {
    var (radix, i) := DigitsStart(s, base);
    Outcome(s, i, ScanPrefix(s, i, Wrap(radix), 0))
  }

  /** The two loops end alike, or the one goes on beyond the end of the other, or only the one reports ULONG_MAX. */
  lemma {:induction false} ScansDiffer(s: seq<char>, i: nat, base: nat, ret: nat)
    requires base > 0 && ret <= ULONG_MAX && i <= |s|
    ensures var (v, end), (w, stop) := Scan(s, i, base, ret), ScanPrefix(s, i, base, ret);
      && i <= stop && w <= ULONG_MAX
      && ((v == w && end == stop) || end > stop || (end == stop && v == ULONG_MAX > w))
    decreases |s| - i
  {
    hide DigitValue;
    if i < |s| {
      var next := Wrap(ret * base + DigitValue(s[i]));
      assert next <= ULONG_MAX;
      hide Wrap;
      if IsDigitOf(s[i], base) {
        ScansDiffer(s, i + 1, base, next);
      } else {
        ScanOn(s, i, base, ret);
      }
    }
  }

  lemma {:induction false} StartInside(s: seq<char>, base: CInt)
    requires base == 0 || 2 <= base <= 36
    ensures var (radix, i) := DigitsStart(s, base); 2 <= radix <= 36 && Wrap(radix) == radix && i <= |s|
  {
    var (radix, i) := DigitsStart(s, base);
    SpacesInside(s, 0);
    NoWrap(radix);
    hide SkipSpaces;
    hide Wrap;
  }

  lemma {:induction false} SpacesInside(s: seq<char>, i: nat)
    requires i <= |s|
    ensures SkipSpaces(s, i) <= |s|
    decreases |s| - i
  {
    if i < |s| && IsSpace(s[i]) {
      SpacesInside(s, i + 1);
    }
  }

  lemma {:induction false} OutcomesDiffer(s: seq<char>, i: nat, a: (nat, nat), b: (nat, nat))
    requires i <= b.1 && b.0 <= ULONG_MAX
    requires a == b || a.1 > b.1 || (a.1 == b.1 && a.0 == ULONG_MAX > b.0)
    ensures Outcome(s, i, a) == Outcome(s, i, b) <==> a == b
  {
    hide Negated;
    if a.1 == b.1 && a.0 == ULONG_MAX > b.0 {
      assert Wrap(0 - ULONG_MAX) == 1;
      assert Wrap(0 - b.0) == if b.0 == 0 then 0 else ULONG_LIMIT - b.0;
      hide Wrap;
    }
  }

  /** strtoul does as meant if and only if only digits of the base follow spaces, sign and prefix, or those in front of
      the first other character reach ULONG_MAX already. */
  lemma {:induction false} MeantIff(s: seq<char>, base: CInt)
    requires base == 0 || 2 <= base <= 36
    ensures var (radix, i) := DigitsStart(s, base);
      && 2 <= radix <= 36 && i <= |s|
      && var j := DigitsEnd(s, i, radix);
      Parsed(s, base) == Meant(s, base) <==> j == |s| || Number(s[..j], i, radix, 0) >= ULONG_MAX
  {
    StartInside(s, base);
    var (radix, i) := DigitsStart(s, base);
    StopsIff(s, i, radix, 0);
    ScansDiffer(s, i, radix, 0);
    OutcomesDiffer(s, i, Scan(s, i, radix, 0), ScanPrefix(s, i, radix, 0));
  }

  /** In base 8 the character 9 is taken for a digit. */
  lemma {:induction false} NineIsTaken()
    ensures Parsed("9", 8) == (9, 1) && ScanPrefix("9", 0, 8, 0) == (0, 0)
  {
    assert DigitValue('9') == 9 && Wrap(ULONG_MAX - 9) / 8 > 0;
    LastCharacter("9", 0, 8, 0);
    hide Scan;
    hide DigitValue;
  }

  /** The last turn of the loop, for a value that the base does not bound. */
  lemma {:induction false} LastCharacter(s: seq<char>, i: nat, base: nat, ret: nat)
    requires base > 0 && i + 1 == |s| && 0 <= DigitValue(s[i]) && ret * base + DigitValue(s[i]) <= ULONG_MAX
    requires ret <= Wrap(ULONG_MAX - DigitValue(s[i])) / base
    ensures Scan(s, i, base, ret) == (ret * base + DigitValue(s[i]), |s|)
  {
    hide DigitValue;
    NoWrap(ret * base + DigitValue(s[i]));
    assert Scan(s, i + 1, base, ret * base + DigitValue(s[i])) == (ret * base + DigitValue(s[i]), |s|);
    hide Wrap;
  }

  lemma {:induction false} NumberShift(p: seq<char>, s: seq<char>, i: nat, base: nat, high: int)
    requires i <= |s|
    ensures Number(p + s, |p| + i, base, high) == Number(s, i, base, high)
    decreases |s| - i
  {
    if i < |s| {
      NumberShift(p, s, i + 1, base, high * base + DigitValue(s[i]));
    }
  }

  lemma {:induction false} NumberApart(s: seq<char>, i: nat, base: nat, low: int, high: int)
    requires base > 0 && low <= high
    ensures Number(s, i, base, high) - Number(s, i, base, low) >= high - low
    decreases |s| - i
  {
    hide DigitValue;
    if i < |s| {
      var d := DigitValue(s[i]);
      assert (high - low) * base == high * base - low * base;
      if high > low {
        Scale(base, high - low);
      }
      NumberApart(s, i + 1, base, low * base + d, high * base + d);
    }
  }

  /** In base 16 the prefix 0x is skipped and 0X is not, where X counts 33: the value is the one printed if and only
      if the letter is small or the value is ULONG_MAX.  In base 0 both prefixes are skipped. */
  lemma {:induction false} HexPrefix(v: nat, x: char)
    requires v <= ULONG_MAX && (x == 'x' || x == 'X')
    ensures var s := ['0', x] + Digits(v, 16);
      && (Parsed(s, 16).0 == v <==> x == 'x' || v == ULONG_MAX)
      && Parsed(s, 0) == (v, |s|)
  {
    var d := Digits(v, 16);
    var p := ['0', x];
    var s := p + d;
    DigitsNumber(v, 16);
    assert AllDigits(s, 2, 16);
    NumberShift(p, d, 0, 16, 0);
    ScanNumber(s, 2, 16, 0);
    if x == 'X' {
      NumberShift(p, d, 0, 16, 33);
      ScanNumber(s, 2, 16, 33);
      NumberApart(d, 0, 16, 0, 33);
      LetterTaken(s);
    }
    hide Scan;
    hide Digits;
    hide Number;
    hide DigitValue;
    hide Wrap;
    assert Wrap(16) == 16 by { NoWrap(16); }
    assert SkipSpaces(s, 0) == 0;
    hide SkipSpaces;
  }

  lemma {:induction false} LetterTaken(s: seq<char>)
    requires |s| >= 2 && s[0] == '0' && s[1] == 'X'
    ensures Scan(s, 0, 16, 0) == Scan(s, 2, 16, 33)
  {
    assert Scan(s, 0, 16, 0) == Scan(s, 1, 16, 0);
  }

  lemma {:induction false} LetterAndOne(s: seq<char>)
    requires |s| == 3 && s[0] == '0' && (s[1] == 'X' || s[1] == 'x') && s[2] == '1'
    ensures Parsed(s, 16) == if s[1] == 'X' then (529, 3) else (1, 3)
  {
    assert DigitValue('1') == 1 && Wrap(ULONG_MAX - 1) / 16 > 33;
    if s[1] == 'X' {
      LetterTaken(s);
      LastCharacter(s, 2, 16, 33);
    } else {
      LastCharacter(s, 2, 16, 0);
    }
    NoWrap(16);
    assert SkipSpaces(s, 0) == 0;
    hide SkipSpaces;
    hide Scan;
    hide DigitValue;
    hide Wrap;
  }

  lemma {:induction false} LetterWitness()
    ensures Parsed("0X1", 16) == (529, 3) && Parsed("0x1", 16) == (1, 3)
  {
    hide *;
    LetterAndOne("0X1");
    LetterAndOne("0x1");
  }
}
