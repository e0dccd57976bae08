/** Printing numbers (src/lib/libc/printf.c) and reading them back (strtoul of src/lib/libc/string.c). */
module Format {
  import opened Kernel

  /** PRINTF_NTOA_BUFFER_SIZE. */
  const BUFFER: nat := 32

  /** The flag bits of printf.c that number printing looks at. */
  datatype Flags = Flags(left: bool, zeropad: bool, plus: bool, space: bool, hash: bool, upper: bool, precision: bool)

  // ---------------------------------------------------------------- digits and values

  function DigitChar(d: nat, upper: bool): char
    requires d < 16
  {
    if d < 10 then ('0' as int + d) as char else ((if upper then 'A' else 'a') as int + d - 10) as char
  }

  /** The digit a character stands for in strtoul; -1 for any other character. */
  function DigitOf(c: char): int {
    if '0' <= c <= '9' then c as int - '0' as int
    else if 'a' <= c <= 'f' then c as int - 'a' as int + 10
    else if 'A' <= c <= 'F' then c as int - 'A' as int + 10
    else -1
  }

  predicate IsDigit(c: char, base: int) {
    0 <= DigitOf(c) < base
  }

  predicate AllDigits(s: string, base: int) {
    forall i :: 0 <= i < |s| ==> IsDigit(s[i], base)
  }

  /** v in the given base, most significant digit first; zero is one digit. */
  function Digits(v: nat, base: nat, upper: bool): string
    requires 2 <= base <= 16
  {
    if v < base then [DigitChar(v, upper)] else Digits(v / base, base, upper) + [DigitChar(v % base, upper)]
  }

  /** The number that a string of digits denotes. */
  function Value(s: string, base: int): nat
    requires AllDigits(s, base)
  {
    if s == [] then 0 else Value(s[..|s| - 1], base) * base + DigitOf(s[|s| - 1])
  }

  function Pow(base: nat, n: nat): nat {
    if n == 0 then 1 else Pow(base, n - 1) * base
  }

  lemma ValueSnoc(s: string, c: char, base: int)
    requires AllDigits(s, base) && IsDigit(c, base)
    ensures AllDigits(s + [c], base) && Value(s + [c], base) == Value(s, base) * base + DigitOf(c)
  {
    assert (s + [c])[..|s|] == s;
  }

  /** Printing and reading a numeral are inverse. */
  lemma {:induction false} ValueOfDigits(v: nat, base: nat, upper: bool)
    requires 2 <= base <= 16
    ensures AllDigits(Digits(v, base, upper), base) && Value(Digits(v, base, upper), base) == v
    decreases v
  {
    if v >= base {
      Smaller(v, base);
      ValueOfDigits(v / base, base, upper);
      ValueSnoc(Digits(v / base, base, upper), DigitChar(v % base, upper), base);
    } else {
      var s := [DigitChar(v, upper)];
      assert s[..0] == [];
      assert Value(s[..0], base) == 0;
    }
  }

  lemma Smaller(v: nat, base: nat)
    requires 2 <= base <= v
    ensures v / base < v && 0 < v / base && v == (v / base) * base + v % base
  {}

  /** A numeral below base^n has at most n digits. */
  lemma {:induction false} DigitCount(v: nat, base: nat, upper: bool, n: nat)
    requires 2 <= base <= 16 && 0 < n && v < Pow(base, n)
    ensures |Digits(v, base, upper)| <= n
    decreases v
  {
    if v >= base {
      Smaller(v, base);
      if n == 1 {
        assert Pow(base, 0) == 1;
        assert false;
      }
      if v / base >= Pow(base, n - 1) {
        MulMono(Pow(base, n - 1), v / base, base);
        assert false;
      }
      DigitCount(v / base, base, upper, n - 1);
    }
  }

  lemma MulMono(a: nat, b: nat, k: nat)
    requires a <= b
    ensures a * k <= b * k
  {}

  lemma {:induction false} PowMono(base: nat, n: nat)
    requires 2 <= base
    ensures Pow(2, n) <= Pow(base, n)
  {
    if n > 0 {
      PowMono(base, n - 1);
      MulMono(Pow(2, n - 1), Pow(base, n - 1), 2);
      assert Pow(base, n - 1) * 2 <= Pow(base, n - 1) * base;
    }
  }

  lemma Pow32()
    ensures Pow(2, 32) == TWO32
  {
    assert Pow(2, 8) == 256;
    assert Pow(2, 16) == 0x1_0000;
    assert Pow(2, 24) == 0x100_0000;
  }

  /** Every 32-bit value fits the buffer in every base. */
  lemma FitsBuffer(v: nat, base: nat, upper: bool)
    requires 2 <= base <= 16 && v < TWO32
    ensures 0 < |Digits(v, base, upper)| <= BUFFER
  {
    Pow32();
    PowMono(base, 32);
    DigitCount(v, base, upper, 32);
  }

  lemma Horner(v: nat, p: nat, base: nat, d: nat)
    requires v < p && d < base
    ensures v * base + d < p * base
  {
    MulMono(v + 1, p, base);
    assert (v + 1) * base == v * base + base;
  }

  lemma {:induction false} ValueBelow(s: string, base: nat)
    requires AllDigits(s, base) && 2 <= base
    ensures Value(s, base) < Pow(base, |s|)
  {
    if s != [] {
      var t := s[..|s| - 1];
      ValueBelow(t, base);
      Horner(Value(t, base), Pow(base, |t|), base, DigitOf(s[|s| - 1]));
    }
  }

  lemma {:induction false} DigitsAtLeast(v: nat, base: nat, upper: bool)
    requires 2 <= base <= 16 && 0 < v
    ensures Pow(base, |Digits(v, base, upper)| - 1) <= v
    decreases v
  {
    if v >= base {
      Smaller(v, base);
      DigitsAtLeast(v / base, base, upper);
      MulMono(Pow(base, |Digits(v / base, base, upper)| - 1), v / base, base);
    }
  }

  lemma {:induction false} PowUp(base: nat, m: nat, n: nat)
    requires 1 <= base && m <= n
    ensures Pow(base, m) <= Pow(base, n)
  {
    if m < n {
      PowUp(base, m, n - 1);
      assert Pow(base, n - 1) * 1 <= Pow(base, n - 1) * base;
    }
  }

  /** n copies of c. */
  function Fill(c: char, n: nat): (s: string)
    ensures |s| == n && forall i :: 0 <= i < n ==> s[i] == c
  {
    if n == 0 then [] else Fill(c, n - 1) + [c]
  }

  lemma FillNext(c: char, n: nat)
    ensures Fill(c, n) + [c] == Fill(c, n + 1) == [c] + Fill(c, n)
  {}

  /** Leading zeros do not change the value. */
  lemma {:induction false} LeadingZeros(n: nat, s: string, base: int)
    requires AllDigits(s, base) && 0 < base
    ensures AllDigits(Fill('0', n) + s, base) && Value(Fill('0', n) + s, base) == Value(s, base)
  {
    var z := Fill('0', n) + s;
    if s != [] {
      LeadingZeros(n, s[..|s| - 1], base);
      assert z[..|z| - 1] == Fill('0', n) + s[..|s| - 1];
    } else if n > 0 {
      LeadingZeros(n - 1, [], base);
      assert z[..n - 1] == Fill('0', n - 1) + [];
      assert z[n - 1] == '0';
    } else {
      assert z == [];
    }
  }

  // ---------------------------------------------------------------- printing: specification

  function Max(a: int, b: int): int { if a > b then a else b }

  function Min(a: int, b: int): int { if a < b then a else b }

  /** The width that is left once a sign takes a place of a zero-padded field. */
  function FieldWidth(negative: bool, width: nat, f: Flags): nat {
    if !f.left && width > 0 && f.zeropad && (negative || f.plus || f.space) then width - 1 else width
  }

  /** The length after zero padding. */
  function PaddedLen(n: nat, prec: nat, w: nat, f: Flags): nat {
    if f.left then n else Max(n, Min(BUFFER, Max(prec, if f.zeropad then w else 0)))
  }

  function ZeroPadded(t: string, prec: nat, w: nat, f: Flags): string {
    Fill('0', PaddedLen(|t|, prec, w, f) - |t|) + t
  }

  /** How many leading characters the '#' flag takes away again. */
  function Stripped(n: nat, base: nat, prec: nat, w: nat, f: Flags): nat {
    if f.hash && !f.precision && n > 0 && (n == prec || n == w) then (if base == 16 && n > 1 then 2 else 1) else 0
  }

  /** The prefix that the '#' flag puts in front of n characters, as far as the buffer has room. */
  function Prefix(n: nat, base: nat, f: Flags): string {
    if !f.hash || n >= BUFFER then ""
    else if base != 16 && base != 2 then "0"
    else var letter := if base == 2 then 'b' else if f.upper then 'X' else 'x';
      if n + 1 < BUFFER then ['0', letter] else [letter]
  }

  /** The sign in front of n characters; none when the buffer is full. */
  function Sign(n: nat, negative: bool, f: Flags): string {
    if n >= BUFFER then "" else if negative then "-" else if f.plus then "+" else if f.space then " " else ""
  }

  /** The field: spaces before or after the text. */
  function Field(t: string, w: nat, f: Flags): string {
    (if !f.left && !f.zeropad then Fill(' ', Max(0, w - |t|)) else "") + t
    + (if f.left then Fill(' ', Max(0, w - |t|)) else "")
  }

  /** The digits left after padding and stripping. */
  function Body(t: string, base: nat, prec: nat, w: nat, f: Flags): string {
    var z := ZeroPadded(t, prec, w, f);
    z[Stripped(|z|, base, prec, w, f)..]
  }

  /** What _ntoa_format prints for the digits t. */
  function Formatted(t: string, negative: bool, base: nat, prec: nat, width: nat, f: Flags): string {
    var w := FieldWidth(negative, width, f);
    var b := Body(t, base, prec, w, f);
    var p := Prefix(|b|, base, f) + b;
    Field(Sign(|p|, negative, f) + p, w, f)
  }

  /** No '#' for zero. */
  function Effective(v: nat, f: Flags): Flags {
    if v == 0 then f.(hash := false) else f
  }

  /** The digits _ntoa_long produces: none for a zero with an explicit precision. */
  function DigitText(v: nat, base: nat, f: Flags): string
    requires 2 <= base <= 16
  {
    if f.precision && v == 0 then "" else Digits(v, base, f.upper)
  }

  /** What _ntoa_long prints. */
  function Printed(v: nat, negative: bool, base: nat, prec: nat, width: nat, f: Flags): string
    requires 2 <= base <= 16
  {
    Formatted(DigitText(v, base, f), negative, base, prec, width, Effective(v, f))
  }

  // ---------------------------------------------------------------- what the text looks like

  /** The parts of a printed number: blanks, sign, prefix of the '#' flag, number, blanks; and the digits
      the number is made of. */
  datatype Parts = Parts(lead: nat, sign: string, prefix: string, number: string, trail: nat, digits: string)

  /** Letters are upper case exactly under the flag. */
  ghost predicate CaseOk(t: string, upper: bool) {
    forall i :: 0 <= i < |t| ==> ('a' <= t[i] <= 'z' ==> !upper) && ('A' <= t[i] <= 'Z' ==> upper)
  }

  /** t is the numeral of v: no leading zero, and nothing at all for a zero with an explicit precision. */
  ghost predicate NumeralOf(t: string, v: nat, base: nat, f: Flags) {
    && AllDigits(t, base) && Value(t, base) == v && (t == "" <==> v == 0 && f.precision)
    && (1 < |t| ==> t[0] != '0') && CaseOk(t, f.upper)
  }

  /** The length of n digits after zero padding, to the precision and, under '0', to the width, but never
      beyond the buffer; `signed` says that a sign is asked for. */
  function LengthAsked(n: nat, signed: bool, prec: nat, width: nat, f: Flags): int {
    if f.left then n
    else
      var w := if f.zeropad && signed && 0 < width then width - 1 else width;
      Max(n, Max(Min(BUFFER, prec), if f.zeropad then Min(BUFFER, w) else 0))
  }

  /** How many of z characters '#' drops in front: when they fill the precision or the width, one, and two in
      base 16. */
  function DroppedByHash(z: int, signed: bool, base: nat, prec: nat, width: nat, f: Flags): int {
    var w := if f.zeropad && signed && 0 < width && !f.left then width - 1 else width;
    if f.precision || z == 0 || (z != prec && z != w) then 0 else if base == 16 && 1 < z then 2 else 1
  }

  /** The number: the digits padded with zeros, less what '#' drops. */
  ghost predicate NumberMade(number: string, digits: string, hash: bool, signed: bool, base: nat, prec: nat, width: nat,
                             f: Flags) {
    var z := LengthAsked(|digits|, signed, prec, width, f);
    && |digits| <= z <= BUFFER
    && number == (Fill('0', z - |digits|) + digits)[if hash then DroppedByHash(z, signed, base, prec, width,
                                                                               f) else 0..]
  }

  /** The prefix in front of n characters, as far as the buffer has room for it. */
  ghost predicate PrefixMade(prefix: string, n: nat, hash: bool, base: nat, f: Flags) {
    prefix == if !hash || n == BUFFER then ""
              else if base == 16 && n == BUFFER - 1 then (if f.upper then "X" else "x")
              else if base == 16 then (if f.upper then "0X" else "0x")
              else if base == 2 && n == BUFFER - 1 then "b"
              else if base == 2 then "0b"
              else "0"
  }

  /** The sign in front of n characters. */
  ghost predicate SignMade(sign: string, n: nat, negative: bool, f: Flags) {
    sign == if n == BUFFER then ""
            else if negative then "-"
            else if f.plus then "+"
            else if f.space then " "
            else ""
  }

  /** The blanks: in front, or behind under '-', up to the width; none under '0' alone. */
  ghost predicate FieldMade(out: string, lead: nat, core: string, trail: nat, width: nat, f: Flags) {
    && out == Fill(' ', lead) + core + Fill(' ', trail)
    && (f.left ==> lead == 0) && (!f.left ==> trail == 0) && (f.zeropad && !f.left ==> lead == 0)
    && (f.left || !f.zeropad ==> |out| == Max(width, |core|))
  }

  ghost predicate MadeOf(out: string, p: Parts, v: nat, negative: bool, base: nat, prec: nat, width: nat, f: Flags) {
    var hash, signed := f.hash && v != 0, negative || f.plus || f.space;
    && NumeralOf(p.digits, v, base, f)
    && NumberMade(p.number, p.digits, hash, signed, base, prec, width, f)
    && PrefixMade(p.prefix, |p.number|, hash, base, f)
    && SignMade(p.sign, |p.prefix + p.number|, negative, f)
    && FieldMade(out, p.lead, p.sign + p.prefix + p.number, p.trail, width, f)
  }

  /** What _ntoa_long is to print, part by part. */
  ghost predicate Made(out: string, p: Parts, v: nat, negative: bool, base: nat, prec: nat, width: nat, f: Flags) {
    MadeSeal(out, p, v, negative, base, prec, width, f).Intact?
  }

  ghost function MadeSeal(out: string, p: Parts, v: nat, negative: bool, base: nat, prec: nat, width: nat,
                          f: Flags): Seal {
    if forall k {:trigger Open(TheRange, k)} :: Open(TheRange, k) ==> MadeOf(out, p, v, negative, base, prec, width, f)
    then Intact else Broken
  }

  lemma {:induction false} DigitsCase(v: nat, base: nat, upper: bool)
    requires 2 <= base <= 16
    ensures CaseOk(Digits(v, base, upper), upper)
    decreases v
  {
    if v >= base {
      Smaller(v, base);
      DigitsCase(v / base, base, upper);
    }
  }

  lemma {:induction false} FirstDigit(v: nat, base: nat, upper: bool)
    requires 2 <= base <= 16 && 0 < v
    ensures Digits(v, base, upper)[0] != '0'
    decreases v
  {
    if v >= base {
      Smaller(v, base);
      FirstDigit(v / base, base, upper);
    }
  }

  lemma DigitTextNumeral(v: nat, base: nat, f: Flags)
    requires 2 <= base <= 16 && v < TWO32
    ensures NumeralOf(DigitText(v, base, f), v, base, f) && |DigitText(v, base, f)| <= BUFFER
  {
    if !(f.precision && v == 0) {
      FitsBuffer(v, base, f.upper);
      ValueOfDigits(v, base, f.upper);
      DigitsCase(v, base, f.upper);
      if 0 < v {
        FirstDigit(v, base, f.upper);
      }
    }
  }

  lemma BodyMade(t: string, v: nat, negative: bool, base: nat, prec: nat, width: nat, f: Flags)
    requires |t| <= BUFFER
    ensures var e := Effective(v, f);
            var b := Body(t, base, prec, FieldWidth(negative, width, e), e);
            && |b| <= BUFFER
            && NumberMade(b, t, f.hash && v != 0, negative || f.plus || f.space, base, prec, width, f)
  {
    var e := Effective(v, f);
    var w := FieldWidth(negative, width, e);
    var signed := negative || f.plus || f.space;
    LengthsAgree(|t|, v, negative, base, prec, width, f);
  }

  lemma LengthsAgree(n: nat, v: nat, negative: bool, base: nat, prec: nat, width: nat, f: Flags)
    requires n <= BUFFER
    ensures var e, signed := Effective(v, f), negative || f.plus || f.space;
            var w := FieldWidth(negative, width, e);
            var z := PaddedLen(n, prec, w, e);
            && n <= z <= BUFFER && z == LengthAsked(n, signed, prec, width, f)
            && Stripped(z, base, prec, w, e) ==
               if f.hash && v != 0 then DroppedByHash(z, signed, base, prec, width, f) else 0
  {}

  lemma MarksMade(b: string, v: nat, negative: bool, base: nat, f: Flags) returns (sign: string, prefix: string)
    requires |b| <= BUFFER
    ensures var e := Effective(v, f);
            var p := Prefix(|b|, base, e) + b;
            Sign(|p|, negative, e) + p == sign + prefix + b
    ensures PrefixMade(prefix, |b|, f.hash && v != 0, base, f) && SignMade(sign, |prefix + b|, negative, f)
  {
    var e := Effective(v, f);
    prefix := Prefix(|b|, base, e);
    sign := Sign(|prefix + b|, negative, e);
    SeqAssoc(sign, prefix, b);
    assert |prefix + b| <= BUFFER;
  }

  lemma BlanksMade(core: string, width: nat, f: Flags) returns (lead: nat, trail: nat)
    ensures FieldMade(Field(core, width, f), lead, core, trail, width, f)
  {
    var room := Max(0, width - |core|);
    lead, trail := if !f.left && !f.zeropad then room else 0, if f.left then room else 0;
  }

  lemma CoreMade(t: string, v: nat, negative: bool, base: nat, prec: nat, width: nat, f: Flags)
      returns (sign: string, prefix: string, b: string)
    requires |t| <= BUFFER
    ensures var e, hash := Effective(v, f), f.hash && v != 0;
            && Formatted(t, negative, base, prec, width, e)
               == Field(sign + prefix + b, FieldWidth(negative, width, e), e)
            && NumberMade(b, t, hash, negative || f.plus || f.space, base, prec, width, f)
            && PrefixMade(prefix, |b|, hash, base, f) && SignMade(sign, |prefix + b|, negative, f)
  {
    var e := Effective(v, f);
    b := Body(t, base, prec, FieldWidth(negative, width, e), e);
    BodyMade(t, v, negative, base, prec, width, f);
    sign, prefix := MarksMade(b, v, negative, base, f);
  }

  lemma Assemble(out: string, p: Parts, v: nat, negative: bool, base: nat, prec: nat, width: nat, f: Flags)
    requires var hash, signed := f.hash && v != 0, negative || f.plus || f.space;
             && NumeralOf(p.digits, v, base, f)
             && NumberMade(p.number, p.digits, hash, signed, base, prec, width, f)
             && PrefixMade(p.prefix, |p.number|, hash, base, f)
             && SignMade(p.sign, |p.prefix + p.number|, negative, f)
             && FieldMade(out, p.lead, p.sign + p.prefix + p.number, p.trail, width, f)
    ensures Made(out, p, v, negative, base, prec, width, f)
  {}

  /** The width that zeros were counted for does not matter to the blanks. */
  lemma FieldEffective(out: string, lead: nat, core: string, trail: nat, negative: bool, width: nat, v: nat, f: Flags)
    requires FieldMade(out, lead, core, trail, FieldWidth(negative, width, Effective(v, f)), Effective(v, f))
    ensures FieldMade(out, lead, core, trail, width, f)
  {}

  /** The text printed has these parts. */
  lemma PrintedMade(v: nat, negative: bool, base: nat, prec: nat, width: nat, f: Flags) returns (p: Parts)
    requires 2 <= base <= 16 && v < TWO32
    ensures Made(Printed(v, negative, base, prec, width, f), p, v, negative, base, prec, width, f)
  {
    var out, t := Printed(v, negative, base, prec, width, f), DigitText(v, base, f);
    DigitTextNumeral(v, base, f);
    var sign, prefix, b := CoreMade(t, v, negative, base, prec, width, f);
    var e := Effective(v, f);
    var lead, trail := BlanksMade(sign + prefix + b, FieldWidth(negative, width, e), e);
    FieldEffective(out, lead, sign + prefix + b, trail, negative, width, v, f);
    p := Parts(lead, sign, prefix, b, trail, t);
    Assemble(out, p, v, negative, base, prec, width, f);
  }

  lemma LastDigit(t: string, base: nat)
    requires AllDigits(t, base) && t != "" && 2 <= base
    ensures DigitOf(t[|t| - 1]) == Value(t, base) % base
  {
    var d, h := DigitOf(t[|t| - 1]), Value(t[..|t| - 1], base);
    ModIs(h, base, d);
  }

  lemma ModIs(h: nat, base: nat, d: nat)
    requires d < base
    ensures (h * base + d) % base == d
  {
    var x := h * base + d;
    assert x == base * (x / base) + x % base;
    var k := h - x / base;
    assert base * k == x % base - d;
    if 0 < k {
      MulMono(1, k, base);
    } else if k < 0 {
      MulMono(1, -k, base);
    }
  }

  /** What is left of padded digits ends as they do. */
  lemma SuffixFacts(pad: nat, digits: string, k: nat, v: nat, base: nat, f: Flags)
    requires 2 <= base <= 16 && NumeralOf(digits, v, base, f) && k < pad + |digits|
    ensures var t := (Fill('0', pad) + digits)[k..];
            t != "" && AllDigits(t, base) && CaseOk(t, f.upper) && DigitOf(t[|t| - 1]) == v % base
  {
    var whole := Fill('0', pad) + digits;
    var t := whole[k..];
    LeadingZeros(pad, digits, base);
    LastDigit(whole, base);
    assert forall i :: 0 <= i < |t| ==> t[i] == whole[k + i];
    assert forall i :: 0 <= i < |whole| ==> whole[i] == '0' || whole[i] == digits[i - pad];
  }

  /** The number ends in the last digit of the value. */
  lemma NumberEnds(out: string, p: Parts, v: nat, negative: bool, base: nat, prec: nat, width: nat, f: Flags)
    requires 2 <= base <= 16 && Made(out, p, v, negative, base, prec, width, f) && p.number != ""
    ensures DigitOf(p.number[|p.number| - 1]) == v % base && AllDigits(p.number, base) && CaseOk(p.number, f.upper)
  {
    var pad, k := MadeNumber(out, p, v, negative, base, prec, width, f);
    SuffixFacts(pad, p.digits, k, v, base, f);
  }

  lemma MadeNumber(out: string, p: Parts, v: nat, negative: bool, base: nat, prec: nat, width: nat, f: Flags)
      returns (pad: nat, k: nat)
    requires Made(out, p, v, negative, base, prec, width, f)
    ensures NumeralOf(p.digits, v, base, f)
    ensures k <= pad + |p.digits| && p.number == (Fill('0', pad) + p.digits)[k..]
  {
    assert Open(TheRange, 0);
    var signed := negative || f.plus || f.space;
    var z := LengthAsked(|p.digits|, signed, prec, width, f);
    pad, k := z - |p.digits|, if f.hash && v != 0 then DroppedByHash(z, signed, base, prec, width, f) else 0;
  }

  /** The text reaches the width unless zeros were to fill more than the buffer. */
  lemma ReachesWidth(out: string, p: Parts, v: nat, negative: bool, base: nat, prec: nat, width: nat, f: Flags)
    requires Made(out, p, v, negative, base, prec, width, f)
    ensures |out| >= width <==> f.left || !f.zeropad || width <= BUFFER
  {
    assert Open(TheRange, 0);
    if f.zeropad && !f.left {
      ZeroField(|p.digits|, |p.number|, |p.prefix|, |p.sign|, f.hash && v != 0, negative, base, prec, width, f);
    }
  }

  lemma ZeroField(n: nat, number: nat, prefix: nat, sign: nat, hash: bool, negative: bool, base: nat, prec: nat,
                  width: nat, f: Flags)
    requires var signed := negative || f.plus || f.space;
             var z := LengthAsked(n, signed, prec, width, f);
             && n <= z <= BUFFER
             && number == z - (if hash then DroppedByHash(z, signed, base, prec, width, f) else 0)
             && prefix == (if !hash || number == BUFFER then 0
                           else if number == BUFFER - 1 || (base != 16 && base != 2) then 1 else 2)
             && sign == if signed && prefix + number != BUFFER then 1 else 0
    requires f.zeropad && !f.left
    ensures sign + prefix + number >= width <==> width <= BUFFER
  {}

  /** The text is its core with blanks on one side. */
  lemma OneSide(out: string, p: Parts, v: nat, negative: bool, base: nat, prec: nat, width: nat, f: Flags)
    requires Made(out, p, v, negative, base, prec, width, f)
    ensures var core := p.sign + p.prefix + p.number;
            out == if f.left then core + Fill(' ', p.trail) else Fill(' ', p.lead) + core
  {
    assert Open(TheRange, 0);
    var core := p.sign + p.prefix + p.number;
    assert Fill(' ', 0) == "" && Fill(' ', p.lead) + core + "" == Fill(' ', p.lead) + core && "" + core == core;
  }

  /** Right-justified text ends in the last digit of the value, left-justified text starts with sign, prefix
      or digits. */
  lemma Justified(out: string, p: Parts, v: nat, negative: bool, base: nat, prec: nat, width: nat, f: Flags)
    requires 2 <= base <= 16 && Made(out, p, v, negative, base, prec, width, f)
    ensures !f.left && p.number != "" ==> out != "" && DigitOf(out[|out| - 1]) == v % base
    ensures f.left && p.sign + p.prefix + p.number != "" ==> out != "" && (out[0] == ' ' <==> p.sign == " ")
  {
    OneSide(out, p, v, negative, base, prec, width, f);
    if !f.left && p.number != "" {
      NumberEnds(out, p, v, negative, base, prec, width, f);
      LastOf(Fill(' ', p.lead) + (p.sign + p.prefix), p.number);
      assert out == Fill(' ', p.lead) + (p.sign + p.prefix) + p.number;
    }
    if f.left && p.sign + p.prefix + p.number != "" {
      FirstOfCore(out, p, v, negative, base, prec, width, f);
    }
  }

  lemma LastOf(s: string, t: string)
    requires t != ""
    ensures (s + t)[|s + t| - 1] == t[|t| - 1]
  {}

  lemma FirstOfCore(out: string, p: Parts, v: nat, negative: bool, base: nat, prec: nat, width: nat, f: Flags)
    requires 2 <= base <= 16 && Made(out, p, v, negative, base, prec, width, f)
    requires p.sign + p.prefix + p.number != ""
    ensures (p.sign + p.prefix + p.number)[0] == ' ' <==> p.sign == " "
  {
    var core := p.sign + p.prefix + p.number;
    MarksShown(out, p, v, negative, base, prec, width, f);
    if p.sign != "" {
      assert core[0] == p.sign[0];
    } else if p.prefix != "" {
      assert core[0] == p.prefix[0] && p.prefix[0] in p.prefix;
    } else {
      NumberEnds(out, p, v, negative, base, prec, width, f);
      assert core[0] == p.number[0] && IsDigit(p.number[0], base);
    }
  }

  /** What the sign and the prefix are made of. */
  lemma MarksShown(out: string, p: Parts, v: nat, negative: bool, base: nat, prec: nat, width: nat, f: Flags)
    requires Made(out, p, v, negative, base, prec, width, f)
    ensures |p.prefix + p.number| <= BUFFER
    ensures '-' in p.sign <==> negative && |p.prefix + p.number| < BUFFER
    ensures '+' in p.sign <==> !negative && f.plus && |p.prefix + p.number| < BUFFER
    ensures p.sign == " " <==> !negative && !f.plus && f.space && |p.prefix + p.number| < BUFFER
    ensures p.sign == "" || p.sign == "-" || p.sign == "+" || p.sign == " "
    ensures !(f.hash && v != 0) ==> p.prefix == ""
    ensures f.hash && v != 0 && |p.number| + 2 <= BUFFER ==>
              p.prefix == if base == 16 then (if f.upper then "0X" else "0x") else if base == 2 then "0b" else "0"
    ensures forall c :: c in p.prefix ==> c == '0' || (c == 'x' && !f.upper) || (c == 'X' && f.upper)
                                          || (c == 'b' && base == 2 && f.hash)
  {
    assert Open(TheRange, 0);
  }

  /** How long the number is: under '-' as many characters as it has digits; otherwise at least as many as the
      precision and, under '0', the width less the place of a sign ask for, within the buffer. '#' shortens it
      only where it is exactly as long as one of them. */
  lemma NumberLength(out: string, p: Parts, v: nat, negative: bool, base: nat, prec: nat, width: nat, f: Flags)
    requires Made(out, p, v, negative, base, prec, width, f)
    ensures f.left && !(f.hash && v != 0) ==> p.number == p.digits
    ensures var w := if (negative || f.plus || f.space) && 0 < width then width - 1 else width;
            !f.left && !(f.hash && v != 0) ==>
              |p.number| == Max(|p.digits|, Max(Min(32, prec), if f.zeropad then Min(32, w) else 0))
    ensures f.left && f.hash && v != 0 ==>
              |p.number| == |p.digits| - if f.precision || (|p.digits| != prec && |p.digits| != width) then 0
                                         else if base == 16 && 1 < |p.digits| then 2 else 1
  {
    assert Open(TheRange, 0);
    assert |p.digits| == 0 ==> v == 0;
  }

  /** The sign shown and the case of the letters. */
  lemma Appearance(out: string, p: Parts, v: nat, negative: bool, base: nat, prec: nat, width: nat, f: Flags)
    requires 2 <= base <= 16 && Made(out, p, v, negative, base, prec, width, f)
    ensures '-' in out <==> negative && |p.prefix + p.number| < BUFFER
    ensures '+' in out <==> !negative && f.plus && |p.prefix + p.number| < BUFFER
    ensures forall c :: c in out ==>
              && ('A' <= c <= 'Z' ==> f.upper)
              && ('a' <= c <= 'z' ==> !f.upper || (base == 2 && f.hash && c == 'b'))
  {
    MarksShown(out, p, v, negative, base, prec, width, f);
    if p.number != "" {
      NumberEnds(out, p, v, negative, base, prec, width, f);
    }
    NumberChars(p.number, base, f);
    MadeText(out, p, v, negative, base, prec, width, f);
  }

  lemma MadeText(out: string, p: Parts, v: nat, negative: bool, base: nat, prec: nat, width: nat, f: Flags)
    requires Made(out, p, v, negative, base, prec, width, f)
    ensures forall c :: c in out ==> c == ' ' || c in p.sign || c in p.prefix || c in p.number
    ensures forall c :: c in p.sign ==> c in out
  {
    assert Open(TheRange, 0);
    InText(out, p.lead, p.sign, p.prefix, p.number, p.trail);
  }

  /** What a character of the text is. */
  lemma InText(out: string, lead: nat, sign: string, prefix: string, number: string, trail: nat)
    requires out == Fill(' ', lead) + (sign + prefix + number) + Fill(' ', trail)
    ensures forall c :: c in out ==> c == ' ' || c in sign || c in prefix || c in number
    ensures forall c :: c in sign ==> c in out
  {
    forall c | c in sign ensures c in out {
      var i :| 0 <= i < |sign| && sign[i] == c;
      assert out[lead + i] == c;
    }
  }

  lemma NumberChars(number: string, base: nat, f: Flags)
    requires 2 <= base <= 16 && (number != "" ==> AllDigits(number, base) && CaseOk(number, f.upper))
    ensures forall c :: c in number ==> c != '-' && c != '+'
    ensures forall c :: c in number ==> ('A' <= c <= 'Z' ==> f.upper) && ('a' <= c <= 'z' ==> !f.upper)
  {
    forall c | c in number
      ensures c != '-' && c != '+' && ('A' <= c <= 'Z' ==> f.upper) && ('a' <= c <= 'z' ==> !f.upper)
    {
      var i :| 0 <= i < |number| && number[i] == c;
      assert IsDigit(number[i], base);
    }
  }

  // ---------------------------------------------------------------- reading: specification

  predicate Blank(c: char) {
    c == ' ' || c == '\t' || c == '\n' || c == '\r'
  }

  predicate StartsWith(s: string, c: char) {
    s != [] && s[0] == c
  }

  predicate StartsWithX(s: string) {
    StartsWith(s, 'x') || StartsWith(s, 'X')
  }

  function SkipBlanks(s: string): string {
    if s != [] && Blank(s[0]) then SkipBlanks(s[1..]) else s
  }

  function AfterSign(s: string): string {
    if StartsWith(s, '+') then s[1..] else s
  }

  /** The base, and the text from which it was told when the caller passed 0. */
  function Detect(s: string, base: int): (int, string) {
    if base != 0 then (base, s)
    else if !StartsWith(s, '0') then (10, s)
    else if StartsWithX(s[1..]) then (16, s[2..]) else (8, s[1..])
  }

  function AfterHex(s: string, base: int): string {
    if base == 16 && StartsWith(s, '0') && StartsWithX(s[1..]) then s[2..] else s
  }

  /** The text at which the digits are expected, with the base they are read in. */
  function Start(s: string, base: int): (int, string) {
    var d := Detect(AfterSign(SkipBlanks(s)), base);
    (d.0, AfterHex(d.1, d.0))
  }

  /** The longest prefix that consists of digits. */
  function Run(s: string, base: int): (r: string)
    ensures AllDigits(r, base) && |r| <= |s|
  {
    if s != [] && IsDigit(s[0], base) then [s[0]] + Run(s[1..], base) else []
  }

  /** The number that strtoul finds, before it is cut to 32 bits. */
  function Parsed(s: string, base: int): nat {
    var d := Start(s, base);
    Value(Run(d.1, d.0), d.0)
  }

  // ---------------------------------------------------------------- the round trip

  lemma {:induction false} SkipFill(n: nat, t: string)
    requires t == [] || !Blank(t[0])
    ensures SkipBlanks(Fill(' ', n) + t) == t
  {
    var s := Fill(' ', n) + t;
    if n > 0 {
      FillNext(' ', n - 1);
      assert s[1..] == Fill(' ', n - 1) + t;
      SkipFill(n - 1, t);
    } else {
      assert s == t;
    }
  }

  lemma {:induction false} RunOf(body: string, tail: string, base: int)
    requires AllDigits(body, base) && (tail == [] || !IsDigit(tail[0], base))
    ensures Run(body + tail, base) == body
  {
    var s := body + tail;
    if body != [] {
      assert s[1..] == body[1..] + tail;
      RunOf(body[1..], tail, base);
    } else {
      assert s == tail;
    }
  }

  /** The first character that is neither blank nor '+' is where reading starts. */
  lemma StartAt(n: nat, sign: string, mid: string, base: int)
    requires sign == "" || sign == "+" || sign == " "
    requires mid != [] && !Blank(mid[0]) && mid[0] != '+' && base != 0
    ensures Start(Fill(' ', n) + sign + mid, base) == (base, AfterHex(mid, base))
  {
    var s := Fill(' ', n) + sign + mid;
    if sign == " " {
      FillNext(' ', n);
      SkipFill(n + 1, mid);
    } else {
      assert s == Fill(' ', n) + (sign + mid);
      SkipFill(n, sign + mid);
      if sign == "" {
        assert sign + mid == mid;
      } else {
        assert (sign + mid)[1..] == mid;
      }
    }
  }

  /** A plain field of digits, with any blanks and sign before it and blanks after it. */
  lemma ReadsBody(n: nat, sign: string, body: string, m: nat, base: nat)
    requires sign == "" || sign == "+" || sign == " "
    requires body != [] && AllDigits(body, base) && 2 <= base <= 16
    ensures Parsed(Fill(' ', n) + sign + (body + Fill(' ', m)), base) == Value(body, base)
  {
    var mid := body + Fill(' ', m);
    assert IsDigit(mid[0], base);
    StartAt(n, sign, mid, base);
    if |mid| > 1 {
      assert mid[1..][0] == mid[1];
      assert 1 < |body| ==> IsDigit(mid[1], base);
    }
    assert AfterHex(mid, base) == mid;
    RunOf(body, Fill(' ', m), base);
  }

  /** The same behind "0x". */
  lemma ReadsHex(n: nat, sign: string, x: char, body: string, m: nat)
    requires sign == "" || sign == "+" || sign == " "
    requires AllDigits(body, 16) && (x == 'x' || x == 'X')
    ensures Parsed(Fill(' ', n) + sign + (['0', x] + body + Fill(' ', m)), 16) == Value(body, 16)
  {
    var blanks := Fill(' ', m);
    var mid := ['0', x] + body + blanks;
    StartAt(n, sign, mid, 16);
    HexSkipped(x, body, blanks);
    RunOf(body, blanks, 16);
  }

  lemma HexSkipped(x: char, body: string, blanks: string)
    requires x == 'x' || x == 'X'
    ensures AfterHex(['0', x] + body + blanks, 16) == body + blanks
  {
    var mid := ['0', x] + body + blanks;
    assert mid[1..][0] == x;
    assert mid[2..] == body + blanks;
  }

  /** A character that is no digit stops the reader at once, or after a single '0'. */
  lemma ReadsNothing(n: nat, sign: string, zero: string, c: char, rest: string, base: nat)
    requires sign == "" || sign == "+" || sign == " "
    requires zero == "" || (zero == "0" && (base == 16 ==> c != 'x' && c != 'X'))
    requires !IsDigit(c, base) && !Blank(c) && c != '+' && 2 <= base <= 16
    ensures Parsed(Fill(' ', n) + sign + (zero + [c] + rest), base) == 0
  {
    var mid := zero + [c] + rest;
    StartAt(n, sign, mid, base);
    if zero == "" {
      assert mid[0] == c;
      assert Run(mid, base) == [];
    } else {
      assert mid[1..][0] == c;
      assert AfterHex(mid, base) == mid;
      assert mid == "0" + ([c] + rest);
      RunOf("0", [c] + rest, base);
      assert Value("0", base) == 0;
    }
  }

  lemma {:induction false} SkipAll(s: string)
    requires forall i :: 0 <= i < |s| ==> s[i] == ' '
    ensures SkipBlanks(s) == []
  {
    if s != [] {
      SkipAll(s[1..]);
    }
  }

  /** Blanks and a '+' alone read as zero. */
  lemma ReadsEmpty(n: nat, sign: string, m: nat, base: nat)
    requires sign == "" || sign == "+" || sign == " "
    requires 2 <= base <= 16
    ensures Parsed(Fill(' ', n) + sign + Fill(' ', m), base) == 0
  {
    if sign == "+" {
      ReadsPlus(n, Fill(' ', m), base);
    } else {
      SkipAll(Fill(' ', n) + sign + Fill(' ', m));
    }
  }

  lemma ReadsPlus(n: nat, blanks: string, base: nat)
    requires 2 <= base <= 16 && forall i :: 0 <= i < |blanks| ==> blanks[i] == ' '
    ensures Parsed(Fill(' ', n) + "+" + blanks, base) == 0
  {
    assert Fill(' ', n) + "+" + blanks == Fill(' ', n) + ("+" + blanks);
    SkipFill(n, "+" + blanks);
    assert AfterSign("+" + blanks) == blanks;
  }

  /** The length that is in the buffer before the sign, given the number of digits. */
  function Kept(n: nat, base: nat, prec: nat, w: nat, f: Flags): int {
    var z := PaddedLen(n, prec, w, f);
    z - Stripped(z, base, prec, w, f)
  }

  /** When strtoul reads a printed number back. All of it can be told before printing:
      no minus sign that finds room, and with '#' no digit stripped and a prefix strtoul understands. */
  predicate ReadsBack(v: nat, negative: bool, base: nat, prec: nat, width: nat, f: Flags)
    requires 2 <= base <= 16
  {
    v == 0
    || var w := FieldWidth(negative, width, f);
       var n := |Digits(v, base, f.upper)|;
       var k := Kept(n, base, prec, w, f);
       var full := if !f.hash then k >= BUFFER
                   else if base == 16 || base == 2 then k >= BUFFER - 2 else k >= BUFFER - 1;
       && (negative ==> full)
       && (f.hash ==> n <= k)
       && (f.hash && base == 16 ==> k != BUFFER - 1)
       && (f.hash && base == 2 ==> k >= BUFFER)
  }

  /** t denotes v and loses value with every digit dropped in front. */
  ghost predicate Numeral(t: string, v: nat, base: nat) {
    && 0 < |t| <= BUFFER && AllDigits(t, base) && Value(t, base) == v
    && forall k {:trigger t[k..]} :: 0 < k <= |t| ==> AllDigits(t[k..], base) && Value(t[k..], base) < v
  }

  lemma DigitsNumeral(v: nat, base: nat, upper: bool)
    requires 2 <= base <= 16 && 0 < v < TWO32
    ensures Numeral(Digits(v, base, upper), v, base)
  {
    FitsBuffer(v, base, upper);
    ValueOfDigits(v, base, upper);
    var t := Digits(v, base, upper);
    forall k {:trigger t[k..]} | 0 < k <= |t| ensures AllDigits(t[k..], base) && Value(t[k..], base) < v {
      DropsValue(v, base, upper, k);
    }
  }

  /** Dropping k characters of a padded numeral keeps the value exactly when only padding goes. */
  lemma DropLeading(t: string, v: nat, base: nat, pad: nat, k: nat)
    requires 2 <= base <= 16 && Numeral(t, v, base) && k <= pad + |t|
    ensures var b := (Fill('0', pad) + t)[k..];
            AllDigits(b, base) && (Value(b, base) == v <==> k <= pad) && Value(b, base) <= v
  {
    var b := (Fill('0', pad) + t)[k..];
    if k <= pad {
      assert b == Fill('0', pad - k) + t;
      LeadingZeros(pad - k, t, base);
    } else {
      assert b == t[k - pad..];
    }
  }

  /** A numeral without its first digit denotes a smaller number. */
  lemma DropsValue(v: nat, base: nat, upper: bool, k: nat)
    requires 2 <= base <= 16 && 0 < v && 0 < k <= |Digits(v, base, upper)|
    ensures AllDigits(Digits(v, base, upper)[k..], base) && Value(Digits(v, base, upper)[k..], base) < v
  {
    var t := Digits(v, base, upper);
    ValueOfDigits(v, base, upper);
    ValueBelow(t[k..], base);
    DigitsAtLeast(v, base, upper);
    PowUp(base, |t| - k, |t| - 1);
  }

  /** What Body keeps of the digits: the value, exactly when no digit is stripped. */
  lemma BodyValue(t: string, v: nat, base: nat, prec: nat, w: nat, f: Flags)
    requires 2 <= base <= 16 && Numeral(t, v, base)
    ensures var b := Body(t, base, prec, w, f);
            && |b| == Kept(|t|, base, prec, w, f) <= BUFFER
            && AllDigits(b, base)
            && (Value(b, base) == v <==> |t| <= |b|) && Value(b, base) <= v
  {
    var z := PaddedLen(|t|, prec, w, f);
    DropLeading(t, v, base, z - |t|, Stripped(z, base, prec, w, f));
  }

  /** The text in the shape the reading lemmas take: blanks, sign, the rest, blanks. */
  lemma Shape(s: string, p: string, w: nat, f: Flags) returns (n: nat, m: nat)
    ensures Field(s + p, w, f) == Fill(' ', n) + s + (p + Fill(' ', m))
  {
    var room := Max(0, w - |s + p|);
    n := if !f.left && !f.zeropad then room else 0;
    m := if f.left then room else 0;
  }

  /** strtoul undoes printing exactly when ReadsBack says so, for every value, base, width, precision and
      flag. What it finds never exceeds the value, so that cutting it to 32 bits changes nothing. */
  lemma RoundTrip(v: nat, negative: bool, base: nat, prec: nat, width: nat, f: Flags)
    requires 2 <= base <= 16 && v < TWO32
    ensures Parsed(Printed(v, negative, base, prec, width, f), base) <= v
    ensures Wrap32(Parsed(Printed(v, negative, base, prec, width, f), base)) == v <==>
              ReadsBack(v, negative, base, prec, width, f)
  {
    if v == 0 {
      RoundTripZero(negative, base, prec, width, f);
    } else {
      RoundTripPositive(v, negative, base, prec, width, f);
    }
    NoWrap(Parsed(Printed(v, negative, base, prec, width, f), base));
  }

  lemma NoWrap(x: nat)
    ensures x < TWO32 ==> Wrap32(x) == x
  {}

  lemma RoundTripZero(negative: bool, base: nat, prec: nat, width: nat, f: Flags)
    requires 2 <= base <= 16
    ensures Parsed(Printed(0, negative, base, prec, width, f), base) == 0
  {
    var g := f.(hash := false);
    var w := FieldWidth(negative, width, g);
    var b := Body(DigitText(0, base, f), base, prec, w, g);
    ZerosAreZero(b, base);
    ReadsField(b, negative, base, w, g);
  }

  lemma ReadsMinus(n: nat, rest: string, base: nat)
    requires 2 <= base <= 16
    ensures Parsed(Fill(' ', n) + "-" + rest, base) == 0
  {
    assert Fill(' ', n) + "-" + rest == Fill(' ', n) + "" + ("" + ['-'] + rest);
    ReadsNothing(n, "", "", '-', rest, base);
  }

  lemma ZerosAreZero(b: string, base: nat)
    requires 2 <= base && forall i :: 0 <= i < |b| ==> b[i] == '0'
    ensures AllDigits(b, base) && Value(b, base) == 0
  {
    LeadingZeros(|b|, "", base);
    assert b == Fill('0', |b|) + "";
  }

  lemma RoundTripPositive(v: nat, negative: bool, base: nat, prec: nat, width: nat, f: Flags)
    requires 2 <= base <= 16 && 0 < v < TWO32
    ensures Parsed(Printed(v, negative, base, prec, width, f), base) <= v
    ensures Parsed(Printed(v, negative, base, prec, width, f), base) == v <==>
              ReadsBack(v, negative, base, prec, width, f)
  {
    var w := FieldWidth(negative, width, f);
    DigitsNumeral(v, base, f.upper);
    BodyValue(Digits(v, base, f.upper), v, base, prec, w, f);
    ReadsField(Body(Digits(v, base, f.upper), base, prec, w, f), negative, base, w, f);
  }

  /** The prefix is one strtoul cannot read past. */
  predicate Unreadable(n: nat, base: nat, f: Flags) {
    f.hash && ((base == 16 && n == BUFFER - 1) || (base == 2 && n < BUFFER))
  }

  /** What is read from a field whose digits are b. */
  lemma ReadsField(b: string, negative: bool, base: nat, w: nat, f: Flags)
    requires AllDigits(b, base) && 2 <= base <= 16
    ensures var p := Prefix(|b|, base, f) + b;
            Parsed(Field(Sign(|p|, negative, f) + p, w, f), base)
            == if (negative && |p| < BUFFER) || Unreadable(|b|, base, f) then 0 else Value(b, base)
  {
    var p := Prefix(|b|, base, f) + b;
    var s := Sign(|p|, negative, f);
    var n, m := Shape(s, p, w, f);
    if s == "-" {
      ReadsMinus(n, p + Fill(' ', m), base);
    } else {
      ReadsPrefixed(n, s, b, m, base, f);
    }
  }

  lemma ReadsPlain(n: nat, sign: string, b: string, m: nat, base: nat)
    requires sign == "" || sign == "+" || sign == " "
    requires AllDigits(b, base) && 2 <= base <= 16
    ensures Parsed(Fill(' ', n) + sign + (b + Fill(' ', m)), base) == Value(b, base)
  {
    if b == [] {
      assert b + Fill(' ', m) == Fill(' ', m);
      ReadsEmpty(n, sign, m, base);
    } else {
      ReadsBody(n, sign, b, m, base);
    }
  }

  /** What is read behind each prefix: the digits, or nothing. */
  lemma ReadsPrefixed(n: nat, sign: string, b: string, m: nat, base: nat, f: Flags)
    requires sign == "" || sign == "+" || sign == " "
    requires AllDigits(b, base) && 2 <= base <= 16
    ensures var r := Parsed(Fill(' ', n) + sign + (Prefix(|b|, base, f) + b + Fill(' ', m)), base);
            r == if Unreadable(|b|, base, f) then 0 else Value(b, base)
  {
    if !f.hash || |b| >= BUFFER {
      assert Prefix(|b|, base, f) + b == b;
      ReadsPlain(n, sign, b, m, base);
    } else if base != 16 && base != 2 {
      ReadsOctal(n, sign, b, m, base);
    } else if base == 16 {
      ReadsHexPrefix(n, sign, b, m, f);
    } else {
      ReadsBinaryPrefix(n, sign, b, m, f);
    }
  }

  /** Behind "0". */
  lemma ReadsOctal(n: nat, sign: string, b: string, m: nat, base: nat)
    requires sign == "" || sign == "+" || sign == " "
    requires AllDigits(b, base) && 2 <= base <= 16
    ensures Parsed(Fill(' ', n) + sign + ("0" + b + Fill(' ', m)), base) == Value(b, base)
  {
    LeadingZeros(1, b, base);
    assert Fill('0', 1) == "0";
    ReadsBody(n, sign, "0" + b, m, base);
  }

  /** Behind "0x", or "x" when the buffer has no room for the zero. */
  lemma ReadsHexPrefix(n: nat, sign: string, b: string, m: nat, f: Flags)
    requires sign == "" || sign == "+" || sign == " "
    requires AllDigits(b, 16) && f.hash && |b| < BUFFER
    ensures var r := Parsed(Fill(' ', n) + sign + (Prefix(|b|, 16, f) + b + Fill(' ', m)), 16);
            r == if |b| + 1 == BUFFER then 0 else Value(b, 16)
  {
    var letter := if f.upper then 'X' else 'x';
    if |b| + 1 == BUFFER {
      assert Prefix(|b|, 16, f) == [letter];
      Regroup1(letter, b, Fill(' ', m));
      LetterOnly(n, sign, letter, b + Fill(' ', m), 16);
    } else {
      assert Prefix(|b|, 16, f) == ['0', letter];
      ReadsHex(n, sign, letter, b, m);
    }
  }

  /** Behind "0b", or "b" when the buffer has no room for the zero. */
  lemma ReadsBinaryPrefix(n: nat, sign: string, b: string, m: nat, f: Flags)
    requires sign == "" || sign == "+" || sign == " "
    requires AllDigits(b, 2) && f.hash && |b| < BUFFER
    ensures Parsed(Fill(' ', n) + sign + (Prefix(|b|, 2, f) + b + Fill(' ', m)), 2) == 0
  {
    var blanks := Fill(' ', m);
    if |b| + 1 == BUFFER {
      assert Prefix(|b|, 2, f) == ['b'];
      Regroup1('b', b, blanks);
      LetterOnly(n, sign, 'b', b + blanks, 2);
    } else {
      assert Prefix(|b|, 2, f) == ['0', 'b'];
      Regroup2('b', b, blanks);
      ReadsNothing(n, sign, "0", 'b', b + blanks, 2);
    }
  }

  lemma Regroup1(c: char, b: string, t: string)
    ensures [c] + b + t == [c] + (b + t)
  {}

  lemma Regroup2(c: char, b: string, t: string)
    ensures ['0', c] + b + t == "0" + [c] + (b + t)
  {}

  lemma LetterOnly(n: nat, sign: string, c: char, rest: string, base: nat)
    requires sign == "" || sign == "+" || sign == " "
    requires !IsDigit(c, base) && !Blank(c) && c != '+' && 2 <= base <= 16
    ensures Parsed(Fill(' ', n) + sign + ([c] + rest), base) == 0
  {
    ReadsNothing(n, sign, "", c, rest, base);
    assert "" + [c] + rest == [c] + rest;
  }

  /** Without '#' and minus sign the round trip always closes, whatever the width, padding and precision. */
  lemma PlainRoundTrip(v: nat, base: nat, prec: nat, width: nat, f: Flags)
    requires 2 <= base <= 16 && v < TWO32 && !f.hash
    ensures Wrap32(Parsed(Printed(v, false, base, prec, width, f), base)) == v
  {
    RoundTrip(v, false, base, prec, width, f);
  }

  /** A '#' field as wide as the number loses the two leading digits. */
  lemma HashLosesDigits()
    ensures Wrap32(Parsed(Printed(0x1234_5678, false, 16, 0, 8, Flags(false, false, false, false, true, false, false)),
                          16))
            != 0x1234_5678
  {
    var f := Flags(false, false, false, false, true, false, false);
    var t := Digits(0x1234_5678, 16, false);
    assert |t| == 8;
    RoundTrip(0x1234_5678, false, 16, 0, 8, f);
  }

  // ---------------------------------------------------------------- how numerals are read

  /** Blanks, tabs and line ends. */
  predicate AllBlank(s: string) {
    forall i :: 0 <= i < |s| ==> s[i] == ' ' || s[i] == '\t' || s[i] == '\n' || s[i] == '\r'
  }

  lemma {:induction false} SkipsBlanks(blanks: string, t: string)
    requires AllBlank(blanks) && t != "" && !AllBlank(t[..1])
    ensures SkipBlanks(blanks + t) == t
  {
    if blanks == "" {
      assert blanks + t == t && t[..1][0] == t[0];
    } else {
      assert (blanks + t)[1..] == blanks[1..] + t;
      SkipsBlanks(blanks[1..], t);
    }
  }

  /** Blanks and a '+' in front do not matter. */
  lemma SkipsTo(blanks: string, plus: string, t: string)
    requires AllBlank(blanks) && (plus == "" || plus == "+") && t != "" && t[0] != '+' && !AllBlank(t[..1])
    ensures AfterSign(SkipBlanks(blanks + plus + t)) == t
  {
    assert blanks + plus + t == blanks + (plus + t);
    if plus == "" {
      assert plus + t == t;
    } else {
      assert (plus + t)[..1] == "+" && (plus + t)[1..] == t;
      assert "+"[0] == '+';
    }
    SkipsBlanks(blanks, plus + t);
  }

  /** Digits in the base asked for. */
  lemma ReadsInBase(numeral: string, rest: string, base: nat)
    requires 2 <= base <= 16 && numeral != "" && AllDigits(numeral, base)
    requires rest == "" || !IsDigit(rest[0], base)
    requires base == 16 && numeral == "0" ==> !StartsWithX(rest)
    ensures var d := Detect(numeral + rest, base);
            d.0 == base && AfterHex(d.1, d.0) == numeral + rest && Run(numeral + rest, d.0) == numeral
  {
    var t := numeral + rest;
    assert IsDigit(t[0], base);
    if 1 < |numeral| {
      assert t[1..][0] == numeral[1] && IsDigit(numeral[1], base);
    } else {
      assert t[1..] == rest;
    }
    assert AfterHex(t, base) == t;
    RunOf(numeral, rest, base);
  }

  /** A base of 0 is told from the text: decimal. */
  lemma DetectsDecimal(numeral: string, rest: string)
    requires numeral != "" && AllDigits(numeral, 10) && numeral[0] != '0' && (rest == "" || !IsDigit(rest[0], 10))
    ensures var d := Detect(numeral + rest, 0);
            d.0 == 10 && AfterHex(d.1, d.0) == numeral + rest && Run(numeral + rest, d.0) == numeral
  {
    RunOf(numeral, rest, 10);
  }

  /** Octal behind "0". */
  lemma DetectsOctal(numeral: string, rest: string)
    requires AllDigits(numeral, 8) && (rest == "" || !IsDigit(rest[0], 8)) && (numeral == "" ==> !StartsWithX(rest))
    ensures var d := Detect("0" + numeral + rest, 0);
            d.0 == 8 && AfterHex(d.1, d.0) == numeral + rest && Run(numeral + rest, d.0) == numeral
  {
    var t := "0" + numeral + rest;
    assert t[1..] == numeral + rest;
    if numeral != "" {
      assert (numeral + rest)[0] == numeral[0] && IsDigit(numeral[0], 8);
    } else {
      assert numeral + rest == rest;
    }
    RunOf(numeral, rest, 8);
  }

  /** Hexadecimal behind "0x" or "0X", for base 0 and for base 16. */
  lemma DetectsHex(x: char, numeral: string, rest: string, base: nat)
    requires (x == 'x' || x == 'X') && (base == 0 || base == 16)
    requires AllDigits(numeral, 16) && (rest == "" || !IsDigit(rest[0], 16))
    requires base == 0 && numeral == "0" ==> !StartsWithX(rest)
    ensures var d := Detect(['0', x] + numeral + rest, base);
            d.0 == 16 && AfterHex(d.1, d.0) == numeral + rest && Run(numeral + rest, d.0) == numeral
  {
    var t := ['0', x] + numeral + rest;
    assert t[2..] == numeral + rest && t[1..][0] == x;
    if base == 0 {
      NoMoreHex(numeral, rest);
    }
    RunOf(numeral, rest, 16);
  }

  lemma NoMoreHex(numeral: string, rest: string)
    requires AllDigits(numeral, 16) && (rest == "" || !IsDigit(rest[0], 16)) && (numeral == "0" ==> !StartsWithX(rest))
    ensures AfterHex(numeral + rest, 16) == numeral + rest
  {
    if numeral != "" {
      ReadsInBase(numeral, rest, 16);
    } else {
      assert numeral + rest == rest;
      assert rest != "" ==> rest[0] != '0';
    }
  }

  /** The mark tells strtoul to read the numeral in base b: none for the base asked for, none for decimal,
      "0" for octal and "0x" for hexadecimal numerals when the base asked for is 0. */
  predicate Marked(mark: string, numeral: string, rest: string, base: nat, b: nat) {
    || (mark == "" && base == b && numeral != "" && (b == 16 && numeral == "0" ==> !StartsWithX(rest)))
    || (mark == "" && base == 0 && b == 10 && numeral != "" && numeral[0] != '0')
    || (mark == "0" && base == 0 && b == 8 && (numeral == "" ==> !StartsWithX(rest)))
    || ((mark == "0x" || mark == "0X") && (base == 0 || base == 16) && b == 16
        && (base == 0 && numeral == "0" ==> !StartsWithX(rest)))
  }

  lemma ReadsMarked(mark: string, numeral: string, rest: string, base: nat, b: nat)
    requires 2 <= b <= 16 && AllDigits(numeral, b) && (rest == "" || !IsDigit(rest[0], b))
    requires Marked(mark, numeral, rest, base, b)
    ensures var d := Detect(mark + numeral + rest, base);
            d.0 == b && AfterHex(d.1, d.0) == numeral + rest && Run(numeral + rest, b) == numeral
    ensures var t := mark + numeral + rest;
            t != "" && (IsDigit(t[0], b) || t[0] == '0')
  {
    var t := mark + numeral + rest;
    if mark == "" {
      assert t == numeral + rest;
      if base == b {
        ReadsInBase(numeral, rest, b);
      } else {
        DetectsDecimal(numeral, rest);
      }
    } else if mark == "0" {
      DetectsOctal(numeral, rest);
    } else {
      assert mark == ['0', mark[1]];
      DetectsHex(mark[1], numeral, rest, base);
    }
  }

  /** What strtoul finds in a numeral with blanks and a '+' in front of it and anything else behind: its
      value, and its end. */
  lemma ReadsNumeral(blanks: string, plus: string, mark: string, numeral: string, rest: string, base: nat, b: nat)
    requires AllBlank(blanks) && (plus == "" || plus == "+")
    requires 2 <= b <= 16 && AllDigits(numeral, b) && (rest == "" || !IsDigit(rest[0], b))
    requires Marked(mark, numeral, rest, base, b)
    ensures Parsed(blanks + plus + (mark + numeral + rest), base) == Value(numeral, b)
    ensures Start(blanks + plus + (mark + numeral + rest), base) == (b, numeral + rest)
    ensures Run(numeral + rest, b) == numeral
  {
    var t := mark + numeral + rest;
    ReadsMarked(mark, numeral, rest, base, b);
    assert t[..1][0] == t[0];
    SkipsTo(blanks, plus, t);
  }

  // ---------------------------------------------------------------- printing: the code

  /** The digit buffer is filled from the least significant end, so it reads backwards. */
  function Backwards(s: string): (r: string)
    ensures |r| == |s|
  {
    if s == [] then [] else [s[|s| - 1]] + Backwards(s[..|s| - 1])
  }

  ghost function Text(buf: array<char>, len: nat): (t: string)
    requires len <= buf.Length
    reads buf
    ensures |t| == len
  {
    Backwards(buf[..len])
  }

  lemma TextShorter(buf: array<char>, len: nat)
    requires 0 < len <= buf.Length
    ensures Text(buf, len) == [buf[len - 1]] + Text(buf, len - 1)
  {
    assert buf[..len][..len - 1] == buf[..len - 1];
  }

  /** buf[len++] = c. */
  method Put(buf: array<char>, len: nat, c: char) returns (len': nat)
    requires len < buf.Length
    modifies buf
    ensures len' == len + 1 && Text(buf, len') == [c] + old(Text(buf, len))
  {
    buf[len] := c;
    len' := len + 1;
    TextShorter(buf, len');
    assert buf[..len] == old(buf[..len]);
  }

  /** The digits of v that are still to come; none for zero. */
  function Head(v: nat, base: nat, upper: bool): string
    requires 2 <= base <= 16
  {
    if v == 0 then "" else Digits(v, base, upper)
  }

  lemma DigitsPeel(v: nat, base: nat, upper: bool)
    requires 2 <= base <= 16
    ensures Digits(v, base, upper) == Head(v / base, base, upper) + [DigitChar(v % base, upper)]
  {
    if v >= base {
      Smaller(v, base);
    } else {
      OneDigit(v, base);
    }
  }

  lemma OneDigit(v: nat, base: nat)
    requires v < base
    ensures v / base == 0 && v % base == v
  {}

  lemma SeqAssoc(a: string, b: string, c: string)
    ensures a + (b + c) == (a + b) + c
  {}

  /** The body of the digit loop. */
  method WriteDigit(buf: array<char>, len: nat, value: nat, base: nat, upper: bool) returns (len': nat, value': nat)
    requires len < buf.Length && 2 <= base <= 16
    modifies buf
    ensures len' == len + 1 && value' == value / base
    ensures Head(value', base, upper) + Text(buf, len') == Digits(value, base, upper) + old(Text(buf, len))
  {
    DigitsPeel(value, base, upper);
    var digit := DigitChar(value % base, upper);
    ghost var h, t := Head(value / base, base, upper), Text(buf, len);
    SeqAssoc(h, [digit], t);
    len' := Put(buf, len, digit);
    value' := value / base;
  }

  /** The digit loop of _ntoa_long: it ends because the value is used up, never because the buffer is full. */
  method WriteDigits(buf: array<char>, v: nat, base: nat, upper: bool) returns (len: nat)
    requires buf.Length == BUFFER && 2 <= base <= 16 && v < TWO32
    modifies buf
    ensures len <= BUFFER && Text(buf, len) == Digits(v, base, upper)
  {
    var value: nat;
    len, value := WriteDigit(buf, 0, v, base, upper);
    while value != 0 && len < BUFFER
      invariant 0 < len <= BUFFER
      invariant Digits(v, base, upper) == Head(value, base, upper) + Text(buf, len)
      decreases value
    {
      if value >= base {
        Smaller(value, base);
      }
      len, value := WriteDigit(buf, len, value, base, upper);
    }
    AllWritten(v, value, base, upper, Text(buf, len));
  }

  /** A full buffer leaves nothing to write. */
  lemma AllWritten(v: nat, rest: nat, base: nat, upper: bool, t: string)
    requires 2 <= base <= 16 && v < TWO32 && (rest == 0 || |t| == BUFFER)
    requires Digits(v, base, upper) == Head(rest, base, upper) + t
    ensures rest == 0 && t == Digits(v, base, upper)
  {
    FitsBuffer(v, base, upper);
  }

  /** One of the two zero-padding loops of _ntoa_format. */
  method PadZeros(buf: array<char>, len: nat, upto: nat) returns (len': nat)
    requires buf.Length == BUFFER && len <= BUFFER
    modifies buf
    ensures len' == Max(len, Min(BUFFER, upto))
    ensures Text(buf, len') == Fill('0', len' - len) + old(Text(buf, len))
  {
    len' := len;
    while len' < upto && len' < BUFFER
      invariant len <= len' <= Max(len, Min(BUFFER, upto))
      invariant Text(buf, len') == Fill('0', len' - len) + old(Text(buf, len))
    {
      len' := Put(buf, len', '0');
      FillNext('0', len' - 1 - len);
    }
  }

  /** A sign takes a place of a zero-padded field. */
  method AdjustWidth(negative: bool, width: nat, f: Flags) returns (w: nat)
    ensures w == FieldWidth(negative, width, f)
  {
    w := width;
    if !f.left {
      if w != 0 && f.zeropad && (negative || f.plus || f.space) {
        w := w - 1;
      }
    }
  }

  /** The zero-padding loops of _ntoa_format. */
  method PadPart(buf: array<char>, len: nat, prec: nat, w: nat, f: Flags) returns (n: nat)
    requires buf.Length == BUFFER && len <= BUFFER
    modifies buf
    ensures n == PaddedLen(len, prec, w, f) && n <= BUFFER
    ensures Text(buf, n) == Fill('0', n - len) + old(Text(buf, len))
  {
    n := len;
    if !f.left {
      n := PadZeros(buf, n, prec);
      if f.zeropad {
        ghost var t, m := old(Text(buf, len)), n;
        n := PadZeros(buf, n, w);
        FillTwice(n - m, m - len, t);
      }
    }
  }

  lemma FillTwice(n: nat, m: nat, t: string)
    ensures Fill('0', n) + (Fill('0', m) + t) == Fill('0', n + m) + t
  {
    FillPlus('0', n, m);
  }

  lemma FillPlus(c: char, n: nat, m: nat)
    ensures Fill(c, n) + Fill(c, m) == Fill(c, n + m)
  {}

  /** The '#' part of _ntoa_format. */
  method HandleHash(buf: array<char>, len: nat, base: nat, prec: nat, w: nat, f: Flags) returns (len': nat)
    requires buf.Length == BUFFER && len <= BUFFER && f.hash
    modifies buf
    ensures len' <= BUFFER
    ensures var b := old(Text(buf, len))[Stripped(len, base, prec, w, f)..];
            Text(buf, len') == Prefix(|b|, base, f) + b
  {
    len' := StripDigits(buf, len, base, prec, w, f);
    len' := PutPrefix(buf, len', base, f);
  }

  /** '#' makes room for the prefix by dropping what it takes for padding. */
  method StripDigits(buf: array<char>, len: nat, base: nat, prec: nat, w: nat, f: Flags) returns (len': nat)
    requires buf.Length == BUFFER && len <= BUFFER && f.hash
    ensures len' <= len && Text(buf, len') == Text(buf, len)[Stripped(len, base, prec, w, f)..]
  {
    len' := len;
    if !f.precision && len' != 0 && (len' == prec || len' == w) {
      TextShorter(buf, len');
      len' := len' - 1;
      if len' != 0 && base == 16 {
        TextShorter(buf, len');
        len' := len' - 1;
      }
    }
  }

  method PutPrefix(buf: array<char>, len: nat, base: nat, f: Flags) returns (len': nat)
    requires buf.Length == BUFFER && len <= BUFFER && f.hash
    modifies buf
    ensures len' <= BUFFER && Text(buf, len') == Prefix(len, base, f) + old(Text(buf, len))
  {
    len' := len;
    if base == 16 && !f.upper && len' < BUFFER {
      len' := Put(buf, len', 'x');
    } else if base == 16 && f.upper && len' < BUFFER {
      len' := Put(buf, len', 'X');
    } else if base == 2 && len' < BUFFER {
      len' := Put(buf, len', 'b');
    }
    if len' < BUFFER {
      len' := Put(buf, len', '0');
    }
  }

  /** The sign of _ntoa_format. */
  method PutSign(buf: array<char>, len: nat, negative: bool, f: Flags) returns (len': nat)
    requires buf.Length == BUFFER && len <= BUFFER
    modifies buf
    ensures len' <= BUFFER && Text(buf, len') == Sign(len, negative, f) + old(Text(buf, len))
  {
    len' := len;
    if len' < BUFFER {
      if negative {
        len' := Put(buf, len', '-');
      } else if f.plus {
        len' := Put(buf, len', '+');
      } else if f.space {
        len' := Put(buf, len', ' ');
      }
    }
  }

  /** _out_rev: what it hands to the output function. */
  method OutRev(buf: array<char>, len: nat, width: nat, f: Flags) returns (out: string)
    requires len <= buf.Length
    ensures out == Field(Text(buf, len), width, f)
    ensures exists lead: nat, trail: nat :: FieldMade(out, lead, Text(buf, len), trail, width, f)
  {
    ghost var lead0, trail0 := BlanksMade(Text(buf, len), width, f);
    out := "";
    if !f.left && !f.zeropad {
      var i := len;
      while i < width
        invariant len <= i && (i <= width || i == len) && out == Fill(' ', i - len)
      {
        out := out + [' '];
        FillNext(' ', i - len);
        i := i + 1;
      }
    }
    ghost var lead := out;
    var n: nat := len;
    while n != 0
      invariant n <= len && out + Text(buf, n) == lead + Text(buf, len)
    {
      TextShorter(buf, n);
      n := n - 1;
      out := out + [buf[n]];
    }
    ghost var body := out;
    if f.left {
      assert lead == "" && |body| == len;
      while |out| < width
        invariant len <= |out| && (|out| <= width || |out| == len) && out == body + Fill(' ', |out| - len)
      {
        FillNext(' ', |out| - len);
        out := out + [' '];
      }
    }
  }

  /** _ntoa_format: what it hands to the output function. */
  method NtoaFormat(buf: array<char>, len: nat, negative: bool, base: nat, prec: nat, width: nat, f: Flags)
      returns (out: string)
    requires buf.Length == BUFFER && len <= BUFFER
    modifies buf
    ensures out == Formatted(old(Text(buf, len)), negative, base, prec, width, f)
  {
    ghost var t := Text(buf, len);
    var w := AdjustWidth(negative, width, f);
    var n := PadPart(buf, len, prec, w, f);
    assert Text(buf, n) == ZeroPadded(t, prec, w, f);
    if f.hash {
      n := HandleHash(buf, n, base, prec, w, f);
    }
    ghost var b := Body(t, base, prec, w, f);
    assert Text(buf, n) == Prefix(|b|, base, f) + b;
    n := PutSign(buf, n, negative, f);
    out := OutRev(buf, n, w, f);
  }

  /** _ntoa_long: what it hands to the output function. */
  method NtoaLong(value: nat, negative: bool, base: nat, prec: nat, width: nat, flags: Flags) returns (out: string)
    requires 2 <= base <= 16 && value < TWO32
    ensures out == Printed(value, negative, base, prec, width, flags)
    ensures Wrap32(Parsed(out, base)) == value <==> ReadsBack(value, negative, base, prec, width, flags)
    ensures exists p :: Made(out, p, value, negative, base, prec, width, flags)
    ensures |out| >= width <==> flags.left || !flags.zeropad || width <= BUFFER
  {
    var buf := new char[BUFFER];
    var len, f := 0, flags;
    if value == 0 {
      f := f.(hash := false);
    }
    if !f.precision || value != 0 {
      len := WriteDigits(buf, value, base, f.upper);
    }
    out := NtoaFormat(buf, len, negative, base, prec, width, f);
    RoundTrip(value, negative, base, prec, width, flags);
    ghost var p := PrintedMade(value, negative, base, prec, width, flags);
    ReachesWidth(out, p, value, negative, base, prec, width, flags);
  }

  // ---------------------------------------------------------------- reading: the code

  /** The character under a cursor into a NUL-terminated string. */
  function CharAt(s: string, i: nat): char {
    if i < |s| then s[i] else '\0'
  }

  lemma WrapStep(x: nat, base: nat, d: nat)
    ensures Wrap32(Wrap32(x) * base + d) == Wrap32(x * base + d)
  {
    var q := x / TWO32;
    var r := Wrap32(x);
    assert x * base == (q * base) * TWO32 + r * base by {
      assert x == q * TWO32 + r;
    }
  }

  /** Where the digit loop of strtoul stands: characters at..s are digits and val is their value. */
  ghost predicate ReadSoFar(str: string, at: nat, s: nat, b: int, val: int) {
    && at <= s <= |str|
    && AllDigits(str[at..s], b)
    && Run(str[at..], b) == str[at..s] + Run(str[s..], b)
    && val == Wrap32(Value(str[at..s], b))
  }

  lemma ReadStep(str: string, at: nat, s: nat, b: int, val: int)
    requires ReadSoFar(str, at, s, b, val) && s < |str| && IsDigit(str[s], b)
    ensures ReadSoFar(str, at, s + 1, b, Wrap32(val * b + DigitOf(str[s])))
  {
    assert str[s..][1..] == str[s + 1..];
    assert str[at..s + 1] == str[at..s] + [str[s]];
    ValueSnoc(str[at..s], str[s], b);
    WrapStep(Value(str[at..s], b), b, DigitOf(str[s]));
  }

  lemma ReadEnd(str: string, at: nat, s: nat, b: int, val: int)
    requires ReadSoFar(str, at, s, b, val) && (s == |str| || !IsDigit(str[s], b))
    ensures s == at + |Run(str[at..], b)| && val == Wrap32(Value(Run(str[at..], b), b))
  {
    assert Run(str[s..], b) == "";
    assert Run(str[at..], b) == str[at..s];
  }

  /** strtoul: the value cut to 32 bits, and the offset it leaves in *endptr. */
  method Strtoul(str: string, base: int) returns (val: nat, end: nat)
    ensures var d := Start(str, base);
            end == |str| - |d.1| + |Run(d.1, d.0)|
    ensures val == Wrap32(Parsed(str, base))
  {
    var s, b := StrtoulStart(str, base);
    val, end := ReadDigits(str, s, b);
  }

  /** Printing a value and reading it back: strtoul gives the value exactly when ReadsBack says so. */
  method PrintAndRead(value: nat, negative: bool, base: nat, prec: nat, width: nat, flags: Flags)
      returns (text: string, val: nat)
    requires 2 <= base <= 16 && value < TWO32
    ensures text == Printed(value, negative, base, prec, width, flags)
    ensures val == value <==> ReadsBack(value, negative, base, prec, width, flags)
  {
    text := NtoaLong(value, negative, base, prec, width, flags);
    var end;
    val, end := Strtoul(text, base);
  }

  /** The digit loop of strtoul. */
  method ReadDigits(str: string, at: nat, b: int) returns (val: nat, end: nat)
    requires at <= |str|
    ensures end == at + |Run(str[at..], b)| && val == Wrap32(Value(Run(str[at..], b), b))
  {
    val, end := 0, at;
    assert str[at..at] == "";
    while CharAt(str, end) != '\0'
      invariant ReadSoFar(str, at, end, b, val)
      decreases |str| - end
    {
      var digit := DigitOf(str[end]);
      if digit < 0 || digit >= b {
        break;
      }
      ReadStep(str, at, end, b, val);
      val := Wrap32(val * b + digit);
      end := end + 1;
    }
    ReadEnd(str, at, end, b, val);
  }

  /** The blanks and the sign. */
  method SkipToNumber(str: string) returns (s: nat)
    ensures s <= |str| && AfterSign(SkipBlanks(str)) == str[s..]
  {
    s := 0;
    assert str[0..] == str;
    while CharAt(str, s) == ' ' || CharAt(str, s) == '\t' || CharAt(str, s) == '\n' || CharAt(str, s) == '\r'
      invariant s <= |str| && SkipBlanks(str[s..]) == SkipBlanks(str)
      decreases |str| - s
    {
      assert str[s..][1..] == str[s + 1..];
      s := s + 1;
    }
    if CharAt(str, s) == '+' {
      assert str[s..][1..] == str[s + 1..];
      s := s + 1;
    }
  }

  /** Telling the base when the caller passed 0. */
  method DetectBase(str: string, at: nat, base: int) returns (s: nat, b: int)
    requires at <= |str|
    ensures s <= |str| && Detect(str[at..], base) == (b, str[s..])
  {
    s, b := at, base;
    if b == 0 {
      if CharAt(str, s) == '0' {
        s := s + 1;
        assert str[at..][1..] == str[s..];
        if CharAt(str, s) == 'x' || CharAt(str, s) == 'X' {
          b := 16;
          s := s + 1;
          assert str[at..][2..] == str[s..];
        } else {
          b := 8;
        }
      } else {
        b := 10;
      }
    }
  }

  /** The part of strtoul before its digit loop: blanks, sign, base detection, "0x". */
  method StrtoulStart(str: string, base: int) returns (s: nat, b: int)
    ensures s <= |str| && Start(str, base) == (b, str[s..])
  {
    s := SkipToNumber(str);
    s, b := DetectBase(str, s, base);
    assert s < |str| ==> str[s..][1..] == str[s + 1..];
    if b == 16 && CharAt(str, s) == '0' && (CharAt(str, s + 1) == 'x' || CharAt(str, s + 1) == 'X') {
      assert str[s..][2..] == str[s + 2..];
      s := s + 2;
    }
  }
}
