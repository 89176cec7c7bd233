/** The integer formatter of src/lib/printf.c: what rumboot_number prints, and that it reads back. */
module PrintfNumber {
  /** long has 32 bits on the targets and 64 on a workstation; the limit is that of unsigned long. */
  predicate IsLimit(limit: nat) {
    limit == 0x1_0000_0000 || limit == 0x1_0000_0000_0000_0000
  }

  predicate IsLong(num: int, limit: nat) {
    IsLimit(limit) && -(limit / 2) <= num < limit / 2
  }

  /** The bits of the type argument. */
  datatype Flags =
    Flags(zeroPad: bool, signed: bool, plus: bool, space: bool, left: bool, prefix: bool, upper: bool)

  const LOWER_DIGITS := "0123456789abcdefghijklmnopqrstuvwxyz"
  const UPPER_DIGITS := "0123456789ABCDEFGHIJKLMNOPQRSTUVWXYZ"

  function DigitChar(d: nat, upper: bool): char
    requires d < 36
  {
    if upper then UPPER_DIGITS[d] else LOWER_DIGITS[d]
  }

  /** What a reader takes a character for: a digit, or none. */
  function DigitValue(c: char): (r: int)
    ensures -1 <= r < 36
  {
    if '0' <= c <= '9' then c as int - '0' as int
    else if 'a' <= c <= 'z' then c as int - 'a' as int + 10
    else if 'A' <= c <= 'Z' then c as int - 'A' as int + 10
    else -1
  }

  lemma DigitReads(d: nat, upper: bool)
    requires d < 36
    ensures DigitValue(DigitChar(d, upper)) == d
  {
    if d < 10 {
      FirstDigits(d, upper);
    } else if d < 23 {
      MiddleDigits(d, upper);
    } else {
      LastDigits(d, upper);
    }
  }

  lemma FirstDigits(d: nat, upper: bool)
    requires d < 10
    ensures DigitValue(DigitChar(d, upper)) == d
  {
  }

  lemma MiddleDigits(d: nat, upper: bool)
    requires 10 <= d < 23
    ensures DigitValue(DigitChar(d, upper)) == d
  {
  }

  lemma LastDigits(d: nat, upper: bool)
    requires 23 <= d < 36
    ensures DigitValue(DigitChar(d, upper)) == d
  {
  }

  function Digits(n: nat, base: nat, upper: bool): (r: string)
    requires 2 <= base <= 36
    ensures r != []
    decreases n
  {
    if n < base then [DigitChar(n, upper)] else Digits(n / base, base, upper) + [DigitChar(n % base, upper)]
  }

  predicate IsDigits(s: string, base: nat) {
    forall i :: 0 <= i < |s| ==> 0 <= DigitValue(s[i]) < base
  }

  /** The number that a row of digits stands for. */
  function Value(s: string, base: nat): nat
    requires IsDigits(s, base)
  {
    if s == [] then 0 else Value(s[..|s| - 1], base) * base + DigitValue(s[|s| - 1])
  }

  lemma Division(n: nat, base: nat)
    requires base >= 2
    ensures n / base * base + n % base == n && n % base < base
    ensures n >= base ==> 0 < n / base < n
    ensures n < base ==> n / base == 0
  {
    assert n == base * (n / base) + n % base;
  }

  lemma ValueMore(s: string, c: char, base: nat)
    requires IsDigits(s, base) && 0 <= DigitValue(c) < base
    ensures IsDigits(s + [c], base) && Value(s + [c], base) == Value(s, base) * base + DigitValue(c)
  {
    hide DigitValue;
    assert (s + [c])[..|s|] == s;
  }

  lemma {:induction false} DigitsValue(n: nat, base: nat, upper: bool)
    requires 2 <= base <= 36
    ensures IsDigits(Digits(n, base, upper), base) && Value(Digits(n, base, upper), base) == n
    decreases n
  {
    hide DigitChar, DigitValue, Value, IsDigits;
    if n < base {
      DigitReads(n, upper);
      NoDigits(base);
      ValueMore([], DigitChar(n, upper), base);
      assert [] + [DigitChar(n, upper)] == [DigitChar(n, upper)];
    } else {
      Division(n, base);
      DigitReads(n % base, upper);
      DigitsValue(n / base, base, upper);
      ValueMore(Digits(n / base, base, upper), DigitChar(n % base, upper), base);
    }
  }

  lemma NoDigits(base: nat)
    ensures IsDigits([], base) && Value([], base) == 0
  {
  }

  /** No leading zero but that of zero itself, so the digits are as few as can be. */
  lemma {:induction false} NoLeadingZero(n: nat, base: nat, upper: bool)
    requires 2 <= base <= 36
    ensures n > 0 ==> DigitValue(Digits(n, base, upper)[0]) > 0
    decreases n
  {
    hide DigitChar, DigitValue;
    if n < base {
      DigitReads(n, upper);
    } else {
      Division(n, base);
      NoLeadingZero(n / base, base, upper);
      assert Digits(n, base, upper)[0] == Digits(n / base, base, upper)[0];
    }
  }

  function Pow2(k: nat): nat {
    if k == 0 then 1 else 2 * Pow2(k - 1)
  }

  /** At most one digit for a bit. */
  lemma {:induction false} DigitsFit(n: nat, base: nat, upper: bool, bits: nat)
    requires 2 <= base <= 36 && bits > 0 && n < Pow2(bits)
    ensures |Digits(n, base, upper)| <= bits
    decreases n
  {
    hide DigitChar;
    if n >= base {
      Division(n, base);
      Halved(n, base, Pow2(bits - 1));
      DigitsFit(n / base, base, upper, bits - 1);
    }
  }

  lemma Halved(n: nat, base: nat, half: nat)
    requires base >= 2 && n < 2 * half
    ensures n / base < half
  {
    var q := n / base;
    assert base * q <= n;
    assert 2 * q <= base * q;
  }

  // ---- what is printed ----

  function Repeat(c: char, n: int): (r: string)
    ensures |r| == if n > 0 then n else 0
    ensures forall i :: 0 <= i < |r| ==> r[i] == c
  {
    if n <= 0 then [] else seq(n, _ => c)
  }

  function Magnitude(num: int, f: Flags, limit: nat): nat
    requires IsLong(num, limit)
  {
    if f.signed then (if num < 0 then -num else num) else num % limit
  }

  function Sign(num: int, f: Flags): string {
    if !f.signed then ""
    else if num < 0 then "-"
    else if f.plus then "+"
    else if f.space then " "
    else ""
  }

  function Prefix(base: nat, f: Flags): string {
    if !f.prefix then "" else if base == 8 then "0" else if base == 16 then "0x" else ""
  }

  function Max(a: int, b: int): int {
    if a > b then a else b
  }

  /** Sign, prefix and digits, filled up with zeros to the precision, and the whole to the width: behind it with spaces,
      before the digits with zeros, or in front with spaces. */
  function Number(num: int, base: nat, size: int, precision: int, f: Flags, limit: nat): string
    requires IsLong(num, limit) && 2 <= base <= 36
  {
    var digits := Digits(Magnitude(num, f, limit), base, f.upper);
    var head := Sign(num, f) + Prefix(base, f);
    var tail := Repeat('0', precision - |digits|) + digits;
    var fill := size - |head| - |tail|;
    Filled(head, tail, fill, f)
  }

  function Filled(head: string, tail: string, fill: int, f: Flags): string {
    if f.left then head + tail + Repeat(' ', fill)
    else if f.zeroPad then head + Repeat('0', fill) + tail
    else Repeat(' ', fill) + head + tail
  }

  lemma NumberLength(num: int, base: nat, size: int, precision: int, f: Flags, limit: nat)
    requires IsLong(num, limit) && 2 <= base <= 36
    ensures |Number(num, base, size, precision, f, limit)|
         == Max(size, |Sign(num, f)| + |Prefix(base, f)|
                      + Max(precision, |Digits(Magnitude(num, f, limit), base, f.upper)|))
  {
    hide Sign, Prefix, Digits, Magnitude;
  }

  // ---- how it is laid out ----

  /** The letters among the digits are of one kind. */
  predicate InCase(s: string, upper: bool) {
    forall i :: 0 <= i < |s| ==> if upper then !('a' <= s[i] <= 'z') else !('A' <= s[i] <= 'Z')
  }

  lemma DigitInCase(d: nat, upper: bool)
    requires d < 36
    ensures InCase([DigitChar(d, upper)], upper)
  {
    if d < 12 {
    } else if d < 24 {
    } else {
    }
  }

  lemma {:induction false} DigitsInCase(n: nat, base: nat, upper: bool)
    requires 2 <= base <= 36
    ensures InCase(Digits(n, base, upper), upper)
    decreases n
  {
    hide DigitChar;
    if n < base {
      DigitInCase(n, upper);
    } else {
      Division(n, base);
      DigitsInCase(n / base, base, upper);
      DigitInCase(n % base, upper);
      assert [DigitChar(n % base, upper)][0] == DigitChar(n % base, upper);
    }
  }

  /** The parts of what is printed: the sign of a signed number, the prefix, zeros up to the precision and the digits of
      its magnitude, as few as can be and in one case. With left they come first and spaces behind them; otherwise they
      come last, behind spaces, or with zeros for the spaces between the prefix and the digits. */
  lemma LaidOut(num: int, base: nat, size: int, precision: int, f: Flags, limit: nat)
    returns (digits: string, zeros: nat, pad: nat)
    requires IsLong(num, limit) && 2 <= base <= 36
    ensures IsDigits(digits, base) && InCase(digits, f.upper) && digits != []
    ensures Value(digits, base) == if f.signed then (if num < 0 then -num else num) else num % limit
    ensures |digits| > 1 ==> DigitValue(digits[0]) > 0
    ensures zeros == if precision > |digits| then precision - |digits| else 0
    ensures var sign := if f.signed && num < 0 then "-" else if f.signed && f.plus then "+"
                        else if f.signed && f.space then " " else "";
            var prefix := if f.prefix && base == 8 then "0" else if f.prefix && base == 16 then "0x" else "";
            var body := sign + prefix + Repeat('0', zeros) + digits;
            && pad == (if size > |body| then size - |body| else 0)
            && Number(num, base, size, precision, f, limit) ==
               if f.left then body + Repeat(' ', pad)
               else if f.zeroPad then sign + prefix + Repeat('0', zeros + pad) + digits
               else Repeat(' ', pad) + body
  {
    hide Digits, IsDigits, InCase, Value, DigitValue, Filled, Repeat, Magnitude, Sign, Prefix;
    digits := Digits(Magnitude(num, f, limit), base, f.upper);
    DigitFacts(num, base, f, limit);
    HeadIs(num, base, f);
    zeros := Max(precision - |digits|, 0);
    var head := Sign(num, f) + Prefix(base, f);
    pad := Max(size - |head| - zeros - |digits|, 0);
    Placed(head, digits, size, precision, f, zeros, pad);
  }

  lemma DigitFacts(num: int, base: nat, f: Flags, limit: nat)
    requires IsLong(num, limit) && 2 <= base <= 36
    ensures var digits := Digits(Magnitude(num, f, limit), base, f.upper);
            && IsDigits(digits, base) && InCase(digits, f.upper) && digits != []
            && Value(digits, base) == (if f.signed then (if num < 0 then -num else num) else num % limit)
            && (|digits| > 1 ==> DigitValue(digits[0]) > 0)
  {
    var n := Magnitude(num, f, limit);
    DigitsValue(n, base, f.upper);
    DigitsInCase(n, base, f.upper);
    NoLeadingZero(n, base, f.upper);
    OneDigit(n, base, f.upper);
    hide Digits, IsDigits, InCase, Value, DigitValue;
  }

  lemma HeadIs(num: int, base: nat, f: Flags)
    ensures Sign(num, f) == if f.signed && num < 0 then "-" else if f.signed && f.plus then "+"
                            else if f.signed && f.space then " " else ""
    ensures Prefix(base, f) == if f.prefix && base == 8 then "0" else if f.prefix && base == 16 then "0x" else ""
  {
  }

  lemma Placed(head: string, digits: string, size: int, precision: int, f: Flags, zeros: nat, pad: nat)
    requires zeros == Max(precision - |digits|, 0) && pad == Max(size - |head| - zeros - |digits|, 0)
    ensures var tail, body := Repeat('0', precision - |digits|) + digits, head + Repeat('0', zeros) + digits;
            && |body| == |head| + zeros + |digits|
            && Filled(head, tail, size - |head| - |tail|, f) ==
               if f.left then body + Repeat(' ', pad)
               else if f.zeroPad then head + Repeat('0', zeros + pad) + digits
               else Repeat(' ', pad) + body
  {
    SameRepeat(precision - |digits|, zeros);
    SameRepeat(size - |head| - zeros - |digits|, pad);
    Regrouped(head, zeros, pad, digits);
    hide Repeat;
  }

  lemma OneDigit(n: nat, base: nat, upper: bool)
    requires 2 <= base <= 36
    ensures n == 0 ==> |Digits(n, base, upper)| == 1
  {
  }

  lemma SameRepeat(m: int, n: nat)
    requires n == if m > 0 then m else 0
    ensures forall c :: Repeat(c, m) == Repeat(c, n)
  {
  }

  lemma Regrouped(head: string, zeros: nat, pad: nat, digits: string)
    ensures head + (Repeat('0', zeros) + digits) == head + Repeat('0', zeros) + digits
    ensures head + Repeat('0', pad) + (Repeat('0', zeros) + digits) == head + Repeat('0', zeros + pad) + digits
    ensures Repeat(' ', pad) + head + (Repeat('0', zeros) + digits)
         == Repeat(' ', pad) + (head + Repeat('0', zeros) + digits)
  {
  }

  // ---- reading it back ----

  function DigitRun(s: string, base: nat): (r: nat)
    ensures r <= |s| && IsDigits(s[..r], base)
  {
    if s != [] && 0 <= DigitValue(s[0]) < base then
      var r := 1 + DigitRun(s[1..], base);
      assert forall i :: 0 < i < r ==> s[..r][i] == s[1..][..r - 1][i - 1];
      r
    else 0
  }

  function SkipSpaces(s: string): string {
    if s != [] && s[0] == ' ' then SkipSpaces(s[1..]) else s
  }

  function ReadDigits(s: string, base: nat): nat {
    Value(s[..DigitRun(s, base)], base)
  }

  /** What a reader makes of it who knows the base and whether there is a prefix: spaces, a sign, the prefix, digits. */
  function ReadNumber(s: string, base: nat, f: Flags): int {
    var t := SkipSpaces(s);
    var negative := t != [] && t[0] == '-';
    var u := if t != [] && (t[0] == '-' || t[0] == '+') then t[1..] else t;
    var v := if f.prefix && base == 16 && |u| >= 2 then u[2..] else u;
    var n: int := ReadDigits(v, base);
    if negative then -n else n
  }

  lemma {:induction false} SpacesSkipped(n: int, s: string)
    requires s != [] ==> s[0] != ' '
    ensures SkipSpaces(Repeat(' ', n) + s) == s
    decreases n
  {
    var t := Repeat(' ', n) + s;
    if n <= 0 {
      assert t == s;
    } else {
      SpacesSkipped(n - 1, s);
      assert t[1..] == Repeat(' ', n - 1) + s;
    }
  }

  lemma {:induction false} RunIs(digits: string, rest: string, base: nat)
    requires IsDigits(digits, base) && (rest != [] ==> !(0 <= DigitValue(rest[0]) < base))
    ensures DigitRun(digits + rest, base) == |digits|
  {
    hide DigitValue;
    var s := digits + rest;
    if digits == [] {
      assert s == rest;
    } else {
      RunIs(digits[1..], rest, base);
      assert s[1..] == digits[1..] + rest;
    }
  }

  lemma {:induction false} LeadingZeros(n: int, digits: string, base: nat)
    requires IsDigits(digits, base) && base > 0
    ensures IsDigits(Repeat('0', n) + digits, base)
    ensures Value(Repeat('0', n) + digits, base) == Value(digits, base)
    decreases |digits|
  {
    hide DigitValue;
    assert DigitValue('0') == 0 by { Zero(); }
    var z := Repeat('0', n);
    assert IsDigits(z + digits, base);
    if digits == [] {
      assert z + digits == z;
      ZerosValue(z, base);
    } else {
      var front := digits[..|digits| - 1];
      LeadingZeros(n, front, base);
      assert (z + digits)[..|z + digits| - 1] == z + front;
    }
  }

  lemma Zero()
    ensures DigitValue('0') == 0 && DigitValue(' ') == -1
  {
  }

  lemma {:induction false} ZerosValue(z: string, base: nat)
    requires base > 0 && IsDigits(z, base) && forall i :: 0 <= i < |z| ==> z[i] == '0'
    ensures Value(z, base) == 0
  {
    if z != [] {
      Zero();
      hide DigitValue;
      ZerosValue(z[..|z| - 1], base);
    }
  }

  /** Digits with zeros before and spaces behind are read for their value. */
  lemma DigitsRead(zeros: int, n: nat, base: nat, upper: bool, fill: int)
    requires 2 <= base <= 36
    ensures ReadDigits(Repeat('0', zeros) + Digits(n, base, upper) + Repeat(' ', fill), base) == n
  {
    var digits, z, rest := Digits(n, base, upper), Repeat('0', zeros), Repeat(' ', fill);
    DigitsValue(n, base, upper);
    Zero();
    hide DigitValue, Digits;
    LeadingZeros(zeros, digits, base);
    RunIs(z + digits, rest, base);
    assert (z + digits + rest)[..|z + digits|] == z + digits;
  }

  lemma ZerosJoin(a: int, b: int)
    ensures Repeat('0', a) + Repeat('0', b) == Repeat('0', Max(a, 0) + Max(b, 0))
  {
  }

  /** What is left after spaces, sign and prefix. */
  function AfterPrefix(u: string, base: nat, f: Flags): string {
    if f.prefix && base == 16 && |u| >= 2 then u[2..] else u
  }

  lemma PrefixRead(base: nat, f: Flags, body: string)
    requires body != []
    ensures AfterPrefix(Prefix(base, f) + body, base, f) == (if f.prefix && base == 8 then "0" else "") + body
  {
    var after := Prefix(base, f) + body;
    if f.prefix && base == 16 {
      assert after[2..] == body == "" + body;
    } else if f.prefix && base == 8 {
      assert after == "0" + body;
    } else {
      assert after == "" + body;
    }
  }

  lemma PrefixStarts(base: nat, f: Flags, body: string)
    requires 2 <= base <= 36 && body != [] && 0 <= DigitValue(body[0]) < base
    ensures var after := Prefix(base, f) + body; after != [] && after[0] !in " -+"
  {
    var after := Prefix(base, f) + body;
    Zero();
    Signs();
    hide DigitValue;
    assert after[0] == '0' || after[0] == body[0];
  }

  lemma SignRead(spaces: int, num: int, f: Flags, after: string)
    requires after != [] && after[0] !in " -+"
    ensures var t := SkipSpaces(Repeat(' ', spaces) + (Sign(num, f) + after));
      && t != [] && (t[0] == '-' <==> f.signed && num < 0)
      && (if t[0] == '-' || t[0] == '+' then t[1..] else t) == after
  {
    var sign := Sign(num, f);
    if sign == " " {
      assert Repeat(' ', spaces) + (sign + after) == Repeat(' ', Max(spaces, 0) + 1) + after;
      SpacesSkipped(Max(spaces, 0) + 1, after);
    } else {
      SpacesSkipped(spaces, sign + after);
      assert sign == "" ==> sign + after == after;
      assert sign != "" ==> (sign + after)[1..] == after;
    }
  }

  /** What is read behind the sign and a prefix of base 16: zeros, digits, spaces. */
  lemma HeadRead(spaces: int, num: int, base: nat, f: Flags, body: string, v: int)
    requires 2 <= base <= 36 && body != [] && 0 <= DigitValue(body[0]) < base
    requires v == ReadDigits((if f.prefix && base == 8 then "0" else "") + body, base)
    ensures ReadNumber(Repeat(' ', spaces) + (Sign(num, f) + (Prefix(base, f) + body)), base, f)
         == if f.signed && num < 0 then -v else v
  {
    hide ReadDigits, DigitValue, SkipSpaces, Sign, Prefix, Repeat;
    var after := Prefix(base, f) + body;
    PrefixStarts(base, f, body);
    SignRead(spaces, num, f, after);
    PrefixRead(base, f, body);
  }

  lemma Signs()
    ensures DigitValue('-') == -1 && DigitValue('+') == -1
  {
  }

  /** For every number, base, width, precision and set of flags, what is printed reads back: signed as the number
      itself, otherwise as the unsigned number with its bits. */
  lemma NumberReadsBack(num: int, base: nat, size: int, precision: int, f: Flags, limit: nat)
    requires IsLong(num, limit) && 2 <= base <= 36
    ensures ReadNumber(Number(num, base, size, precision, f, limit), base, f)
         == if f.signed then num else num % limit
  {
    hide ReadNumber, ReadDigits, Digits, Sign, Prefix, DigitValue, Repeat, Number;
    var n := Magnitude(num, f, limit);
    var digits := Digits(n, base, f.upper);
    var front, zeros, behind := Layout(num, base, size, precision, f, limit);
    BodyReads(zeros, n, base, f, behind);
    HeadRead(front, num, base, f, Repeat('0', zeros) + digits + Repeat(' ', behind), n);
  }

  /** However it is filled up, it is spaces, sign and prefix, zeros, digits and spaces. */
  lemma Layout(num: int, base: nat, size: int, precision: int, f: Flags, limit: nat)
    returns (front: nat, zeros: nat, behind: nat)
    requires IsLong(num, limit) && 2 <= base <= 36
    ensures var body := Repeat('0', zeros) + Digits(Magnitude(num, f, limit), base, f.upper) + Repeat(' ', behind);
      Number(num, base, size, precision, f, limit)
      == Repeat(' ', front) + (Sign(num, f) + (Prefix(base, f) + body))
  {
    hide Digits, Sign, Prefix, Magnitude, Repeat, Filled;
    var digits, sign, prefix := Digits(Magnitude(num, f, limit), base, f.upper), Sign(num, f), Prefix(base, f);
    var more := Max(precision - |digits|, 0);
    RepeatNone(precision - |digits|);
    var tail := Repeat('0', more) + digits;
    var fill := size - |sign + prefix| - |tail|;
    front, zeros, behind := FilledLayout(sign, prefix, more, digits, fill, f);
  }

  lemma FilledLayout(sign: string, prefix: string, more: nat, digits: string, fill: int, f: Flags)
    returns (front: nat, zeros: nat, behind: nat)
    ensures Filled(sign + prefix, Repeat('0', more) + digits, fill, f)
         == Repeat(' ', front) + (sign + (prefix + (Repeat('0', zeros) + digits + Repeat(' ', behind))))
  {
    RepeatNone(fill);
    RepeatNone(0);
    hide Repeat;
    front := if f.left || f.zeroPad then 0 else Max(fill, 0);
    zeros := (if f.left || !f.zeroPad then 0 else Max(fill, 0)) + more;
    behind := if f.left then Max(fill, 0) else 0;
    var z, s := Repeat('0', more), Repeat(' ', behind);
    if f.left {
      RegroupFive([], sign, prefix, z + digits, s);
    } else if f.zeroPad {
      ZerosJoin(Max(fill, 0), more);
      var y := Repeat('0', Max(fill, 0));
      assert (y + z) + digits == y + (z + digits);
      RegroupFive([], sign, prefix, y + (z + digits), []);
      assert sign + prefix + y + (z + digits) == sign + prefix + (y + (z + digits));
    } else {
      RegroupFive(Repeat(' ', front), sign, prefix, z + digits, []);
    }
  }

  lemma RegroupFive(a: string, b: string, c: string, d: string, e: string)
    ensures a + (b + (c + (d + e))) == a + (b + c) + d + e
    ensures e == [] ==> a + (b + (c + (d + e))) == a + (b + c) + d
    ensures a == [] ==> a + (b + (c + (d + e))) == (b + c) + d + e
  {
    assert e == [] ==> d + e == d;
  }

  lemma RepeatNone(n: int)
    ensures forall c :: Repeat(c, n) == Repeat(c, Max(n, 0))
    ensures n <= 0 ==> forall c :: Repeat(c, n) == []
  {
  }

  lemma BodyReads(zeros: nat, n: nat, base: nat, f: Flags, behind: int)
    requires 2 <= base <= 36
    ensures var body := Repeat('0', zeros) + Digits(n, base, f.upper) + Repeat(' ', behind);
      && body != [] && 0 <= DigitValue(body[0]) < base
      && ReadDigits((if f.prefix && base == 8 then "0" else "") + body, base) == n
  {
    hide Digits, DigitValue, ReadDigits, Repeat, IsDigits;
    var digits := Digits(n, base, f.upper);
    DigitsRead(zeros, n, base, f.upper, behind);
    DigitsRead(zeros + 1, n, base, f.upper, behind);
    BodyStarts(zeros, n, base, f.upper, Repeat(' ', behind));
    OneMoreZero(zeros, digits, Repeat(' ', behind));
  }

  lemma BodyStarts(zeros: nat, n: nat, base: nat, upper: bool, rest: string)
    requires 2 <= base <= 36
    ensures var body := Repeat('0', zeros) + Digits(n, base, upper) + rest;
      body != [] && 0 <= DigitValue(body[0]) < base
  {
    DigitsValue(n, base, upper);
    Zero();
    hide Digits, DigitValue;
    var body := Repeat('0', zeros) + Digits(n, base, upper) + rest;
    assert body[0] == if zeros > 0 then '0' else Digits(n, base, upper)[0];
  }

  lemma OneMoreZero(zeros: nat, s: string, t: string)
    ensures "0" + (Repeat('0', zeros) + s + t) == Repeat('0', zeros + 1) + s + t
    ensures "" + (Repeat('0', zeros) + s + t) == Repeat('0', zeros) + s + t
  {
    assert "0" + Repeat('0', zeros) == Repeat('0', zeros + 1);
    hide Repeat;
  }

  // ---- the program ----

  class Console {
    var out: string

    method PutChar(c: char)
      modifies this
      ensures out == old(out) + [c]
    {
      out := out + [c];
    }
  }

  /** while (size-- > 0) putchar(c) */
  method Pad(console: Console, c: char, size: int) returns (size': int)
    modifies console
    ensures console.out == old(console.out) + Repeat(c, size)
    ensures size' == Min(size, 0) - 1
  {
    size' := size;
    ghost var before, done := console.out, 0;
    while size' > 0
      invariant size' + done == size && done >= 0 && (done > 0 ==> size' >= 0)
      invariant console.out == before + Repeat(c, done)
    {
      size' := size' - 1;
      console.PutChar(c);
      assert Repeat(c, done + 1) == Repeat(c, done) + [c];
      done := done + 1;
    }
    size' := size' - 1;
  }

  function Min(a: int, b: int): int {
    if a < b then a else b
  }

  function Reversed(s: string): (r: string)
    ensures |r| == |s|
  {
    if s == [] then [] else [s[|s| - 1]] + Reversed(s[..|s| - 1])
  }

  /** -num, which for the least number is that number again. */
  function Negated(num: int, limit: nat): int
    requires IsLong(num, limit)
  {
    if num == -(limit / 2) then num else -num
  }

  /** The digits of a magnitude into tmp, the last one first. */
  method Convert(tmp: array<char>, n: nat, base: nat, upper: bool, ghost limit: nat) returns (i: nat)
    requires tmp.Length == 66 && 2 <= base <= 36 && IsLimit(limit) && n < limit
    modifies tmp
    ensures i <= 64 && Reversed(tmp[..i]) == Digits(n, base, upper)
  {
    BitsOf(limit);
    DigitsFit(n, base, upper, 64);
    hide DigitChar, Digits, IsLimit, Reversed, High, LastDigit, Shorter;
    i := 0;
    if n == 0 {
      tmp[i] := '0';
      i := i + 1;
      DigitZero(base, upper);
      assert tmp[..1] == ['0'];
    } else {
      var u: nat := n;
      NothingStored(tmp, n, base, upper);
      while u != 0
        invariant i <= 64 && Digits(n, base, upper) == High(u, base, upper) + Reversed(tmp[..i])
        decreases u
      {
        HighSplit(u, base, upper, Reversed(tmp[..i]));
        i, u := StoreDigit(tmp, i, u, base, upper);
      }
    }
  }

  /** One round of the loop. */
  method StoreDigit(tmp: array<char>, i: nat, u: nat, base: nat, upper: bool) returns (i': nat, u': nat)
    requires i < tmp.Length && 2 <= base <= 36
    modifies tmp
    ensures i' == i + 1 && u' == Shorter(u, base)
    ensures Reversed(tmp[..i']) == [DigitChar(LastDigit(u, base), upper)] + Reversed(old(tmp[..i]))
  {
    hide DigitChar, LastDigit, Shorter;
    ghost var front := tmp[..i];
    var c := DigitChar(LastDigit(u, base), upper);
    tmp[i] := c;
    assert tmp[..i + 1] == front + [c] && tmp[..i + 1][..i] == front;
    i', u' := i + 1, Shorter(u, base);
  }

  lemma NothingStored(tmp: array<char>, n: nat, base: nat, upper: bool)
    requires 2 <= base <= 36 && n > 0
    ensures Digits(n, base, upper) == High(n, base, upper) + Reversed(tmp[..0])
  {
    hide Digits;
    assert tmp[..0] == [];
  }

  /** The digits that are still to come. */
  function High(u: nat, base: nat, upper: bool): string
    requires 2 <= base <= 36
  {
    if u == 0 then [] else Digits(u, base, upper)
  }

  function LastDigit(u: nat, base: nat): (d: nat)
    requires base > 0
    ensures d < base
  {
    u % base
  }

  function Shorter(u: nat, base: nat): (q: nat)
    requires base >= 2
    ensures u > 0 ==> q < u
  {
    Division(u, base);
    u / base
  }

  lemma HighSplit(u: nat, base: nat, upper: bool, s: string)
    requires 2 <= base <= 36 && u > 0
    ensures |High(u, base, upper)| > 0
    ensures High(u, base, upper) + s ==
      High(Shorter(u, base), base, upper) + ([DigitChar(LastDigit(u, base), upper)] + s)
  {
    Division(u, base);
    hide DigitChar;
    if u < base {
      SmallNumber(u, base);
    }
  }

  lemma SmallNumber(u: nat, base: nat)
    requires u < base
    ensures u / base == 0 && u % base == u
  {
  }

  lemma DigitZero(base: nat, upper: bool)
    requires 2 <= base <= 36
    ensures Digits(0, base, upper) == ['0'] == Reversed(['0'])
  {
    assert ['0'][..0] == [];
  }

  lemma BitsOf(limit: nat)
    requires IsLimit(limit)
    ensures limit <= Pow2(64)
  {
    Bits16();
    hide Pow2;
    PowSum(16, 16);
    PowSum(32, 32);
  }

  lemma Bits16()
    ensures Pow2(16) == 0x1_0000
  {
    assert Pow2(4) == 16;
    PowSum(4, 4);
    hide Pow2;
    PowSum(8, 8);
  }

  lemma {:induction false} PowSum(a: nat, b: nat)
    ensures Pow2(a + b) == Pow2(a) * Pow2(b)
  {
    if a > 0 {
      PowSum(a - 1, b);
    }
  }

  /** rumboot_number: an unknown base prints nothing. */
  method RumbootNumber(console: Console, num: int, base: int, size: int, precision: int, f: Flags, limit: nat)
    requires IsLong(num, limit)
    modifies console
    ensures console.out == old(console.out) +
      if 2 <= base <= 36 then Number(num, base, size, precision, f, limit) else ""
  {
    if base < 2 || base > 36 {
      return;
    }
    hide *;
    var zeroPad := f.zeroPad && !f.left;
    var sign, n, size' := TakeSign(num, size, f, limit);
    size' := TakePrefix(base, size', f);
    var precision', tmp := precision, new char[66];
    var i := Convert(tmp, n, base, f.upper, limit);
    ghost var digits := Reversed(tmp[..i]);
    if i > precision' {
      precision' := i;
    }
    size' := size' - precision';
    NumberIs(num, base, size, precision, f, limit, digits, sign, precision', size');
    Emit(console, tmp, i, sign, base, size', precision', zeroPad, f, digits);
  }

  method TakePrefix(base: nat, size: int, f: Flags) returns (size': int)
    ensures size' == size - |Prefix(base, f)|
  {
    size' := size;
    if f.prefix {
      if base == 16 {
        size' := size' - 2;
      } else if base == 8 {
        size' := size' - 1;
      }
    }
  }

  /** The sign, and the number from then on taken as unsigned. */
  method TakeSign(num: int, size: int, f: Flags, limit: nat) returns (sign: string, n: nat, size': int)
    requires IsLong(num, limit)
    ensures sign == Sign(num, f) && size' == size - |sign| && |sign| <= 1
    ensures n == Magnitude(num, f, limit) < limit
  {
    var num' := num;
    sign, size' := "", size;
    if f.signed {
      if num < 0 {
        sign, num', size' := "-", Negated(num, limit), size - 1;
      } else if f.plus {
        sign, size' := "+", size - 1;
      } else if f.space {
        sign, size' := " ", size - 1;
      }
    }
    MagnitudeIs(num, f, limit);
    n := num' % limit;
  }

  /** The fill that is left of the width when the number has its precision. */
  lemma NumberIs(num: int, base: nat, size: int, precision: int, f: Flags, limit: nat, digits: string, sign: string,
    precision': int, size': int)
    requires IsLong(num, limit) && 2 <= base <= 36
    requires digits == Digits(Magnitude(num, f, limit), base, f.upper) && sign == Sign(num, f)
    requires precision' == (if |digits| > precision then |digits| else precision)
    requires size' == size - |sign| - |Prefix(base, f)| - precision'
    ensures Number(num, base, size, precision, f, limit)
         == Filled(sign + Prefix(base, f), Repeat('0', precision' - |digits|) + digits, size', f)
  {
    hide Digits, Magnitude, Sign, Prefix, Filled;
    RepeatNone(precision - |digits|);
  }

  method Emit(console: Console, tmp: array<char>, i: nat, sign: string, base: int, size: int, precision: int,
    zeroPad: bool, f: Flags, ghost digits: string)
    requires 2 <= base <= 36 && i <= tmp.Length && i <= precision && |sign| <= 1 && digits == Reversed(tmp[..i])
    requires zeroPad == (f.zeroPad && !f.left)
    modifies console
    ensures console.out == old(console.out)
      + Filled(sign + Prefix(base, f), Repeat('0', precision - i) + digits, size, f)
  {
    hide Prefix, Repeat, Reversed;
    RepeatAny();
    var size' := size;
    ghost var start := console.out;
    ghost var front, middle, behind := "", "", "";
    var c := if zeroPad then '0' else ' ';
    if !zeroPad && !f.left {
      size' := Pad(console, ' ', size');
      front := Repeat(' ', size);
    }
    if sign != "" {
      console.PutChar(sign[0]);
      assert sign == [sign[0]];
    }
    assert console.out == start + front + sign;
    PutPrefix(console, base, f);
    if !f.left {
      size' := Pad(console, c, size');
      middle := if zeroPad then Repeat('0', size) else "";
    }
    assert console.out == start + front + sign + Prefix(base, f) + middle;
    var _ := Pad(console, '0', precision - i);
    PutReversed(console, tmp, i);
    size' := Pad(console, ' ', size');
    behind := if f.left then Repeat(' ', size) else "";
    Emitted(start, sign, Prefix(base, f), Repeat('0', precision - i), digits, size, f, front, middle, behind);
  }

  lemma RepeatAny()
    ensures forall c, n :: n <= 0 ==> Repeat(c, n) == ""
  {
  }

  lemma Emitted(start: string, sign: string, prefix: string, zeros: string, digits: string, size: int, f: Flags,
    front: string, middle: string, behind: string)
    requires front == if !f.left && !f.zeroPad then Repeat(' ', size) else ""
    requires middle == if !f.left && f.zeroPad then Repeat('0', size) else ""
    requires behind == if f.left then Repeat(' ', size) else ""
    ensures start + front + sign + prefix + middle + zeros + digits + behind
         == start + Filled(sign + prefix, zeros + digits, size, f)
  {
    hide Repeat;
  }

  method PutPrefix(console: Console, base: int, f: Flags)
    requires 2 <= base <= 36
    modifies console
    ensures console.out == old(console.out) + Prefix(base, f)
  {
    if f.prefix {
      if base == 8 {
        console.PutChar('0');
      } else if base == 16 {
        console.PutChar('0');
        console.PutChar(LOWER_DIGITS[33]);
      }
    }
  }

  /** while (i-- > 0) putchar(tmp[i]) */
  method PutReversed(console: Console, tmp: array<char>, n: nat)
    requires n <= tmp.Length
    modifies console
    ensures console.out == old(console.out) + Reversed(tmp[..n])
  {
    ghost var before := console.out;
    for i := n downto 0
      invariant console.out + Reversed(tmp[..i]) == before + Reversed(tmp[..n])
    {
      assert tmp[..i + 1][..i] == tmp[..i];
      ghost var now := console.out;
      console.PutChar(tmp[i]);
      assert now + ([tmp[i]] + Reversed(tmp[..i])) == console.out + Reversed(tmp[..i]);
    }
    assert tmp[..0] == [];
  }

  lemma MagnitudeIs(num: int, f: Flags, limit: nat)
    requires IsLong(num, limit)
    ensures Magnitude(num, f, limit) == (if f.signed && num < 0 then Negated(num, limit) else num) % limit < limit
  {
  }

  /** rumboot_skip_atoi on a string, from a place in it: the decimal digits there, and the place behind them. */
  method RumbootSkipAtoi(s: string, start: nat) returns (i: nat, end: nat)
    requires start <= |s|
    ensures end == start + DigitRun(s[start..], 10) && i == ReadDigits(s[start..], 10)
  {
    hide ReadUpTo, DigitRun, ReadDigits;
    i, end := 0, start;
    ReadNothing(s, start);
    while end < |s| && '0' <= s[end] <= '9'
      invariant start <= end <= |s| && ReadUpTo(s, start, end, i)
    {
      ReadMore(s, start, end, i);
      i := i * 10 + (s[end] as int - '0' as int);
      end := end + 1;
    }
    ReadAll(s, start, end, i);
  }

  /** What has been read from start to end is digits, and i is their value. */
  ghost predicate ReadUpTo(s: string, start: nat, end: nat, i: nat) {
    && start <= end <= |s| && IsDigits(s[start..][..end - start], 10) && i == Value(s[start..][..end - start], 10)
    && DigitRun(s[start..], 10) == end - start + DigitRun(s[end..], 10)
  }

  lemma ReadNothing(s: string, start: nat)
    requires start <= |s|
    ensures ReadUpTo(s, start, start, 0)
  {
    assert s[start..][..0] == [];
  }

  lemma ReadMore(s: string, start: nat, end: nat, i: nat)
    requires ReadUpTo(s, start, end, i) && end < |s| && '0' <= s[end] <= '9'
    ensures ReadUpTo(s, start, end + 1, i * 10 + (s[end] as int - '0' as int))
  {
    hide Value, IsDigits, DigitRun;
    DecimalStep(s, start, end);
  }

  lemma ReadAll(s: string, start: nat, end: nat, i: nat)
    requires ReadUpTo(s, start, end, i) && (end < |s| ==> !('0' <= s[end] <= '9'))
    ensures end == start + DigitRun(s[start..], 10) && i == ReadDigits(s[start..], 10)
  {
    if end < |s| {
      NotDecimal(s[end]);
    }
    hide Value, IsDigits, DigitValue;
  }

  lemma DecimalStep(s: string, start: nat, end: nat)
    requires start <= end < |s| && '0' <= s[end] <= '9' && IsDigits(s[start..][..end - start], 10)
    ensures IsDigits(s[start..][..end + 1 - start], 10)
    ensures Value(s[start..][..end + 1 - start], 10)
         == Value(s[start..][..end - start], 10) * 10 + (s[end] as int - '0' as int)
    ensures DigitRun(s[end..], 10) == 1 + DigitRun(s[end + 1..], 10)
  {
    var rest, k := s[start..], end - start;
    assert rest[..k + 1] == rest[..k] + [s[end]];
    assert s[end..][1..] == s[end + 1..];
    NotDecimal(s[end]);
    ValueMore(rest[..k], s[end], 10);
    hide Value, IsDigits;
  }

  lemma NotDecimal(c: char)
    ensures 0 <= DigitValue(c) < 10 <==> '0' <= c <= '9'
  {
  }

  /** A nonnegative number printed in base 10 is what rumboot_skip_atoi reads, and it stops behind the digits. */
  lemma DecimalReadsBack(n: nat, upper: bool, rest: string)
    requires rest != [] ==> !('0' <= rest[0] <= '9')
    ensures var s := Digits(n, 10, upper) + rest;
      DigitRun(s, 10) == |Digits(n, 10, upper)| && ReadDigits(s, 10) == n
  {
    var digits := Digits(n, 10, upper);
    DigitsValue(n, 10, upper);
    if rest != [] {
      NotDecimal(rest[0]);
    }
    hide Digits, DigitValue;
    RunIs(digits, rest, 10);
    assert (digits + rest)[..|digits|] == digits;
  }
}
