/** What the printf engine of `kernel/utils/stdio.c` prints for a number. */
module PrintfSpec {
  import opened Wrappers

  const U64: nat := 0x1_0000_0000_0000_0000
  const I64: nat := 0x8000_0000_0000_0000

  // the VSNPRINTF_ flags
  datatype Flags = Flags(zeropad: bool, sign: bool, plus: bool, space: bool, left: bool, special: bool, large: bool)

  function Max(a: int, b: int): int { if a < b then b else a }

  function Repeat(c: char, n: int): (s: string)
    ensures |s| == Max(n, 0) && forall k :: 0 <= k < |s| ==> s[k] == c
  {
    if n <= 0 then "" else Repeat(c, n - 1) + [c]
  }

  function DigitTable(large: bool): string {
    if large then "0123456789ABCDEFGHIJKLMNOPQRSTUVWXYZ" else "0123456789abcdefghijklmnopqrstuvwxyz"
  }

  function DigitChar(d: nat, large: bool): char
    requires d < 36
  {
    if d < 10 then '0' + d as char else (if large then 'A' else 'a') + (d - 10) as char
  }

  function DigitValue(c: char): nat {
    if '0' <= c <= '9' then (c - '0') as nat
    else if 'a' <= c <= 'z' then (c - 'a') as nat + 10
    else if 'A' <= c <= 'Z' then (c - 'A') as nat + 10
    else 36
  }

  lemma DigitTables(d: nat, large: bool)
    requires d < 36
    ensures |DigitTable(large)| == 36 && DigitTable(large)[d] == DigitChar(d, large)
  {
  }

  function Quot(n: nat, base: nat): nat
    requires base > 0
  {
    n / base
  }

  function Rem(n: nat, base: nat): (r: nat)
    requires base > 0
    ensures r < base
  {
    n % base
  }

  /** The digits of a number, the most significant first. */
  function Digits(n: nat, base: nat, large: bool): (s: string)
    requires 2 <= base <= 36
    ensures |s| > 0
    decreases n
  {
    if n < base then [DigitChar(n, large)]
    else DigitsShrink(n, base); Digits(Quot(n, base), base, large) + [DigitChar(Rem(n, base), large)]
  }

  lemma ZeroDigits(base: nat, large: bool)
    requires 2 <= base <= 36
    ensures Digits(0, base, large) == "0"
  {
  }

  lemma LastDigit(n: nat, base: nat, large: bool)
    requires 2 <= base <= 36 && n > 0
    ensures var ds := Digits(n, base, large);
            && ds[|ds| - 1] == DigitChar(Rem(n, base), large) && Quot(n, base) < n
            && (if Quot(n, base) == 0 then |ds| == 1
                else ds == Digits(Quot(n, base), base, large) + [DigitChar(Rem(n, base), large)])
  {
    hide DigitChar, Quot, Rem;
    DivParts(n, base);
  }

  lemma DigitsShrink(n: nat, base: nat)
    requires 2 <= base <= n
    ensures 0 < Quot(n, base) < n
  {
    DivParts(n, base);
  }

  lemma DivParts(n: nat, base: nat)
    requires base >= 2
    ensures n == (Quot(n, base)) * base + Rem(n, base) && 2 * (Quot(n, base)) <= n &&
            (if n >= base then Quot(n, base) > 0 else Quot(n, base) == 0 && Rem(n, base) == n)
  {
    var q: nat := Quot(n, base);
    assert n == q * base + Rem(n, base);
    assert q * base == q * (base - 2) + 2 * q;
    assert q * (base - 2) >= 0;
  }

  /** The number that a string of digits stands for. */
  function Decode(s: string, base: nat): nat {
    if s == "" then 0 else Decode(s[..|s| - 1], base) * base + DigitValue(s[|s| - 1])
  }

  predicate AllDigits(s: string, base: nat) {
    forall k :: 0 <= k < |s| ==> DigitValue(s[k]) < base
  }

  lemma DecodeMore(s: string, c: char, base: nat)
    ensures Decode(s + [c], base) == Decode(s, base) * base + DigitValue(c)
  {
    assert (s + [c])[..|s|] == s;
  }

  lemma DigitValueOf(d: nat, large: bool)
    requires d < 36
    ensures DigitValue(DigitChar(d, large)) == d
  {
  }

  lemma {:induction false} DigitsDecode(n: nat, base: nat, large: bool)
    requires 2 <= base <= 36
    ensures Decode(Digits(n, base, large), base) == n && AllDigits(Digits(n, base, large), base)
    decreases n
  {
    hide Decode, DigitChar, DigitValue, Quot, Rem;
    DivParts(n, base);
    DigitValueOf(Rem(n, base), large);
    if n < base {
      DecodeMore("", DigitChar(n, large), base);
      DecodeNone(base);
      assert "" + [DigitChar(n, large)] == [DigitChar(n, large)];
    } else {
      DigitsShrink(n, base);
      DigitsDecode(Quot(n, base), base, large);
      DecodeMore(Digits(Quot(n, base), base, large), DigitChar(Rem(n, base), large), base);
    }
  }

  lemma DecodeNone(base: nat)
    ensures Decode("", base) == 0
  {
  }

  /** Leading zeros do not count. */
  lemma {:induction false} DecodeZeros(n: int, s: string, base: nat)
    requires base > 0
    ensures Decode(Repeat('0', n) + s, base) == Decode(s, base)
    decreases |s|, Max(n, 0)
  {
    if s == "" {
      if n > 0 {
        assert Repeat('0', n) + s == Repeat('0', n);
        assert Repeat('0', n)[..|Repeat('0', n)| - 1] == Repeat('0', n - 1);
        assert Repeat('0', n - 1) + "" == Repeat('0', n - 1);
        DecodeZeros(n - 1, "", base);
      }
    } else {
      assert (Repeat('0', n) + s)[..|Repeat('0', n) + s| - 1] == Repeat('0', n) + s[..|s| - 1];
      DecodeZeros(n, s[..|s| - 1], base);
    }
  }

  function Pow2(k: nat): nat { if k == 0 then 1 else 2 * Pow2(k - 1) }

  /** A number below 2^k has at most `k` digits in any base. */
  lemma {:induction false} DigitsFit(n: nat, base: nat, large: bool, k: nat)
    requires 2 <= base <= 36 && n < Pow2(k) && k > 0
    ensures |Digits(n, base, large)| <= k
    decreases k
  {
    if n >= base {
      DigitsShrink(n, base);
      HalfFits(n, base, k);
      DigitsFit(Quot(n, base), base, large, k - 1);
    }
  }

  lemma HalfFits(n: nat, base: nat, k: nat)
    requires 2 <= base && n < Pow2(k) && k > 0
    ensures Quot(n, base) < Pow2(k - 1)
    ensures n >= base ==> k > 1
  {
    hide Quot, Rem;
    DivParts(n, base);
    assert k == 1 ==> Pow2(k) == 2 * Pow2(0);
  }

  lemma {:induction false} PowSum(a: nat, b: nat)
    ensures Pow2(a + b) == Pow2(a) * Pow2(b)
  {
    if a > 0 {
      PowSum(a - 1, b);
      TwiceProduct(Pow2(a - 1), Pow2(b));
    }
  }

  lemma TwiceProduct(x: nat, y: nat)
    ensures 2 * (x * y) == 2 * x * y
  {
  }

  lemma Pow64()
    ensures Pow2(64) == U64
  {
    assert Pow2(8) == 256;
    PowSum(8, 8);
    PowSum(16, 16);
    PowSum(32, 32);
  }

  /** The sign character, and what is printed as the magnitude. */
  function SignText(number: nat, f: Flags): string
    requires number < U64
  {
    if !f.sign then ""
    else if number >= I64 then "-" else if f.plus then "+" else if f.space then " " else ""
  }

  function Magnitude(number: nat, f: Flags): nat
    requires number < U64
  {
    if f.sign && number >= I64 then U64 - number else number
  }

  /** A 64-bit number as a signed one. */
  function Signed(number: nat): int
    requires number < U64
  {
    if number < I64 then number else number - U64
  }

  function Prefix(base: nat, f: Flags): string {
    if !f.special then "" else if base == 8 then "0" else if base == 16 then (if f.large then "0X" else "0x") else ""
  }

  function CharText(c: char): string {
    if c == '\0' then "" else [c]
  }

  /** Sign, prefix, so many zeros and digits, with padding. */
  function Laid(sign: string, prefix: string, digits: string, pad: int, zeros: int, f: Flags): string {
    if f.left then sign + prefix + Repeat('0', zeros) + digits + Repeat(' ', pad)
    else if f.zeropad then sign + prefix + Repeat('0', pad) + Repeat('0', zeros) + digits
    else Repeat(' ', pad) + sign + prefix + Repeat('0', zeros) + digits
  }

  lemma NoFewerZeros(sign: string, prefix: string, digits: string, pad: int, zeros: int, f: Flags)
    ensures Laid(sign, prefix, digits, pad, Max(zeros, 0), f) == Laid(sign, prefix, digits, pad, zeros, f)
  {
    assert Repeat('0', Max(zeros, 0)) == Repeat('0', zeros);
  }

  /** Padding once leaves a field that pads no more: printing with all the loops of the source lays a
      number out. */
  lemma LaidOut(t: string, sign: string, prefix: string, digits: string, pad: int, zeros: int, f: Flags, field1: int,
                field2: int)
    requires field1 == if f.zeropad || f.left then pad else if pad > 0 then -1 else pad - 1
    requires field2 == if f.left then field1 else if field1 > 0 then -1 else field1 - 1
    ensures t + (if (f.zeropad && !f.left) || f.left then "" else Repeat(' ', pad)) + sign + prefix
              + (if f.left then "" else Repeat(if f.zeropad && !f.left then '0' else ' ', field1)) + Repeat('0', zeros)
                  + digits + Repeat(' ', field2)
            == t + Laid(sign, prefix, digits, pad, zeros, f)
  {
    var z, d := Repeat('0', zeros), digits;
    if f.left {
      assert t + "" + sign + prefix + "" + z + d + Repeat(' ', pad) == t + (sign + prefix + z + d + Repeat(' ', pad));
    } else if f.zeropad {
      var p := Repeat('0', pad);
      assert t + "" + sign + prefix + p + z + d + "" == t + (sign + prefix + p + z + d);
    } else {
      var p := Repeat(' ', pad);
      assert t + p + sign + prefix + "" + z + d + "" == t + (p + sign + prefix + z + d);
    }
  }

  /** Sign, prefix and digits with zeros in front, padded to the field: with spaces before, with zeros
      between prefix and digits, or with spaces behind. */
  function NumberText(number: nat, base: nat, field: int, precision: int, f: Flags): string
    requires number < U64 && 2 <= base <= 36
  {
    var sign, prefix, digits := SignText(number, f), Prefix(base, f), Digits(Magnitude(number, f), base, f.large);
    Laid(sign, prefix, digits, field - |sign| - |prefix| - Max(precision, |digits|), precision - |digits|, f)
  }

  /** The length is the larger of the field and what must be printed; magnitudes have up to 64 digits. */
  lemma NumberLength(number: nat, base: nat, field: int, precision: int, f: Flags)
    requires number < U64 && 2 <= base <= 36
    ensures var digits := Digits(Magnitude(number, f), base, f.large);
            && |digits| <= 64
            && |NumberText(number, base, field, precision, f)|
               == Max(field, |SignText(number, f)| + |Prefix(base, f)| + Max(|digits|, precision))
  {
    hide Digits, Pow2;
    Pow64();
    DigitsFit(Magnitude(number, f), base, f.large, 64);
  }

  predicate Spaces(s: string) { forall k :: 0 <= k < |s| ==> s[k] == ' ' }

  lemma ZerosAreDigits(n: int, s: string, base: nat)
    requires base > 0 && AllDigits(s, base)
    ensures AllDigits(Repeat('0', n) + s, base)
  {
  }

  /** The text is made of spaces, sign, prefix, digits and spaces, and the digits decode to the
      magnitude, whatever the field and the precision. */
  lemma NumberDecodes(number: nat, base: nat, field: int, precision: int, f: Flags)
      returns (lead: string, ds: string, trail: string)
    requires number < U64 && 2 <= base <= 36
    ensures NumberText(number, base, field, precision, f) == lead + SignText(number, f) + Prefix(base, f) + ds + trail
    ensures Spaces(lead) && Spaces(trail) && AllDigits(ds, base) && ds != ""
    ensures Decode(ds, base) == Magnitude(number, f)
  {
    hide Digits, Decode, SignText, Prefix, Magnitude, Laid, AllDigits;
    var sign, prefix, digits := SignText(number, f), Prefix(base, f), Digits(Magnitude(number, f), base, f.large);
    var zeros := precision - |digits|;
    var pad := field - |sign| - |prefix| - Max(precision, |digits|);
    DigitsDecode(Magnitude(number, f), base, f.large);
    lead, ds, trail := LaidParts(sign, prefix, digits, pad, zeros, f, base);
  }

  lemma LaidParts(sign: string, prefix: string, digits: string, pad: int, zeros: int, f: Flags, base: nat)
      returns (lead: string, ds: string, trail: string)
    requires AllDigits(digits, base) && base > 0 && digits != ""
    ensures Laid(sign, prefix, digits, pad, zeros, f) == lead + sign + prefix + ds + trail
    ensures Spaces(lead) && Spaces(trail) && AllDigits(ds, base) && ds != ""
    ensures Decode(ds, base) == Decode(digits, base)
  {
    hide Decode, AllDigits, Repeat;
    var z, p := Repeat('0', zeros), Repeat('0', pad);
    DecodeZeros(zeros, digits, base);
    ZerosAreDigits(zeros, digits, base);
    lead, ds, trail := "", z + digits, "";
    if f.left {
      trail := Repeat(' ', pad);
      assert sign + prefix + z + digits + trail == "" + sign + prefix + (z + digits) + trail;
    } else if f.zeropad {
      DecodeZeros(pad, ds, base);
      ZerosAreDigits(pad, ds, base);
      ds := p + ds;
      assert sign + prefix + p + z + digits == "" + sign + prefix + (p + (z + digits)) + "";
    } else {
      lead := Repeat(' ', pad);
      assert lead + sign + prefix + z + digits == lead + sign + prefix + (z + digits) + "";
    }
  }

  /** Sign and magnitude make up the number. */
  lemma SignIsRight(number: nat, f: Flags)
    requires number < U64
    ensures f.sign ==> Signed(number) == if SignText(number, f) == "-" then -(Magnitude(number, f) as int)
            else Magnitude(number, f)
    ensures !f.sign ==> Magnitude(number, f) == number && SignText(number, f) == ""
  {
  }

  /** The digits at the front of what is left of a string. */
  function DigitRun(s: string, i: nat): (j: nat)
    requires i <= |s|
    ensures i <= j <= |s|
    decreases |s| - i
  {
    if i < |s| && '0' <= s[i] <= '9' then DigitRun(s, i + 1) else i
  }

  /** A number as a 32-bit `int`. */
  function Int32(x: int): int {
    var r := x % 0x1_0000_0000;
    if r < 0x8000_0000 then r else r - 0x1_0000_0000
  }

  /** It is the one in range that differs by a multiple of 2^32. */
  lemma Int32Is(x: int, r: int)
    ensures Int32(x) == r <==> -0x8000_0000 <= r < 0x8000_0000 && (x - r) % 0x1_0000_0000 == 0
  {
    var m, q := x % 0x1_0000_0000, x / 0x1_0000_0000;
    assert x == q * 0x1_0000_0000 + m;
    ModShift(m - r, q);
  }

  lemma Int32Step(x: int, d: int)
    ensures Int32(Int32(x) * 10 + d) == Int32(x * 10 + d)
  {
    var r := x % 0x1_0000_0000;
    var q := x / 0x1_0000_0000;
    assert x * 10 + d == q * 10 * 0x1_0000_0000 + (r * 10 + d);
    ModShift(r * 10 + d, q * 10);
    ModShift(r * 10 + d, -10);
    assert (r - 0x1_0000_0000) * 10 + d == (-10) * 0x1_0000_0000 + (r * 10 + d);
  }

  lemma ModShift(x: int, k: int)
    ensures (k * 0x1_0000_0000 + x) % 0x1_0000_0000 == x % 0x1_0000_0000
  {
  }

  /** All of a run of decimal digits is read, and nothing of what follows. */
  lemma {:induction false} RunOf(s: string, i: nat, ds: string)
    requires i + |ds| <= |s| && s[i..i + |ds|] == ds && AllDigits(ds, 10)
    requires i + |ds| < |s| ==> !('0' <= s[i + |ds|] <= '9')
    ensures DigitRun(s, i) == i + |ds|
    decreases |ds|
  {
    if ds != "" {
      assert s[i] == ds[0];
      assert s[i + 1..i + 1 + |ds[1..]|] == ds[1..];
      RunOf(s, i + 1, ds[1..]);
    }
  }

  // What va_arg yields: a 64-bit number, of which narrower types take the low bits, or a string, which
  // is `low` if the pointer lies in the first page.
  datatype Arg = Arg(num: nat, text: string, low: bool)
  type Args = nat -> Arg
  // a directive: flags, field, precision, qualifier, the position of the conversion character, and
  // the number of arguments used so far
  datatype Directive = Directive(f: Flags, field: int, precision: int, qualifier: char, i: nat, k: nat)

  function At(s: string, i: nat): char {
    if i < |s| then s[i] else '\0'
  }

  predicate IsDigit(c: char) { '0' <= c <= '9' }

  function FlagOf(f: Flags, c: char): Flags {
    match c
    case '-' => f.(left := true)
    case '+' => f.(plus := true)
    case ' ' => f.(space := true)
    case '#' => f.(special := true)
    case '0' => f.(zeropad := true)
    case _ => f
  }

  predicate IsFlag(c: char) { c in "-+ #0" }

  /** The flags up to `j` are those that stand there, in whatever order and however often. */
  lemma FlagsRead(s: string, i: nat, j: nat)
    requires i <= j <= |s| && (forall k :: i <= k < j ==> s[k] in "-+ #0") && (j < |s| ==> s[j] !in "-+ #0")
    ensures var run := s[i..j];
            ParseFlags(s, i, NOFLAGS) == Directive(Flags('0' in run, false, '+' in run, ' ' in run, '-' in run,
                                                         '#' in run, false), -1, -1, '\0', j, 0)
  {
    FlagsAdded(s, i, j, NOFLAGS);
  }

  /** The flags that stand in a run, and those there were. */
  function FlagsIn(f: Flags, run: string): Flags {
    Flags(f.zeropad || '0' in run, f.sign, f.plus || '+' in run, f.space || ' ' in run, f.left || '-' in run,
          f.special || '#' in run, f.large)
  }

  lemma OneFlag(f: Flags, c: char, run: string)
    requires c in "-+ #0"
    ensures FlagsIn(f, [c] + run) == FlagsIn(FlagOf(f, c), run)
  {
    var all := [c] + run;
    assert forall x :: x in all <==> x == c || x in run;
    assert c == '-' || c == '+' || c == ' ' || c == '#' || c == '0';
  }

  lemma {:induction false} FlagsAdded(s: string, i: nat, j: nat, f: Flags)
    requires i <= j <= |s| && (forall k :: i <= k < j ==> s[k] in "-+ #0") && (j < |s| ==> s[j] !in "-+ #0")
    ensures ParseFlags(s, i, f) == Directive(FlagsIn(f, s[i..j]), -1, -1, '\0', j, 0)
    decreases j - i
  {
    hide FlagOf, FlagsIn;
    if i < j {
      assert s[i..j] == [s[i]] + s[i + 1..j];
      OneFlag(f, s[i], s[i + 1..j]);
      FlagsAdded(s, i + 1, j, FlagOf(f, s[i]));
    } else {
      NoFlags(f);
      assert s[i..j] == "";
    }
  }

  lemma NoFlags(f: Flags)
    ensures FlagsIn(f, "") == f
  {
  }

  function ParseFlags(s: string, i: nat, f: Flags): Directive
    requires i <= |s|
    decreases |s| - i
  {
    if i < |s| && IsFlag(s[i]) then ParseFlags(s, i + 1, FlagOf(f, s[i])) else Directive(f, -1, -1, '\0', i, 0)
  }

  /** `vsnprintf_atoi` in value: the run of digits from `i` on. */
  function Atoi(s: string, i: nat): int
    requires i <= |s|
  {
    Int32(Decode(s[i..DigitRun(s, i)], 10))
  }

  function ParseField(s: string, args: Args, d: Directive): Directive
    requires d.i <= |s|
  {
    if IsDigit(At(s, d.i)) then d.(field := Atoi(s, d.i), i := DigitRun(s, d.i))
    else if At(s, d.i) == '*' then
      var v := Int32(args(d.k).num);
      if v < 0 then d.(field := -v, f := d.f.(left := true), i := d.i + 1, k := d.k + 1)
      else d.(field := v, i := d.i + 1, k := d.k + 1)
    else d
  }

  function ParsePrecision(s: string, args: Args, d: Directive): Directive
    requires d.i <= |s|
  {
    if At(s, d.i) != '.' then d
    else if IsDigit(At(s, d.i + 1)) then d.(precision := Max(Atoi(s, d.i + 1), 0), i := DigitRun(s, d.i + 1))
    else if At(s, d.i + 1) == '*' then d.(precision := Max(Int32(args(d.k).num), 0), i := d.i + 2, k := d.k + 1)
    else d.(precision := 0, i := d.i + 1)
  }

  function ParseQualifier(s: string, d: Directive): Directive {
    var c := At(s, d.i);
    if c == 'l' && At(s, d.i + 1) == 'l' then d.(qualifier := 'L', i := d.i + 2)
    else if c in "hlLZz" then d.(qualifier := c, i := d.i + 1)
    else d
  }

  const NOFLAGS: Flags := Flags(false, false, false, false, false, false, false)

  /** The directive behind the percent sign before `i`. */
  function Parse(s: string, i: nat, args: Args, k: nat): (d: Directive)
    requires i <= |s|
    ensures i <= d.i <= |s|
  {
    FlagsEnd(s, i, NOFLAGS);
    ParseQualifier(s, ParsePrecision(s, args, ParseField(s, args, ParseFlags(s, i, NOFLAGS).(k := k))))
  }

  lemma {:induction false} FlagsEnd(s: string, i: nat, f: Flags)
    requires i <= |s|
    ensures i <= ParseFlags(s, i, f).i <= |s|
    decreases |s| - i
  {
    if i < |s| && IsFlag(s[i]) {
      FlagsEnd(s, i + 1, FlagOf(f, s[i]));
    }
  }

  /** The number a conversion takes, by qualifier, as 64 bits. */
  function NumberOf(num: nat, qualifier: char, sign: bool): (n: nat)
    ensures n < U64
  {
    if qualifier == 'L' then num % U64
    else if qualifier == 'h' then Extend(num % 0x1_0000, 0x1_0000, sign)
    else if qualifier == 'Z' || qualifier == 'z' then num % 0x1_0000_0000
    else Extend(num % 0x1_0000_0000, 0x1_0000_0000, sign)
  }

  /** Sign extension to 64 bits of a number below `width`. */
  function Extend(x: nat, width: nat, sign: bool): (n: nat)
    requires x < width <= 0x1_0000_0000
    ensures n < U64
  {
    if sign && x >= width / 2 then U64 - width + x else x
  }

  function Text(arg: Arg): string {
    if arg.low then "(NULL)" else arg.text
  }

  /** As much of a string as the precision allows. */
  function Cut(s: string, precision: int): string {
    if 0 <= precision < |s| then s[..precision] else s
  }

  /** Nothing is cut without a precision. */
  lemma CutIs(s: string, precision: int)
    ensures Cut(s, precision) <= s
    ensures |Cut(s, precision)| == if precision < 0 || precision > |s| then |s| else precision
  {
  }

  function Justify(s: string, field: int, left: bool): string {
    if left then s + Repeat(' ', field - |s|) else Repeat(' ', field - |s|) + s
  }

  predicate IsNumeric(c: char) { c in "oXxdiu" }

  function BaseOf(c: char): nat { if c == 'o' then 8 else if c == 'x' || c == 'X' then 16 else 10 }

  /** What a directive prints, but for one that the end of the format cuts off. */
  function Convert(d: Directive, c: char, arg: Arg): Option<string> {
    if c == 'c' then Some(Justify([(arg.num % 256) as char], d.field, d.f.left))
    else if c == 's' then Some(Justify(Cut(Text(arg), d.precision), d.field, d.f.left))
    else if c == 'p' then
      var f := if d.field == -1 then d.f.(zeropad := true) else d.f;
      Some(NumberText(arg.num % 0x1_0000_0000, 16, if d.field == -1 then 8 else d.field, d.precision, f))
    else if c == 'n' then Some("")
    else if c == '\0' then None
    else if c == '%' then Some("%")
    else if IsNumeric(c) then
      var f := d.f.(large := c == 'X', sign := c == 'd' || c == 'i');
      Some(NumberText(NumberOf(arg.num, d.qualifier, f.sign), BaseOf(c), d.field, d.precision, f))
    else Some(['%', c])
  }

  predicate TakesArg(c: char) { c == 'c' || c == 's' || c == 'p' || c == 'n' || IsNumeric(c) }

  // what `%n` stores: through which argument, as an int, a long or a size_t, and the length so far
  datatype Tally = Tally(arg: nat, qualifier: char, n: nat)

  /** What the `%n` of a format store, when `n` characters are printed before it. */
  function Tallies(s: string, i: nat, args: Args, k: nat, n: nat): seq<Tally>
    requires i <= |s|
    decreases |s| - i
  {
    if i == |s| then []
    else if s[i] != '%' then Tallies(s, i + 1, args, k, n + 1)
    else
      var d := Parse(s, i + 1, args, k);
      var c := At(s, d.i);
      match Convert(d, c, args(d.k))
      case None => []
      case Some(t) => if d.i == |s| then []
          else TallyOf(d, c, n) + Tallies(s, d.i + 1, args, if TakesArg(c) then d.k + 1 else d.k, n + |t|)
  }

  function TallyOf(d: Directive, c: char, n: nat): seq<Tally> {
    if c == 'n' then [Tally(d.k, d.qualifier, n)] else []
  }

  /** All that a format prints. */
  function Format(s: string, i: nat, args: Args, k: nat): Option<string>
    requires i <= |s|
    decreases |s| - i
  {
    if i == |s| then Some("")
    else if s[i] != '%' then Prepend([s[i]], Format(s, i + 1, args, k))
    else
      var d := Parse(s, i + 1, args, k);
      var c := At(s, d.i);
      match Convert(d, c, args(d.k))
      case None => None
      case Some(t) => if d.i == |s| then None
          else Prepend(t, Format(s, d.i + 1, args, if TakesArg(c) then d.k + 1 else d.k))
  }

  function Prepend(t: string, rest: Option<string>): Option<string> {
    if rest.None? then None else Some(t + rest.value)
  }

  /** Plain decimal output up to INT_MAX is read back, wherever it stands. */
  lemma ReadBack(pre: string, n: nat, post: string, f: Flags)
    requires n <= 0x7FFF_FFFF && (post != "" ==> !IsDigit(post[0])) && f == NOFLAGS
    ensures NumberText(n, 10, -1, -1, f) == Digits(n, 10, false)
    ensures var s := pre + NumberText(n, 10, -1, -1, f) + post;
            Atoi(s, |pre|) == n && DigitRun(s, |pre|) == |pre| + |NumberText(n, 10, -1, -1, f)|
  {
    hide Digits, Decode, DigitRun;
    var ds := Digits(n, 10, false);
    assert "" + "" + Repeat('0', -1 - |ds|) + ds == ds;
    assert Repeat(' ', -1 - |ds|) + "" + "" + Repeat('0', -1 - |ds|) + ds == ds;
    DigitsDecode(n, 10, false);
    var s := pre + ds + post;
    assert s[|pre|..|pre| + |ds|] == ds;
    RunOf(s, |pre|, ds);
  }

  lemma Justified(t: string, s: string, field: int, left: bool, behind: int)
    requires behind == if left then field - |s| else if field - |s| > 0 then -1 else field - |s| - 1
    ensures t + (if left then "" else Repeat(' ', field - |s|)) + s + Repeat(' ', behind) == t + Justify(s, field, left)
  {
    if left {
      assert t + "" + s + Repeat(' ', field - |s|) == t + (s + Repeat(' ', field - |s|));
    } else {
      assert t + Repeat(' ', field - |s|) + s + "" == t + (Repeat(' ', field - |s|) + s);
    }
  }

  /** The buffer after printing `t`: as much as fits, and a terminator. */
  ghost predicate Printed(str: string, size: nat, t: string) {
    var m := if |t| < size then |t| else size;
    && (forall k :: 0 <= k < m && k < |str| ==> str[k] == t[k])
    && (size > 0 ==> m < |str| && str[m] == '\0')
  }

  /** One step of printing: a character, or a directive. */
  lemma FormatStep(s: string, i: nat, args: Args, k: nat, t: string)
    requires i < |s| && Prepend(t, Format(s, i, args, k)).Some?
    ensures if s[i] != '%' then Prepend(t, Format(s, i, args, k)) == Prepend(t + [s[i]], Format(s, i + 1, args, k))
            else
              var d := Parse(s, i + 1, args, k);
              var c := At(s, d.i);
              && Convert(d, c, args(d.k)).Some? && d.i < |s|
              && Prepend(t, Format(s, i, args, k))
                 == Prepend(t + Convert(d, c, args(d.k)).value,
                            Format(s, d.i + 1, args, if TakesArg(c) then d.k + 1 else d.k))
  {
    hide Parse, Convert, At, TakesArg;
    if s[i] != '%' {
      PrependTwice(t, [s[i]], Format(s, i + 1, args, k));
    } else {
      var d := Parse(s, i + 1, args, k);
      var c := At(s, d.i);
      PrependTwice(t, Convert(d, c, args(d.k)).value, Format(s, d.i + 1, args, if TakesArg(c) then d.k + 1 else d.k));
    }
  }

  lemma TalliesStep(s: string, i: nat, args: Args, k: nat, n: nat, done: seq<Tally>)
    requires i < |s| && Format(s, i, args, k).Some?
    ensures if s[i] != '%' then done + Tallies(s, i, args, k, n) == done + Tallies(s, i + 1, args, k, n + 1)
            else
              var d := Parse(s, i + 1, args, k);
              var c := At(s, d.i);
              && Convert(d, c, args(d.k)).Some? && d.i < |s|
              && done + Tallies(s, i, args, k, n)
                 == done + TallyOf(d, c, n)
                    + Tallies(s, d.i + 1, args, if TakesArg(c) then d.k + 1 else d.k,
                        n + |Convert(d, c, args(d.k)).value|)
  {
    hide Parse, Convert, At, TakesArg, TallyOf;
  }

  lemma PrependTwice(a: string, b: string, rest: Option<string>)
    ensures Prepend(a, Prepend(b, rest)) == Prepend(a + b, rest)
  {
    if rest.Some? {
      assert a + (b + rest.value) == a + b + rest.value;
    }
  }

  lemma PrependNothing(t: Option<string>)
    ensures Prepend("", t) == t
  {
    if t.Some? {
      assert "" + t.value == t.value;
    }
  }

  lemma PrependEnd(t: string)
    ensures Prepend(t, Some("")) == Some(t)
  {
    assert t + "" == t;
  }

  lemma FormatEnd(s: string, args: Args, k: nat, n: nat)
    ensures Format(s, |s|, args, k) == Some("") && Tallies(s, |s|, args, k, n) == []
  {
  }
}
