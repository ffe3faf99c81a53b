/** The printf engine of `kernel/utils/stdio.c` against section 7.19.6.1 of ISO C99. */
module PrintfC99 {
  import opened Wrappers
  import opened PrintfSpec

  /** The digits of an integer: at least as many as the precision says, none for 0 with precision 0;
      with the flag `#` an octal number starts with a zero.  The precision is negative if there is
      none. */
  function C99Digits(m: nat, base: nat, precision: int, f: Flags): string
    requires 2 <= base <= 36
  {
    var ds := if m == 0 && precision == 0 then "" else Digits(m, base, f.large);
    var body := Repeat('0', precision - |ds|) + ds;
    if f.special && base == 8 && (body == "" || body[0] != '0') then "0" + body else body
  }

  /** With the flag `#` a hexadecimal number other than 0 has a prefix. */
  function C99Prefix(m: nat, base: nat, f: Flags): string {
    if f.special && base == 16 && m != 0 then (if f.large then "0X" else "0x") else ""
  }

  /** The conversions d, i, o, u, x and X of the standard.  The flag `0` is ignored if there is a
      precision.  (With `#` the standard leaves decimal conversions open.) */
  function C99Text(number: nat, base: nat, field: int, precision: int, f: Flags): string
    requires number < U64 && 2 <= base <= 36
  {
    var m := Magnitude(number, f);
    var sign, prefix, body := SignText(number, f), C99Prefix(m, base, f), C99Digits(m, base, precision, f);
    var pad := field - |sign| - |prefix| - |body|;
    if f.left then sign + prefix + body + Repeat(' ', pad)
    else if f.zeropad && precision < 0 then sign + prefix + Repeat('0', pad) + body
    else Repeat(' ', pad) + sign + prefix + body
  }

  /** When the code prints what the standard asks for.  It does not: for 0 with precision 0; for 0 with
      `#`, but for an octal one that is padded with zeros anyway; for an octal number with `#` and a
      precision beyond its digits; and where it pads with zeros in spite of a precision. */
  predicate AsC99(number: nat, base: nat, field: int, precision: int, f: Flags)
    requires number < U64 && 2 <= base <= 36
  {
    var m := Magnitude(number, f);
    var n := |Digits(m, base, f.large)|;
    if m == 0 && (precision == 0 || (f.special && base == 16)) then false
    else if m == 0 && f.special && base == 8 then f.zeropad && !f.left && precision < 0 && field >= 2
    else if f.special && base == 8 && precision > n then false
    else !(f.zeropad && !f.left && precision >= 0 &&
           field > |SignText(number, f)| + |Prefix(base, f)| + Max(precision, n))
  }

  // --- counting characters

  function Count(s: string, c: char): nat {
    if s == "" then 0 else Count(s[1..], c) + if s[0] == c then 1 else 0
  }

  lemma {:induction false} CountAppend(a: string, b: string, c: char)
    ensures Count(a + b, c) == Count(a, c) + Count(b, c)
  {
    if a == "" {
      assert a + b == b;
    } else {
      assert (a + b)[1..] == a[1..] + b;
      CountAppend(a[1..], b, c);
    }
  }

  lemma {:induction false} CountNone(s: string, c: char)
    requires c !in s
    ensures Count(s, c) == 0
  {
    if s != "" {
      CountNone(s[1..], c);
    }
  }

  lemma {:induction false} CountRepeat(d: char, n: int, c: char)
    ensures Count(Repeat(d, n), c) == if d == c then Max(n, 0) else 0
  {
    if n > 0 {
      CountRepeat(d, n - 1, c);
      CountAppend(Repeat(d, n - 1), [d], c);
      assert [d][1..] == "";
    }
  }

  /** The digits of a number: no spaces and no prefix letters, and no zero in front but of 0 itself. */
  lemma {:induction false} DigitsAre(n: nat, base: nat, large: bool)
    requires 2 <= base <= 16
    ensures var ds := Digits(n, base, large);
            && Count(ds, ' ') == 0 && Count(ds, 'x') == 0 && Count(ds, 'X') == 0 && Count(ds, '-') == 0
            && (if n == 0 then ds == "0" else ds[0] != '0')
    decreases n
  {
    hide Quot, Rem;
    DivParts(n, base);
    var c := DigitChar(Rem(n, base), large);
    CountNone([c], ' ');
    CountNone([c], 'x');
    CountNone([c], 'X');
    CountNone([c], '-');
    if n >= base {
      DigitsShrink(n, base);
      DigitsAre(Quot(n, base), base, large);
      CountAppend(Digits(Quot(n, base), base, large), [c], ' ');
      CountAppend(Digits(Quot(n, base), base, large), [c], 'x');
      CountAppend(Digits(Quot(n, base), base, large), [c], 'X');
      CountAppend(Digits(Quot(n, base), base, large), [c], '-');
    }
  }

  /** What pads in front of the digits, or else around. */
  function PadChar(f: Flags): char {
    if f.zeropad && !f.left then '0' else ' '
  }

  lemma LaidCount(sign: string, prefix: string, digits: string, pad: int, zeros: int, f: Flags, c: char)
    ensures Count(Laid(sign, prefix, digits, pad, zeros, f), c)
            == Count(sign, c) + Count(prefix, c) + Count(digits, c) + (if c == '0' then Max(zeros, 0) else 0)
               + if c == PadChar(f) then Max(pad, 0) else 0
  {
    hide Count, Repeat;
    var z, p := Repeat('0', zeros), Repeat(PadChar(f), pad);
    CountRepeat('0', zeros, c);
    CountRepeat(PadChar(f), pad, c);
    if f.left {
      CountFour(sign, prefix, z, digits, c);
      CountAppend(sign + prefix + z + digits, p, c);
    } else if f.zeropad {
      CountFour(sign, prefix, p, z, c);
      CountAppend(sign + prefix + p + z, digits, c);
    } else {
      CountFour(p, sign, prefix, z, c);
      CountAppend(p + sign + prefix + z, digits, c);
    }
  }

  lemma CountFour(a: string, b: string, d: string, e: string, c: char)
    ensures Count(a + b + d + e, c) == Count(a, c) + Count(b, c) + Count(d, c) + Count(e, c)
  {
    CountAppend(a, b, c);
    CountAppend(a + b, d, c);
    CountAppend(a + b + d, e, c);
  }

  /** The text of the standard is laid out like that of the code, with other parts. */
  lemma C99IsLaid(number: nat, base: nat, field: int, precision: int, f: Flags)
    requires number < U64 && 2 <= base <= 36
    ensures var m := Magnitude(number, f);
            var sign, prefix, body := SignText(number, f), C99Prefix(m, base, f), C99Digits(m, base, precision, f);
            C99Text(number, base, field, precision, f)
            == Laid(sign, prefix, body, field - |sign| - |prefix| - |body|, 0,
                    f.(zeropad := f.zeropad && precision < 0))
  {
    hide C99Digits, C99Prefix, Digits;
    var m := Magnitude(number, f);
    var sign, prefix, body := SignText(number, f), C99Prefix(m, base, f), C99Digits(m, base, precision, f);
    var pad := field - |sign| - |prefix| - |body|;
    assert Repeat('0', 0) == "";
    assert sign + prefix + "" == sign + prefix;
    assert Repeat(' ', pad) + sign + prefix + "" == Repeat(' ', pad) + sign + prefix;
    assert sign + prefix + Repeat('0', pad) + "" == sign + prefix + Repeat('0', pad);
  }

  /** The digits of the standard: none, those of the number behind zeros, or these behind a zero. */
  lemma C99DigitsAre(m: nat, base: nat, precision: int, f: Flags)
    requires base == 8 || base == 10 || base == 16
    ensures var ds, n := Digits(m, base, f.large), |Digits(m, base, f.large)|;
            C99Digits(m, base, precision, f) ==
              if m == 0 && precision == 0 then (if f.special && base == 8 then "0" else "")
              else if f.special && base == 8 && precision <= n && m != 0 then "0" + ds
              else Repeat('0', precision - n) + ds
  {
    DigitsAre(m, base, f.large);
    var ds := Digits(m, base, f.large);
    hide Digits;
    if m == 0 && precision == 0 {
      assert Repeat('0', 0) + "" == "";
      assert "0" + "" == "0";
    } else if precision <= |ds| {
      assert Repeat('0', precision - |ds|) + ds == ds;
    } else {
      assert (Repeat('0', precision - |ds|) + ds)[0] == '0';
    }
  }

  lemma MoveZeros(sign: string, prefix: string, ds: string, pad: int, zeros: int, f: Flags)
    ensures Laid(sign, prefix, Repeat('0', zeros) + ds, pad, 0, f) == Laid(sign, prefix, ds, pad, zeros, f)
  {
    var z, p := Repeat('0', zeros), Repeat(PadChar(f), pad);
    assert Repeat('0', 0) == "";
    if f.left {
      assert sign + prefix + "" + (z + ds) + p == sign + prefix + z + ds + p;
    } else if f.zeropad {
      assert sign + prefix + p + "" + (z + ds) == sign + prefix + p + z + ds;
    } else {
      assert p + sign + prefix + "" + (z + ds) == p + sign + prefix + z + ds;
    }
  }

  lemma MovePrefix(ds: string, pad: int, zeros: int, f: Flags)
    requires zeros <= 0
    ensures Laid("", "", "0" + ds, pad, 0, f) == Laid("", "0", ds, pad, zeros, f)
  {
    var p := Repeat(PadChar(f), pad);
    assert Repeat('0', 0) == "" && Repeat('0', zeros) == "";
    if f.left {
      assert "" + "" + "" + ("0" + ds) + p == "" + "0" + "" + ds + p;
    } else if f.zeropad {
      assert p + "0" == "0" + p;
      assert "" + "" + p + "" + ("0" + ds) == (p + "0") + ds;
      assert "" + "0" + p + "" + ds == ("0" + p) + ds;
    } else {
      assert p + "" + "" + "" + ("0" + ds) == p + "" + "0" + "" + ds;
    }
  }

  /** Without padding it does not matter what one would pad with. */
  lemma NothingPadded(sign: string, prefix: string, ds: string, pad: int, zeros: int, f: Flags, zeropad: bool)
    requires pad <= 0 || f.left
    ensures Laid(sign, prefix, ds, pad, zeros, f.(zeropad := zeropad)) == Laid(sign, prefix, ds, pad, zeros, f)
  {
    assert pad <= 0 ==> Repeat('0', pad) == "" && Repeat(' ', pad) == "";
    var z := Repeat('0', zeros);
    assert pad <= 0 && !f.left ==> "" + sign + prefix + z + ds == sign + prefix + "" + z + ds;
  }

  /** Nothing but zeros, as many as the field is wide. */
  lemma ZerosOnly(field: int, zeros: int, f: Flags)
    requires f.zeropad && !f.left && field >= 2 && zeros <= 0
    ensures Laid("", "", "0", field - 1, 0, f) == Laid("", "0", "0", field - 2, zeros, f)
  {
    assert Repeat('0', 0) == "" && Repeat('0', zeros) == "";
    var a, b := Repeat('0', field - 1), Repeat('0', field - 2);
    assert "" + "" + a + "" + "0" == a + "0";
    assert "" + "0" + b + "" + "0" == "0" + b + "0";
    assert a + "0" == "0" + b + "0";
  }

  lemma C99Agrees(number: nat, base: nat, field: int, precision: int, f: Flags)
    requires number < U64 && (base == 8 || base == 10 || base == 16) && (f.sign ==> base == 10)
    requires AsC99(number, base, field, precision, f)
    ensures NumberText(number, base, field, precision, f) == C99Text(number, base, field, precision, f)
  {
    hide NumberText, C99Text;
    if f.special && base == 8 && number == 0 {
      OctalZeroAgrees(field, precision, f);
    } else if f.special && base == 8 {
      OctalAgrees(number, field, precision, f);
    } else {
      OthersAgree(number, base, field, precision, f);
    }
  }

  lemma OctalZeroAgrees(field: int, precision: int, f: Flags)
    requires f.special && !f.sign && f.zeropad && !f.left && precision < 0 && field >= 2
    ensures NumberText(0, 8, field, precision, f) == C99Text(0, 8, field, precision, f)
  {
    hide C99Digits, Laid, Repeat;
    C99IsLaid(0, 8, field, precision, f);
    C99DigitsAre(0, 8, precision, f);
    DigitsAre(0, 8, f.large);
    RepeatNone(precision - 1);
    ZerosOnly(field, precision - 1, f);
    assert f.(zeropad := true) == f;
  }

  lemma OctalAgrees(number: nat, field: int, precision: int, f: Flags)
    requires 0 < number < U64 && f.special && !f.sign && AsC99(number, 8, field, precision, f)
    ensures NumberText(number, 8, field, precision, f) == C99Text(number, 8, field, precision, f)
  {
    hide Digits, C99Digits, Laid, Repeat;
    var ds, n := Digits(number, 8, f.large), |Digits(number, 8, f.large)|;
    C99IsLaid(number, 8, field, precision, f);
    C99DigitsAre(number, 8, precision, f);
    MovePrefix(ds, field - 1 - n, precision - n, f.(zeropad := f.zeropad && precision < 0));
    SamePad("", "0", ds, field - 1 - n, precision, f, precision - n);
  }

  lemma OthersAgree(number: nat, base: nat, field: int, precision: int, f: Flags)
    requires number < U64 && (base == 8 || base == 10 || base == 16) && (f.sign ==> base == 10)
    requires AsC99(number, base, field, precision, f) && !(f.special && base == 8)
    ensures NumberText(number, base, field, precision, f) == C99Text(number, base, field, precision, f)
  {
    hide Digits, C99Digits, Laid, Repeat;
    var m := Magnitude(number, f);
    var ds, n := Digits(m, base, f.large), |Digits(m, base, f.large)|;
    var sign, prefix := SignText(number, f), Prefix(base, f);
    C99IsLaid(number, base, field, precision, f);
    C99DigitsAre(m, base, precision, f);
    RepeatLength(precision - n);
    var pad := field - |sign| - |prefix| - Max(precision, n);
    MoveZeros(sign, prefix, ds, pad, precision - n, f.(zeropad := f.zeropad && precision < 0));
    SamePad(sign, prefix, ds, pad, precision, f, precision - n);
  }

  lemma RepeatLength(n: int)
    ensures |Repeat('0', n)| == Max(n, 0)
  {
  }

  lemma RepeatNone(n: int)
    requires n <= 0
    ensures Repeat('0', n) == "" && Repeat('0', n) + "0" == "0"
  {
  }

  lemma SamePad(sign: string, prefix: string, ds: string, pad: int, precision: int, f: Flags, zeros: int)
    requires !(f.zeropad && !f.left && precision >= 0 && pad > 0)
    ensures Laid(sign, prefix, ds, pad, zeros, f.(zeropad := f.zeropad && precision < 0))
            == Laid(sign, prefix, ds, pad, zeros, f)
  {
    if f.zeropad && precision >= 0 {
      NothingPadded(sign, prefix, ds, pad, zeros, f, false);
    }
  }

  /** How often a character occurs in what the code prints, and in what the standard asks for. */
  lemma CodeCount(number: nat, base: nat, field: int, precision: int, f: Flags, c: char)
    requires number < U64 && 2 <= base <= 36
    ensures var ds := Digits(Magnitude(number, f), base, f.large);
            var sign, prefix := SignText(number, f), Prefix(base, f);
            Count(NumberText(number, base, field, precision, f), c)
            == Count(sign, c) + Count(prefix, c) + Count(ds, c) + (if c == '0' then Max(precision - |ds|, 0) else 0)
               + if c == PadChar(f) then Max(field - |sign| - |prefix| - Max(precision, |ds|), 0) else 0
  {
    hide Count, Digits;
    var ds := Digits(Magnitude(number, f), base, f.large);
    var sign, prefix := SignText(number, f), Prefix(base, f);
    LaidCount(sign, prefix, ds, field - |sign| - |prefix| - Max(precision, |ds|), precision - |ds|, f, c);
  }

  lemma C99Count(number: nat, base: nat, field: int, precision: int, f: Flags, c: char)
    requires number < U64 && 2 <= base <= 36
    ensures var m := Magnitude(number, f);
            var sign, prefix, body := SignText(number, f), C99Prefix(m, base, f), C99Digits(m, base, precision, f);
            Count(C99Text(number, base, field, precision, f), c)
            == Count(sign, c) + Count(prefix, c) + Count(body, c)
               + if c != PadChar(f.(zeropad := f.zeropad && precision < 0)) then 0
                 else Max(field - |sign| - |prefix| - |body|, 0)
  {
    hide Count, C99Digits, C99Prefix, C99Text;
    var m := Magnitude(number, f);
    var sign, prefix, body := SignText(number, f), C99Prefix(m, base, f), C99Digits(m, base, precision, f);
    C99IsLaid(number, base, field, precision, f);
    LaidCount(sign, prefix, body, field - |sign| - |prefix| - |body|, 0, f.(zeropad := f.zeropad && precision < 0), c);
  }

  lemma BodyCount(m: nat, base: nat, precision: int, f: Flags, c: char)
    requires base == 8 || base == 10 || base == 16
    ensures var ds, n := Digits(m, base, f.large), |Digits(m, base, f.large)|;
            Count(C99Digits(m, base, precision, f), c) ==
              if m == 0 && precision == 0 then (if f.special && base == 8 && c == '0' then 1 else 0)
              else if f.special && base == 8 && precision <= n && m != 0 then Count(ds, c) + if c == '0' then 1 else 0
              else Count(ds, c) + if c == '0' then Max(precision - n, 0) else 0
  {
    var ds, n := Digits(m, base, f.large), |Digits(m, base, f.large)|;
    C99DigitsAre(m, base, precision, f);
    CountOne('0', c);
    hide Count, Digits, C99Digits;
    CountAppend("0", ds, c);
    CountRepeat('0', precision - n, c);
    CountAppend(Repeat('0', precision - n), ds, c);
    CountNone("", c);
  }

  lemma CountOne(d: char, c: char)
    ensures Count([d], c) == if d == c then 1 else 0
  {
    assert [d][1..] == "";
  }

  /** A sign has no zero in it, a prefix one, and the prefix of a hexadecimal number a letter. */
  lemma SignCounts(number: nat, base: nat, f: Flags)
    requires number < U64 && (base == 8 || base == 10 || base == 16)
    ensures Count(SignText(number, f), '0') == 0 && Count(SignText(number, f), 'x') == 0 &&
            Count(SignText(number, f), 'X') == 0
    ensures Count(Prefix(base, f), ' ') == 0 && Count(Prefix(base, f), '0') == if f.special && base != 10 then 1 else 0
    ensures f.special && base == 16 ==> Count(Prefix(base, f), if f.large then 'X' else 'x') == 1
  {
    CountNone(SignText(number, f), '0');
    CountNone(SignText(number, f), 'x');
    CountNone(SignText(number, f), 'X');
    CountNone(Prefix(base, f), ' ');
    assert "0x"[1..] == "x" && "x"[1..] == "" && "0X"[1..] == "X" && "X"[1..] == "" && "0"[1..] == "";
  }

  lemma C99Differs(number: nat, base: nat, field: int, precision: int, f: Flags)
    requires number < U64 && (base == 8 || base == 10 || base == 16) && (f.sign ==> base == 10)
    requires !AsC99(number, base, field, precision, f)
    ensures NumberText(number, base, field, precision, f) != C99Text(number, base, field, precision, f)
  {
    hide NumberText, C99Text;
    var m := Magnitude(number, f);
    if f.special && base == 16 && m == 0 {
      LettersDiffer(number, field, precision, f);
    } else if m == 0 && precision == 0 {
      NoDigitsDiffer(number, base, field, f);
    } else if f.special && base == 8 && (m == 0 || precision > |Digits(m, base, f.large)|) {
      OctalsDiffer(number, field, precision, f);
    } else {
      SpacesDiffer(number, base, field, precision, f);
    }
  }

  /** The prefix of a hexadecimal 0. */
  lemma LettersDiffer(number: nat, field: int, precision: int, f: Flags)
    requires number < U64 && f.special && Magnitude(number, f) == 0 && !f.sign
    ensures NumberText(number, 16, field, precision, f) != C99Text(number, 16, field, precision, f)
  {
    var c := if f.large then 'X' else 'x';
    DigitsAre(0, 16, f.large);
    SignCounts(number, 16, f);
    CountNone("", c);
    hide Count, Digits, C99Digits, NumberText, C99Text;
    CodeCount(number, 16, field, precision, f, c);
    C99Count(number, 16, field, precision, f, c);
    BodyCount(0, 16, precision, f, c);
  }

  /** The digit of 0 with precision 0. */
  lemma NoDigitsDiffer(number: nat, base: nat, field: int, f: Flags)
    requires number < U64 && (base == 8 || base == 10 || base == 16) && (f.sign ==> base == 10)
    requires Magnitude(number, f) == 0 && !(f.special && base == 16)
    ensures NumberText(number, base, field, 0, f) != C99Text(number, base, field, 0, f)
  {
    DigitsAre(0, base, f.large);
    SignCounts(number, base, f);
    CountOne('0', '0');
    CountNone("", '0');
    hide Count, Digits, C99Digits, NumberText, C99Text;
    CodeCount(number, base, field, 0, f, '0');
    C99Count(number, base, field, 0, f, '0');
    BodyCount(0, base, 0, f, '0');
  }

  /** The prefix of an octal number that starts with a zero anyway. */
  lemma OctalsDiffer(number: nat, field: int, precision: int, f: Flags)
    requires number < U64 && f.special && !f.sign && !AsC99(number, 8, field, precision, f)
    requires number == 0 || precision > |Digits(number, 8, f.large)|
    requires number == 0 ==> precision != 0
    ensures NumberText(number, 8, field, precision, f) != C99Text(number, 8, field, precision, f)
  {
    hide NumberText, C99Text;
    if number == 0 {
      OctalZeroDiffers(field, precision, f);
    } else {
      OctalMoreDiffers(number, field, precision, f);
    }
  }

  lemma OctalZeroDiffers(field: int, precision: int, f: Flags)
    requires f.special && !f.sign && precision != 0 && !(f.zeropad && !f.left && precision < 0 && field >= 2)
    ensures NumberText(0, 8, field, precision, f) != C99Text(0, 8, field, precision, f)
  {
    var body := C99Digits(0, 8, precision, f);
    OctalZeroParts(precision, f);
    OctalZeroCounts(field, precision, f, |body|);
  }

  lemma OctalZeroParts(precision: int, f: Flags)
    requires f.special && !f.sign && precision != 0
    ensures Digits(0, 8, f.large) == "0" && SignText(0, f) == "" && Prefix(8, f) == "0" && C99Prefix(0, 8, f) == ""
    ensures |C99Digits(0, 8, precision, f)| == Max(precision, 1) == Count(C99Digits(0, 8, precision, f), '0')
    ensures Count("", '0') == 0 && Count("0", '0') == 1
  {
    DigitsAre(0, 8, f.large);
    C99DigitsAre(0, 8, precision, f);
    RepeatLength(precision - 1);
    CountOne('0', '0');
    CountNone("", '0');
    BodyCount(0, 8, precision, f, '0');
  }

  lemma OctalZeroCounts(field: int, precision: int, f: Flags, n: nat)
    requires Digits(0, 8, f.large) == "0" && SignText(0, f) == "" && Prefix(8, f) == "0" && C99Prefix(0, 8, f) == ""
    requires n == |C99Digits(0, 8, precision, f)| == Max(precision, 1) == Count(C99Digits(0, 8, precision, f), '0')
    requires Count("", '0') == 0 && Count("0", '0') == 1
    requires !f.sign && precision != 0 && !(f.zeropad && !f.left && precision < 0 && field >= 2)
    ensures Count(NumberText(0, 8, field, precision, f), '0') != Count(C99Text(0, 8, field, precision, f), '0')
  {
    hide Count, Digits, C99Digits, NumberText, C99Text, SignText, Prefix, C99Prefix;
    CodeCount(0, 8, field, precision, f, '0');
    C99Count(0, 8, field, precision, f, '0');
  }

  lemma OctalMoreDiffers(number: nat, field: int, precision: int, f: Flags)
    requires 0 < number < U64 && f.special && !f.sign && precision > |Digits(number, 8, f.large)|
    ensures NumberText(number, 8, field, precision, f) != C99Text(number, 8, field, precision, f)
  {
    DigitsAre(number, 8, f.large);
    SignCounts(number, 8, f);
    CountNone("", '0');
    hide Count, Digits, C99Digits, NumberText, C99Text, Repeat;
    CodeCount(number, 8, field, precision, f, '0');
    C99Count(number, 8, field, precision, f, '0');
    BodyCount(number, 8, precision, f, '0');
  }

  /** Zeros for padding where there is a precision. */
  lemma SpacesDiffer(number: nat, base: nat, field: int, precision: int, f: Flags)
    requires number < U64 && (base == 8 || base == 10 || base == 16) && (f.sign ==> base == 10)
    requires f.zeropad && !f.left && precision >= 0
    requires var m := Magnitude(number, f);
             && (m == 0 ==> precision > 0 && !(f.special && base != 10))
             && (f.special && base == 8 ==> precision <= |Digits(m, base, f.large)|)
             && field > |SignText(number, f)| + |Prefix(base, f)| + Max(precision, |Digits(m, base, f.large)|)
    ensures NumberText(number, base, field, precision, f) != C99Text(number, base, field, precision, f)
  {
    hide Count, Digits, C99Digits, NumberText, C99Text, Repeat, Magnitude, SignText;
    var m := Magnitude(number, f);
    DigitsAre(m, base, f.large);
    SignCounts(number, base, f);
    C99DigitsAre(m, base, precision, f);
    RepeatLength(precision - |Digits(m, base, f.large)|);
    CountNone("", ' ');
    CodeCount(number, base, field, precision, f, ' ');
    C99Count(number, base, field, precision, f, ' ');
    BodyCount(m, base, precision, f, ' ');
  }

  /** The code prints a number as the standard asks for exactly under `AsC99`. */
  lemma PrintsAsC99(number: nat, base: nat, field: int, precision: int, f: Flags)
    requires number < U64 && (base == 8 || base == 10 || base == 16) && (f.sign ==> base == 10)
    ensures NumberText(number, base, field, precision, f) == C99Text(number, base, field, precision, f)
            <==> AsC99(number, base, field, precision, f)
  {
    if AsC99(number, base, field, precision, f) {
      C99Agrees(number, base, field, precision, f);
    } else {
      C99Differs(number, base, field, precision, f);
    }
  }

  // --- one case for each way to differ

  /** `%.0d` of 0 prints a digit. */
  lemma ZeroWithoutDigits()
    ensures NumberText(0, 10, -1, 0, NOFLAGS) == "0" && C99Text(0, 10, -1, 0, NOFLAGS) == ""
  {
    ZeroDigits(10, false);
    assert Repeat('0', 0) == "" && Repeat(' ', -1) == "" && Repeat('0', -1) == "" && Repeat(' ', -2) == "";
  }

  /** `%#x` of 0 prints a prefix. */
  lemma HexZero()
    ensures var f := NOFLAGS.(special := true);
            NumberText(0, 16, -1, -1, f) == "0x0" && C99Text(0, 16, -1, -1, f) == "0"
  {
    ZeroDigits(16, false);
    assert Repeat('0', -2) == "" && Repeat(' ', -4) == "" && Repeat(' ', -2) == "";
  }

  /** `%#o` of 0 prints two zeros. */
  lemma OctalZero()
    ensures var f := NOFLAGS.(special := true);
            NumberText(0, 8, -1, -1, f) == "00" && C99Text(0, 8, -1, -1, f) == "0"
  {
    ZeroDigits(8, false);
    assert Repeat('0', -2) == "" && Repeat(' ', -3) == "" && Repeat(' ', -2) == "";
  }

  /** `%#.2o` of 1 prints a zero too many. */
  lemma OctalPrecision()
    ensures var f := NOFLAGS.(special := true);
            NumberText(1, 8, -1, 2, f) == "001" && C99Text(1, 8, -1, 2, f) == "01"
  {
    assert Digits(1, 8, false) == "1";
    RepeatLength(1);
    assert Repeat('0', 1) == "0" && Repeat(' ', -4) == "" && Repeat(' ', -3) == "";
  }

  /** `%03.1d` of 7 pads with zeros. */
  lemma ZerosInSpite()
    ensures var f := NOFLAGS.(zeropad := true);
            NumberText(7, 10, 3, 1, f) == "007" && C99Text(7, 10, 3, 1, f) == "  7"
  {
    assert Digits(7, 10, false) == "7";
    assert Repeat('0', 1) == "0" && Repeat('0', 2) == "00" && Repeat(' ', 1) == " " && Repeat(' ', 2) == "  " &&
           Repeat('0', 0) == "";
  }

  // --- what is printed

  /** The number that a conversion takes by its length modifier: `z` is as wide as `int` and signed
      with d and i. */
  function C99NumberOf(num: nat, qualifier: char, sign: bool): (n: nat)
    ensures n < U64
  {
    var bits := if qualifier == 'L' then U64 else if qualifier == 'h' then 0x1_0000 else 0x1_0000_0000;
    var v := num % bits;
    var value := if sign && v >= bits / 2 then v - bits else v;
    if value < 0 then value + U64 else value
  }

  /** The base of a conversion. */
  function C99Base(c: char): nat {
    match c
    case 'o' => 8
    case 'x' => 16
    case 'X' => 16
    case _ => 10
  }

  /** The code takes it so, but for negative numbers with `z`. */
  lemma NumberAsC99(num: nat, qualifier: char, sign: bool)
    ensures NumberOf(num, qualifier, sign) == C99NumberOf(num, qualifier, sign)
            <==> !((qualifier == 'z' || qualifier == 'Z') && sign && num % 0x1_0000_0000 >= 0x8000_0000)
  {
  }

  /** `%zd` of -1 prints a large number. */
  lemma SizeWrong()
    ensures NumberOf(0xFFFF_FFFF, 'z', true) == 4294967295 && Signed(C99NumberOf(0xFFFF_FFFF, 'z', true)) == -1
  {
  }

  /** A conversion of a number prints what the standard asks for exactly if it takes the right number
      and lays it out right. */
  lemma ConvertsAsC99(d: Directive, c: char, arg: Arg)
    requires c in "diouxX"
    ensures var f := d.f.(large := c == 'X', sign := c == 'd' || c == 'i');
            var n := C99NumberOf(arg.num, d.qualifier, f.sign);
            Convert(d, c, arg) == Some(C99Text(n, C99Base(c), d.field, d.precision, f))
            <==> NumberOf(arg.num, d.qualifier, f.sign) == n && AsC99(n, C99Base(c), d.field, d.precision, f)
  {
    hide NumberText, C99Text, AsC99;
    var f := d.f.(large := c == 'X', sign := c == 'd' || c == 'i');
    var m, n := NumberOf(arg.num, d.qualifier, f.sign), C99NumberOf(arg.num, d.qualifier, f.sign);
    if m == n {
      PrintsAsC99(n, C99Base(c), d.field, d.precision, f);
    } else {
      NumberAsC99(arg.num, d.qualifier, f.sign);
      MinusDiffers(m, n, d.field, d.precision, f);
    }
  }

  lemma MinusDiffers(m: nat, n: nat, field: int, precision: int, f: Flags)
    requires m < I64 <= n < U64 && f.sign
    ensures NumberText(m, 10, field, precision, f) != C99Text(n, 10, field, precision, f)
  {
    DigitsAre(m, 10, f.large);
    CountNone(SignText(m, f), '-');
    CountNone(Prefix(10, f), '-');
    CountOne('-', '-');
    hide Count, Digits, C99Digits, NumberText, C99Text;
    CodeCount(m, 10, field, precision, f, '-');
    C99Count(n, 10, field, precision, f, '-');
  }

  // --- a precision given as an argument

  /** A negative one counts as none. */
  function C99Precision(v: int): int { if v < 0 then -1 else v }

  lemma PrecisionAsC99(s: string, v: int)
    ensures Cut(s, Max(v, 0)) == Cut(s, C99Precision(v)) <==> v >= 0 || s == ""
  {
  }

  /** Numbers do not show the difference. */
  lemma PrecisionOfNumbers(number: nat, base: nat, field: int, v: int, f: Flags)
    requires number < U64 && 2 <= base <= 36
    ensures NumberText(number, base, field, Max(v, 0), f) == NumberText(number, base, field, C99Precision(v), f)
  {
    hide Digits, Laid;
    var sign, prefix, ds := SignText(number, f), Prefix(base, f), Digits(Magnitude(number, f), base, f.large);
    var pad := field - |sign| - |prefix| - |ds|;
    if v < 0 {
      NoFewerZeros(sign, prefix, ds, pad, -|ds|, f);
      NoFewerZeros(sign, prefix, ds, pad, -1 - |ds|, f);
    }
  }

  /** `%.*s` with -1 prints nothing. */
  lemma StringCutOff(args: Args, s: string)
    requires args(0).num == 0xFFFF_FFFF && args(1) == Arg(0, s, false)
    ensures Format("%.*s", 0, args, 0) == Some("") && Cut(s, C99Precision(Int32(args(0).num))) == s
  {
    var fmt := "%.*s";
    var d := Parse(fmt, 1, args, 0);
    assert ParseFlags(fmt, 1, NOFLAGS) == Directive(NOFLAGS, -1, -1, '\0', 1, 0);
    assert d == Directive(NOFLAGS, -1, 0, '\0', 3, 1);
    assert Cut(s, 0) == "" && Repeat(' ', -1) + "" == "";
    assert Justify("", -1, false) == "";
    assert Convert(d, 's', args(1)) == Some("");
    assert Format(fmt, 4, args, 2) == Some("");
  }

  /** `%hhd` is no conversion: it prints itself, without the second h. */
  lemma HalfHalf(args: Args)
    ensures Format("%hhd", 0, args, 0) == Some("%hd")
  {
    var fmt := "%hhd";
    var d := Parse(fmt, 1, args, 0);
    assert ParseFlags(fmt, 1, NOFLAGS) == Directive(NOFLAGS, -1, -1, '\0', 1, 0);
    assert d == Directive(NOFLAGS, -1, -1, 'h', 2, 0);
    assert Convert(d, 'h', args(0)) == Some("%h");
    assert Format(fmt, 4, args, 0) == Some("");
    PrependEnd("d");
    assert [fmt[3]] == "d";
    assert Format(fmt, 3, args, 0) == Some("d");
    assert "%h" + "d" == "%hd";
  }
}
