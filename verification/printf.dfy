/** The printf engine of `kernel/utils/stdio.c`, which writes into a bounded buffer. */
module Printf {
  import opened Wrappers
  import opened PrintfSpec

  function Min(a: nat, b: nat): nat { if a < b then a else b }

  class Printer {
    // str, as many bytes of it as may be written before the terminator, and `buffer - str`
    const str: array<char>
    const size: nat
    var pos: nat
    // what was stored for `%n`
    var tallies: seq<Tally>
    // everything printed, whether it fit or not
    ghost var text: string

    constructor (str: array<char>, size: nat)
      requires size == 0 || size < str.Length
      ensures Valid() && text == "" && tallies == [] && this.str == str && this.size == size
    {
      this.str, this.size, pos, tallies, text := str, size, 0, [], "";
    }

    /** The buffer holds what was printed, as far as it goes. */
    ghost predicate Valid()
      reads this, str
    {
      && (size == 0 || size < str.Length) && pos == |text|
      && forall k :: 0 <= k < Min(pos, size) ==> str[k] == text[k]
    }

    /** `if (buffer < end) *buffer = c; buffer++;` */
    method Put(c: char)
      requires Valid()
      modifies this`pos, this`text, str
      ensures Valid() && text == old(text) + [c]
    {
      if pos < size {
        str[pos] := c;
      }
      pos := pos + 1;
      text := text + [c];
    }

    /** `while (field-- > 0)` with a `Put`. */
    method Pad(c: char, field0: int) returns (field: int)
      requires Valid()
      modifies this`pos, this`text, str
      ensures Valid() && text == old(text) + Repeat(c, field0)
      ensures field == if field0 > 0 then -1 else field0 - 1
    {
      field := field0;
      while field > 0
        invariant Valid() && (field0 > 0 ==> field >= 0) && (field0 <= 0 ==> field == field0)
        invariant text == old(text) + Repeat(c, field0 - Max(field, 0))
      {
        Put(c);
        field := field - 1;
      }
      field := field - 1;
    }

    /** The digits of a number, the last first, as `vsnprintf_number` puts them in `tmp`. */
    method ToDigits(number0: nat, base: nat, large: bool) returns (tmp: array<char>, i: nat)
      requires number0 < U64 && 2 <= base <= 36
      ensures fresh(tmp) && 0 < i <= 64 < tmp.Length == 66
      ensures i == |Digits(number0, base, large)| && forall k :: 0 <= k < i ==>
              tmp[k] == Digits(number0, base, large)[i - 1 - k]
    {
      hide Pow2, Digits, DigitChar, Quot, Rem, DigitTable;
      Pow64();
      DigitsFit(number0, base, large, 64);
      var digits := DigitTable(large);
      tmp, i := new char[66], 0;
      var number: nat := number0;
      ghost var all := Digits(number0, base, large);
      ZeroDigits(base, large);
      if number == 0 {
        tmp[i] := '0';
        i := 1;
      } else {
        while number != 0
          invariant number < U64 && i <= |all|
          invariant number == 0 ==> i == |all|
          invariant number != 0 ==> all[..|all| - i] == Digits(number, base, large)
          invariant forall k :: 0 <= k < i ==> tmp[k] == all[|all| - 1 - k]
        {
          LastDigit(number, base, large);
          DigitTables(Rem(number, base), large);
          ghost var front := all[..|all| - i];
          assert all[|all| - 1 - i] == front[|front| - 1];
          assert all[..|all| - (i + 1)] == front[..|front| - 1];
          tmp[i] := digits[Rem(number, base)];
          i := i + 1;
          number := Quot(number, base);
        }
      }
    }

    method PutSign(sign: char)
      requires Valid()
      modifies this`pos, this`text, str
      ensures Valid() && text == old(text) + CharText(sign)
    {
      if sign != '\0' {
        Put(sign);
      }
    }

    method PutPrefix(base: nat, f: Flags)
      requires Valid()
      modifies this`pos, this`text, str
      ensures Valid() && text == old(text) + Prefix(base, f)
    {
      if f.special {
        if base == 8 {
          Put('0');
        } else if base == 16 {
          DigitTables(33, f.large);
          Put('0');
          Put(DigitTable(f.large)[33]);
        }
      }
    }

    /** `while (i-- > 0)` with a `Put` of `tmp[i]`. */
    method PutDigits(tmp: array<char>, i0: nat, ghost ds: string)
      requires Valid() && tmp != str && i0 == |ds| <= tmp.Length && forall k :: 0 <= k < i0 ==> tmp[k] == ds[i0 - 1 - k]
      modifies this`pos, this`text, str
      ensures Valid() && text == old(text) + ds
    {
      var i := i0;
      while i > 0
        invariant 0 <= i <= i0 && Valid() && text == old(text) + ds[..i0 - i]
        invariant forall k :: 0 <= k < i0 ==> tmp[k] == ds[i0 - 1 - k]
      {
        i := i - 1;
        assert ds[..i0 - i] == ds[..i0 - i - 1] + [ds[i0 - 1 - i]];
        Put(tmp[i]);
      }
      assert ds[..i0] == ds;
    }

    /** The second half of `vsnprintf_number`: `field` is what is left of the field for padding. */
    method PutLayout(sign: char, tmp: array<char>, i: nat, ghost ds: string, base: nat, field0: int, precision: int,
                     f: Flags)
      requires Valid() && tmp != str && i == |ds| <= tmp.Length && forall k :: 0 <= k < i ==> tmp[k] == ds[i - 1 - k]
      modifies this`pos, this`text, str
      ensures Valid() && text == old(text) + Laid(CharText(sign), Prefix(base, f), ds, field0, precision - i, f)
    {
      hide Repeat, Prefix, Laid, CharText, Max;
      var zeropad, field := f.zeropad && !f.left, field0;
      ghost var t0 := text;
      if !(zeropad || f.left) {
        field := Pad(' ', field);
      }
      PutSign(sign);
      PutPrefix(base, f);
      ghost var field1 := field;
      if !f.left {
        field := Pad(if zeropad then '0' else ' ', field);
      }
      var zeros := Pad('0', precision - i);
      PutDigits(tmp, i, ds);
      ghost var field2 := field;
      field := Pad(' ', field);
      LaidOut(t0, CharText(sign), Prefix(base, f), ds, field0, precision - i, f, field1, field2);
    }

    /** `vsnprintf_number` */
    method Number(number0: nat, base: nat, field0: int, precision0: int, f: Flags) returns (ok: bool)
      requires Valid() && number0 < U64
      modifies this`pos, this`text, str
      ensures Valid() && ok == (2 <= base <= 36)
      ensures text == if ok then old(text) + NumberText(number0, base, field0, precision0, f) else old(text)
    {
      hide Digits, Repeat, DigitTable, Laid;
      if base < 2 || base > 36 {
        return false;
      }
      var sign, number, field, precision := '\0', number0, field0, precision0;
      if f.sign {
        if number >= I64 {
          sign, number, field := '-', U64 - number, field - 1;
        } else if f.plus {
          sign, field := '+', field - 1;
        } else if f.space {
          sign, field := ' ', field - 1;
        }
      }
      if f.special {
        if base == 16 {
          field := field - 2;
        } else if base == 8 {
          field := field - 1;
        }
      }
      var tmp, i := ToDigits(number, base, f.large);
      if i > precision {
        precision := i;
      }
      field := field - precision;
      PutLayout(sign, tmp, i, Digits(number, base, f.large), base, field, precision, f);
      NoFewerZeros(SignText(number0, f), Prefix(base, f), Digits(number, base, f.large), field, precision0 - i, f);
      return true;
    }

    /** `vsnprintf_atoi` */
    method ReadInt(s: string, i0: nat) returns (v: int, i: nat)
      requires i0 <= |s|
      ensures i == DigitRun(s, i0) && v == Atoi(s, i0)
    {
      v, i := 0, i0;
      DecodeNone(10);
      while i < |s| && IsDigit(s[i])
        invariant i0 <= i <= |s| && DigitRun(s, i) == DigitRun(s, i0)
        invariant v == Int32(Decode(s[i0..i], 10))
      {
        assert s[i0..i + 1] == s[i0..i] + [s[i]];
        DecodeMore(s[i0..i], s[i], 10);
        Int32Step(Decode(s[i0..i], 10), DigitValue(s[i]));
        v := Int32(v * 10 + (s[i] - '0') as int);
        i := i + 1;
      }
    }

    /** The flags of a directive. */
    method ReadFlags(s: string, i0: nat) returns (f: Flags, i: nat)
      requires i0 <= |s|
      ensures ParseFlags(s, i0, NOFLAGS) == Directive(f, -1, -1, '\0', i, 0) && i0 <= i <= |s|
    {
      f, i := NOFLAGS, i0;
      while i < |s| && s[i] in "-+ #0"
        invariant i0 <= i <= |s| && ParseFlags(s, i, f) == ParseFlags(s, i0, NOFLAGS)
      {
        match s[i] {
          case '-' => f := f.(left := true);
          case '+' => f := f.(plus := true);
          case ' ' => f := f.(space := true);
          case '#' => f := f.(special := true);
          case '0' => f := f.(zeropad := true);
        }
        i := i + 1;
      }
    }

    /** The field width, which may be an argument. */
    method ReadField(s: string, args: Args, d0: Directive) returns (d: Directive)
      requires d0.i <= |s|
      ensures d == ParseField(s, args, d0) && d.i <= |s|
    {
      hide Atoi, DigitRun;
      d := d0;
      if IsDigit(At(s, d.i)) {
        var field, i := ReadInt(s, d.i);
        d := d.(field := field, i := i);
      } else if At(s, d.i) == '*' {
        d := d.(i := d.i + 1, field := Int32(args(d.k).num), k := d.k + 1);
        if d.field < 0 {
          d := d.(field := -d.field, f := d.f.(left := true));
        }
      }
    }

    /** The precision, which may be an argument too. */
    method ReadPrecision(s: string, args: Args, d0: Directive) returns (d: Directive)
      requires d0.i <= |s|
      ensures d == ParsePrecision(s, args, d0) && d.i <= |s|
    {
      hide Atoi, DigitRun;
      d := d0;
      if At(s, d.i) == '.' {
        var precision, i, k := d.precision, d.i + 1, d.k;
        if IsDigit(At(s, i)) {
          precision, i := ReadInt(s, i);
        } else if At(s, i) == '*' {
          precision, i, k := Int32(args(k).num), i + 1, k + 1;
        } else {
          precision := -1;
        }
        d := d.(precision := if precision < 0 then 0 else precision, i := i, k := k);
      }
    }

    method ReadQualifier(s: string, d0: Directive) returns (d: Directive)
      requires d0.i <= |s|
      ensures d == ParseQualifier(s, d0) && d.i <= |s|
    {
      d := d0;
      if At(s, d.i) in "hlLZz" {
        d := d.(qualifier := At(s, d.i), i := d.i + 1);
        if d.qualifier == 'l' && At(s, d.i) == 'l' {
          d := d.(qualifier := 'L', i := d.i + 1);
        }
      }
    }

    /** The parsing of a directive, up to its conversion character. */
    method ReadDirective(s: string, i0: nat, args: Args, k0: nat) returns (d: Directive)
      requires i0 <= |s|
      ensures d == Parse(s, i0, args, k0)
    {
      hide ParseFlags, ParseField, ParsePrecision, ParseQualifier;
      var f, i := ReadFlags(s, i0);
      d := Directive(f, -1, -1, '\0', i, k0);
      d := ReadField(s, args, d);
      d := ReadPrecision(s, args, d);
      d := ReadQualifier(s, d);
    }

    /** A character or a string, with spaces before it or behind it. */
    method PutText(s: string, field0: int, left: bool)
      requires Valid()
      modifies this`pos, this`text, str
      ensures Valid() && text == old(text) + Justify(s, field0, left)
    {
      hide Repeat;
      var field := field0 - |s|;
      ghost var before := if left then "" else Repeat(' ', field);
      if !left {
        field := Pad(' ', field);
      }
      var i := 0;
      while i < |s|
        invariant i <= |s| && Valid() && text == old(text) + before + s[..i]
      {
        assert s[..i + 1] == s[..i] + [s[i]];
        Put(s[i]);
        i := i + 1;
      }
      assert s[..|s|] == s;
      ghost var behind := field;
      field := Pad(' ', field);
      Justified(old(text), s, field0, left, behind);
    }

    /** The length of a string, as far as the precision allows. */
    method Measure(s: string, precision0: int) returns (length: nat)
      ensures length <= |s| && s[..length] == Cut(s, precision0)
    {
      var precision := precision0;
      length := 0;
      while precision != 0 && length < |s|
        invariant length <= |s| && precision == precision0 - length && (precision0 >= 0 ==> precision >= 0)
        decreases |s| - length
      {
        precision := precision - 1;
        length := length + 1;
      }
      assert s[..|s|] == s;
    }

    /** The argument of a conversion of a number, as wide as its qualifier says. */
    method TakeNumber(num: nat, qualifier: char, sign: bool) returns (number: nat)
      ensures number == NumberOf(num, qualifier, sign)
    {
      if qualifier == 'L' {
        number := num % 0x1_0000_0000_0000_0000;
      } else if qualifier == 'Z' || qualifier == 'z' {
        number := num % 0x1_0000_0000;
      } else {
        var width := if qualifier == 'h' then 0x1_0000 else 0x1_0000_0000;
        number := num % width;
        if sign && number >= width / 2 {
          number := 0x1_0000_0000_0000_0000 - width + number;
        }
      }
    }

    /** The printing of one directive; not ok at the end of the format. */
    method PutDirective(d: Directive, c: char, arg: Arg) returns (ok: bool)
      requires Valid()
      modifies this, str
      ensures Valid() && ok == Convert(d, c, arg).Some?
      ensures text == if ok then old(text) + Convert(d, c, arg).value else old(text)
      ensures tallies == old(tallies) + TallyOf(d, c, |old(text)|)
    {
      hide NumberText, Justify, NumberOf;
      ok := true;
      if c == 'c' {
        PutText([(arg.num % 256) as char], d.field, d.f.left);
      } else if c == 's' {
        var source := if arg.low then "(NULL)" else arg.text;
        var length := Measure(source, d.precision);
        PutText(source[..length], d.field, d.f.left);
      } else if c == 'p' {
        var field, f := d.field, d.f;
        if field == -1 {
          field, f := 8, f.(zeropad := true);
        }
        ok := Number(arg.num % 0x1_0000_0000, 16, field, d.precision, f);
      } else if c == 'n' {
        tallies := tallies + [Tally(d.k, d.qualifier, pos)];
      } else if c == '\0' {
        ok := false;
      } else if c == '%' {
        Put('%');
      } else if c in "oXxdiu" {
        var base := 10;
        if c == 'o' {
          base := 8;
        } else if c == 'X' || c == 'x' {
          base := 16;
        }
        var f := d.f.(large := c == 'X', sign := c == 'd' || c == 'i');
        var number := TakeNumber(arg.num, d.qualifier, f.sign);
        ok := Number(number, base, d.field, d.precision, f);
      } else {
        Put('%');
        Put(c);
      }
    }

    /** The terminator, behind the text or at `str + size`. */
    method Terminate()
      requires Valid() && str.Length > 0
      modifies str
      ensures Printed(str[..], size, text)
    {
      if pos < size {
        str[pos] := '\0';
      } else if size > 0 {
        str[size] := '\0';
      }
    }

    /** `vsnprintf`.  Unless the format ends inside a directive, what is printed, and so the result and
        what `%n` stores, does not depend on the size, and the buffer holds a prefix of it with a
        terminator behind; a size above INT_MAX prints nothing. */
    method Vsnprintf(format: string, args: Args) returns (n: nat)
      requires Valid() && text == "" && str.Length > 0
      modifies this, str
      ensures size > 0x7FFF_FFFF ==> n == 0 && text == "" && str[..] == old(str[..]) && tallies == old(tallies)
      ensures size <= 0x7FFF_FFFF && Format(format, 0, args, 0).Some? ==>
                Printed(str[..], size, Format(format, 0, args, 0).value) && n == |Format(format, 0, args, 0).value| &&
                tallies == old(tallies) + Tallies(format, 0, args, 0, 0)
    {
      hide Format, Tallies, TallyOf, Parse, Convert, At, Printed;
      n := 0;
      if size > 0x7FFF_FFFF {
        return;
      }
      ghost var all, stored := Format(format, 0, args, 0), tallies + Tallies(format, 0, args, 0, 0);
      var i: nat, k: nat := 0, 0;
      PrependNothing(all);
      while i < |format|
        invariant i <= |format| && Valid()
        invariant all.Some? ==> all == Prepend(text, Format(format, i, args, k))
        invariant all.Some? ==> stored == tallies + Tallies(format, i, args, k, pos)
        decreases |format| - i
      {
        if all.Some? {
          FormatStep(format, i, args, k, text);
          TalliesStep(format, i, args, k, pos, tallies);
        }
        if format[i] != '%' {
          Put(format[i]);
          i := i + 1;
        } else {
          var d := ReadDirective(format, i + 1, args, k);
          var c := At(format, d.i);
          var ok := PutDirective(d, c, args(d.k));
          if !ok || d.i == |format| {
            return;
          }
          i, k := d.i + 1, if c in "cspnoXxdiu" then d.k + 1 else d.k;
        }
      }
      FormatEnd(format, args, k, pos);
      PrependEnd(text);
      Terminate();
      n := pos;
    }
  }
}
