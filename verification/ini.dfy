/** The INI parser of `libs/core/ini.c`, which cuts each line to pieces in its buffer. */
module Ini {
  import opened IniSpec

  /** The C string `s` starts at `p` in the line buffer. */
  ghost predicate Holds(line: array<char>, p: nat, s: string)
    reads line
  {
    && p + |s| < line.Length && line[p + |s|] == '\0'
    && forall k :: p <= k < p + |s| ==> line[k] == s[k - p] && line[k] != '\0'
  }

  /** The end of a C string is a C string. */
  lemma HoldsTail(line: array<char>, p: nat, s: string, q: nat)
    requires Holds(line, p, s) && p <= q <= p + |s|
    ensures Holds(line, q, s[q - p..])
    ensures line[q] == '\0' <==> q == p + |s|
    ensures q < p + |s| ==> line[q] == s[q - p]
  {
  }

  /** `ini_strip`: NULs are written over white space at the end. */
  method Strip(line: array<char>, p: nat, ghost s: string)
    requires Holds(line, p, s)
    modifies line
    ensures Holds(line, p, Rstrip(s))
    ensures forall k :: 0 <= k < line.Length && !(p <= k < p + |s|) ==> line[k] == old(line[k])
  {
    hide Rstrip;
    var q: nat := p;
    while line[q] != '\0'
      invariant p <= q <= p + |s|
      decreases p + |s| - q
    {
      q := q + 1;
    }
    assert s[..|s|] == s;
    while q > p && IsSpace(line[q - 1])
      invariant p <= q <= p + |s| && Holds(line, p, s[..q - p]) && Rstrip(s[..q - p]) == Rstrip(s)
      invariant forall k :: 0 <= k < line.Length && !(p <= k < p + |s|) ==> line[k] == old(line[k])
    {
      RstripOne(s, q - p);
      q := q - 1;
      line[q] := '\0';
    }
    RstripOne(s, q - p);
  }

  /** `ini_skip` */
  method SkipSpace(line: array<char>, p: nat, ghost s: string) returns (q: nat)
    requires Holds(line, p, s)
    ensures q == p + |s| - |Skip(s)| && Holds(line, q, Skip(s))
  {
    hide Skip, Holds;
    q := p;
    HoldsTail(line, p, s, q);
    InBuffer(line, p, s);
    assert s[0..] == s;
    while line[q] != '\0' && IsSpace(line[q])
      invariant p <= q <= p + |s| < line.Length && Skip(s[q - p..]) == Skip(s)
      invariant (line[q] == '\0' <==> q == p + |s|) && (q < p + |s| ==> line[q] == s[q - p])
      decreases p + |s| - q
    {
      SkipOne(s, q - p);
      q := q + 1;
      HoldsTail(line, p, s, q);
    }
    SkipOne(s, q - p);
    HoldsTail(line, p, s, q);
  }

  lemma InBuffer(line: array<char>, p: nat, s: string)
    requires Holds(line, p, s)
    ensures p + |s| < line.Length
  {
  }

  /** `ini_find` */
  method Find(line: array<char>, p: nat, chars: string, ghost s: string) returns (q: nat)
    requires Holds(line, p, s)
    ensures q == p + FindEnd(s, chars, false)
  {
    hide FindEnd, Holds;
    q := p;
    var space := false;
    HoldsTail(line, p, s, q);
    InBuffer(line, p, s);
    assert s[0..] == s;
    while line[q] != '\0' && line[q] !in chars && !(space && line[q] == ';')
      invariant p <= q <= p + |s| < line.Length
      invariant (line[q] == '\0' <==> q == p + |s|) && (q < p + |s| ==> line[q] == s[q - p])
      invariant q + FindEnd(s[q - p..], chars, space) == p + FindEnd(s, chars, false)
      decreases p + |s| - q
    {
      FindOne(s, q - p, chars, space);
      space := IsSpace(line[q]);
      q := q + 1;
      HoldsTail(line, p, s, q);
    }
    FindOne(s, q - p, chars, space);
  }

  /** `strncpy` of the C string at `p` into a buffer of `n + 1` characters. */
  method Copy(line: array<char>, p: nat, n: nat, ghost s: string) returns (c: string)
    requires Holds(line, p, s)
    ensures c == Cut(s, n)
  {
    hide Holds;
    c := "";
    var q: nat := p;
    HoldsTail(line, p, s, q);
    InBuffer(line, p, s);
    while q - p < n && line[q] != '\0'
      invariant p <= q <= p + |s| < line.Length && c == s[..q - p] && q - p <= n
      invariant (line[q] == '\0' <==> q == p + |s|) && (q < p + |s| ==> line[q] == s[q - p])
      decreases p + |s| - q
    {
      assert s[..q - p + 1] == s[..q - p] + [s[q - p]];
      c := c + [line[q]];
      q := q + 1;
      HoldsTail(line, p, s, q);
    }
  }

  /** `ini_line_get`: up to the line break, or 200 characters, whatever they are. */
  method LineGet(b: string, p0: nat, line: array<char>) returns (p: nat)
    requires p0 <= |b| && (LineEnd(b, p0) < |b| || p0 + LINE_MAX <= |b|) && line.Length == LINE_MAX
    modifies line
    ensures p == LineStop(b, p0)
    ensures var t := LineText(b, p0);
            forall k :: 0 <= k < LINE_MAX ==> line[k] == if k < |t| then t[k] else '\0'
  {
    hide NoReturns;
    forall k | 0 <= k < line.Length {
      line[k] := '\0';
    }
    p := p0;
    LineEndIs(b, p0);
    ghost var e, t := LineEnd(b, p0), "";
    assert b[p0..p] == "";
    NoReturnsNone();
    var i, j := 0, 0;
    while i < LINE_MAX
      invariant i <= LINE_MAX && p == p0 + i <= e
      invariant j == |t| <= i && t == NoReturns(b[p0..p])
      invariant forall k :: 0 <= k < LINE_MAX ==> line[k] == if k < |t| then t[k] else '\0'
    {
      var ch := b[p];
      p := p + 1;
      if ch == '\n' {
        break;
      }
      assert b[p0..p] == b[p0..p - 1] + [ch];
      NoReturnsMore(b[p0..p - 1], ch);
      if ch != '\r' {
        line[j] := ch;
        j := j + 1;
        t := t + [ch];
      }
      i := i + 1;
    }
  }

  lemma TextHeld(b: string, p: nat, line: array<char>)
    requires p <= |b| && LineEnd(b, p) - p < LINE_MAX && '\0' !in b[p..LineEnd(b, p)] && line.Length == LINE_MAX
    requires var t := LineText(b, p); forall k :: 0 <= k < LINE_MAX ==> line[k] == if k < |t| then t[k] else '\0'
    ensures Holds(line, 0, NoReturns(b[p..LineEnd(b, p)]))
  {
    NoReturnsShorter(b[p..LineEnd(b, p)]);
  }

  /** The section's name is cut out of the line. */
  method ParseSection(line: array<char>, start: nat, ghost s: string, st0: State) returns (st: State)
    requires Holds(line, start, s)
    modifies line
    ensures st == SectionLine(st0, s)
  {
    st := st0;
    var end := Find(line, start, "]", s);
    ghost var e := end - start;
    if line[end] == ']' {
      line[end] := '\0';
      var section := Copy(line, start, SECTION_MAX - 1, s[..e]);
      st := st.(section := section, prev := "");
    } else {
      st := Failed(st);
    }
  }

  /** `*q = 0` cuts a C string in two. */
  method CutOff(line: array<char>, p: nat, q: nat, ghost s: string)
    requires Holds(line, p, s) && p <= q < p + |s|
    modifies line
    ensures Holds(line, p, s[..q - p]) && Holds(line, q + 1, s[q - p + 1..])
  {
    line[q] := '\0';
  }

  /** The name is stripped, and the text behind it stays. */
  method StripName(line: array<char>, p: nat, ghost s: string, r: nat, ghost t: string)
    requires Holds(line, p, s) && Holds(line, r, t) && r == p + |s| + 1
    modifies line
    ensures Holds(line, p, Rstrip(s)) && Holds(line, r, t)
  {
    hide Rstrip;
    ghost var before := line[..];
    Strip(line, p, s);
    StillHolds(before, line, r, t);
  }

  /** What is behind the delimiter, without a comment, is the value; the name before it stays. */
  method ParseValue(line: array<char>, p: nat, ghost name: string, start: nat, ghost s: string) returns (value: nat)
    requires Holds(line, start, s) && Holds(line, p, name) && p + |name| < start
    modifies line
    ensures Holds(line, value, Rstrip(Skip(s[..FindEnd(s, "", false)]))) && Holds(line, p, name)
  {
    hide Rstrip, Skip, FindEnd;
    ghost var before := line[..];
    var end := Find(line, start, "", s);
    ghost var text := s[..end - start];
    if line[end] != '\0' {
      line[end] := '\0';
    }
    value := SkipSpace(line, start, text);
    Strip(line, value, Skip(text));
    StillHolds(before, line, p, name);
  }

  /** Name and value are cut out of the line. */
  method ParsePair(line: array<char>, start: nat, ghost s: string, st0: State, h: Handler) returns (st: State)
    requires Holds(line, start, s) && line.Length == LINE_MAX
    modifies line
    ensures st == PairLine(st0, s, h)
  {
    hide Rstrip, Skip, FindEnd, Called, Cut, Holds;
    st := st0;
    var end := Find(line, start, "=:", s);
    HoldsTail(line, start, s, end);
    InBuffer(line, start, s);
    if line[end] == '=' || line[end] == ':' {
      ghost var e := end - start;
      CutOff(line, start, end, s);
      StripName(line, start, s[..e], end + 1, s[e + 1..]);
      var value := ParseValue(line, start, Rstrip(s[..e]), end + 1, s[e + 1..]);
      ghost var v := Rstrip(Skip(s[e + 1..][..FindEnd(s[e + 1..], "", false)]));
      var prev := Copy(line, start, NAME_MAX - 1, Rstrip(s[..e]));
      st := Report(line, start, Rstrip(s[..e]), value, v, st.(prev := prev), h);
    } else {
      st := Failed(st);
    }
  }

  /** A C string in a part of the buffer that was not written to since it held `before`. */
  lemma StillHolds(before: seq<char>, line: array<char>, p: nat, s: string)
    requires |before| == line.Length && p + |s| < |before| && before[p + |s|] == '\0'
    requires forall k :: p <= k < p + |s| ==> before[k] == s[k - p] && before[k] != '\0'
    requires forall k :: p <= k <= p + |s| ==> line[k] == before[k]
    ensures Holds(line, p, s)
  {
  }

  /** The handler is called with the C strings at `name` and `value`. */
  method Report(line: array<char>, name: nat, ghost n: string, value: nat, ghost v: string, st0: State, h: Handler)
      returns (st: State)
    requires Holds(line, name, n) && Holds(line, value, v) && line.Length == LINE_MAX
    ensures st == Called(st0, Call(st0.section, n, v), h)
  {
    var name' := Copy(line, name, LINE_MAX, n);
    var value' := Copy(line, value, LINE_MAX, v);
    st := Called(st0, Call(st0.section, name', value'), h);
  }

  /** One turn of the loop of `ini_parse`: a line in the line buffer. */
  method ParseLine(line: array<char>, ghost s: string, st0: State, h: Handler) returns (st: State)
    requires Holds(line, 0, s) && line.Length == LINE_MAX
    modifies line
    ensures st == LineStep(st0, s, h)
  {
    hide Rstrip, Skip, Content, Holds, HasBom;
    st := st0;
    HoldsTail(line, 0, s, 0);
    assert s[0..] == s;
    InBuffer(line, 0, s);
    if line[0] == '\0' {
      return;
    }
    st := st.(line := st.line + 1);
    var start := 0;
    ghost var text := s;
    BomShows(line, s);
    if st.line == 1 && line[0] == 0xEF as char && line[1] == 0xBB as char && line[2] == 0xBF as char {
      start, text := 3, s[3..];
      HoldsTail(line, 0, s, 3);
    }
    Strip(line, start, text);
    start := SkipSpace(line, start, Rstrip(text));
    st := ParseContent(line, start, Skip(Rstrip(text)), st, h);
  }

  lemma BomShows(line: array<char>, s: string)
    requires Holds(line, 0, s) && line.Length == LINE_MAX
    ensures HasBom(s) <==> line[0] == 0xEF as char && line[1] == 0xBB as char && line[2] == 0xBF as char
    ensures HasBom(s) ==> |s| >= 3
  {
  }

  /** What is left of a line without white space around it. */
  method ParseContent(line: array<char>, start: nat, ghost s: string, st0: State, h: Handler) returns (st: State)
    requires Holds(line, start, s) && line.Length == LINE_MAX
    modifies line
    ensures st == Content(st0, s, start > 0, h)
  {
    hide SectionLine, PairLine, Called;
    st := st0;
    if line[start] == '\0' || line[start] == ';' || line[start] == '#' {
      return;
    } else if st.prev != "" && start > 0 {
      st := ReportLine(line, start, s, st, h);
    } else if line[start] == '[' {
      st := ParseSection(line, start + 1, s[1..], st);
    } else {
      st := ParsePair(line, start, s, st, h);
    }
  }

  method ReportLine(line: array<char>, start: nat, ghost s: string, st0: State, h: Handler) returns (st: State)
    requires Holds(line, start, s) && line.Length == LINE_MAX
    ensures st == Called(st0, Call(st0.section, st0.prev, s), h)
  {
    var value := Copy(line, start, LINE_MAX, s);
    st := Called(st0, Call(st0.section, st0.prev, value), h);
  }

  /** `ini_parse` of a buffer of lines shorter than the line buffer, each with a line break at its
      end.  The calls of the handler, in order, and the result are those of the lines. */
  method IniParse(b: string, h: Handler) returns (st: State)
    requires LinesOk(b, 0)
    ensures st == ParseFrom(b, 0, START, h)
  {
    hide LineStep, NoReturns;
    var line := new char[LINE_MAX](_ => '\0');
    st := START;
    var p := 0;
    while p < |b|
      invariant p <= |b| && LinesOk(b, p)
      invariant ParseFrom(b, p, st, h) == ParseFrom(b, 0, START, h)
    {
      ghost var text := NoReturns(b[p..LineEnd(b, p)]);
      ghost var p0 := p;
      p := LineGet(b, p, line);
      TextHeld(b, p0, line);
      st := ParseLine(line, text, st, h);
    }
  }

  /** Written and parsed again, a file gives the handler every pair in order. */
  method WriteAndParse(ss: seq<Section>, h: Handler) returns (st: State)
    requires forall s :: s in ss ==> SectionOk(s)
    ensures st.calls == Calls(ss) && (st.result == 0 <==> forall c :: c in Calls(ss) ==> h(c))
  {
    RoundTrip(ss, h);
    st := IniParse(Render(ss), h);
  }
}
