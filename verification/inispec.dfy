/** INI files: what `libs/core/ini.c` makes of each line, and how a file is written. */
module IniSpec {
  const LINE_MAX: nat := 200
  const SECTION_MAX: nat := 50
  const NAME_MAX: nat := 50

  predicate IsSpace(c: char) { c == ' ' || '\t' <= c <= '\r' }

  /** Without the white space at the end, and at the start. */
  function Rstrip(s: string): (r: string)
    ensures r <= s
  {
    if s != "" && IsSpace(s[|s| - 1]) then Rstrip(s[..|s| - 1]) else s
  }

  function Skip(s: string): (r: string)
    ensures |r| <= |s| && r == s[|s| - |r|..]
  {
    if s != "" && IsSpace(s[0]) then Skip(s[1..]) else s
  }

  /** The place of the first of `chars`, of a semicolon behind white space, or the end. */
  function FindEnd(s: string, chars: string, space: bool): (n: nat)
    ensures n <= |s|
  {
    if s == "" || s[0] in chars || (space && s[0] == ';') then 0 else 1 + FindEnd(s[1..], chars, IsSpace(s[0]))
  }

  function Cut(s: string, n: nat): string {
    if |s| <= n then s else s[..n]
  }

  datatype Call = Call(section: string, name: string, value: string)
  type Handler = Call -> bool
  datatype State = State(section: string, prev: string, calls: seq<Call>, line: nat, result: nat)

  const START: State := State("", "", [], 0, 0)

  /** The handler is called; the first line it refuses is the result. */
  function Called(st: State, call: Call, h: Handler): State {
    st.(calls := st.calls + [call], result := if !h(call) && st.result == 0 then st.line else st.result)
  }

  function Failed(st: State): State {
    st.(result := if st.result == 0 then st.line else st.result)
  }

  predicate HasBom(s: string) {
    |s| >= 3 && s[0] == 0xEF as char && s[1] == 0xBB as char && s[2] == 0xBF as char
  }

  /** A line without its line break. */
  function LineStep(st0: State, line: string, h: Handler): State {
    if line == "" then st0
    else
      var st := st0.(line := st0.line + 1);
      var text := if st.line == 1 && HasBom(line) then line[3..] else line;
      var s := Skip(Rstrip(text));
      var moved := |text| < |line| || |s| < |Rstrip(text)|;
      Content(st, s, moved, h)
  }

  /** A line from its first character that is not white space: a comment, a value continued from the
      line before, a section or a name with a value. */
  function Content(st: State, s: string, moved: bool, h: Handler): State {
    if s == "" || s[0] == ';' || s[0] == '#' then st
    else if st.prev != "" && moved then Called(st, Call(st.section, st.prev, s), h)
    else if s[0] == '[' then SectionLine(st, s[1..])
    else PairLine(st, s, h)
  }

  function SectionLine(st: State, s: string): State {
    var e := FindEnd(s, "]", false);
    if e < |s| && s[e] == ']' then st.(section := Cut(s[..e], SECTION_MAX - 1), prev := "") else Failed(st)
  }

  function PairLine(st: State, s: string, h: Handler): State {
    var e := FindEnd(s, "=:", false);
    if e < |s| && (s[e] == '=' || s[e] == ':') then
      var name := Rstrip(s[..e]);
      var rest := s[e + 1..];
      var value := Rstrip(Skip(rest[..FindEnd(rest, "", false)]));
      Called(st.(prev := Cut(name, NAME_MAX - 1)), Call(st.section, name, value), h)
    else Failed(st)
  }

  /** Where the line that starts at `p` ends, and its text without carriage returns. */
  function LineEnd(b: string, p: nat): (e: nat)
    requires p <= |b|
    ensures p <= e <= |b|
    decreases |b| - p
  {
    if p < |b| && b[p] != '\n' then LineEnd(b, p + 1) else p
  }

  lemma {:induction false} LineEndIs(b: string, p: nat)
    requires p <= |b|
    ensures forall k :: p <= k < LineEnd(b, p) ==> b[k] != '\n'
    ensures LineEnd(b, p) < |b| ==> b[LineEnd(b, p)] == '\n'
    decreases |b| - p
  {
    if p < |b| && b[p] != '\n' {
      LineEndIs(b, p + 1);
    }
  }

  /** Where the reading of a line stops: behind its line break, or after 200 characters. */
  function LineStop(b: string, p: nat): nat
    requires p <= |b|
  {
    if LineEnd(b, p) - p < LINE_MAX then LineEnd(b, p) + 1 else p + LINE_MAX
  }

  /** What is read of a line. */
  function LineText(b: string, p: nat): string
    requires p <= |b|
  {
    NoReturns(b[p..if LineEnd(b, p) - p < LINE_MAX then LineEnd(b, p) else p + LINE_MAX])
  }

  /** The NUL at `z`, with memory behind it, does not end a line: the reading goes past it exactly if no
      line break comes first, and the line is short. */
  lemma PastTheEnd(b: string, p: nat, z: nat)
    requires p <= z < |b| && b[z] == '\0'
    ensures LineStop(b, p) > z <==> '\n' !in b[p..z] && z - p < LINE_MAX
  {
    LineEndIs(b, p);
    var e := LineEnd(b, p);
    if e < z {
      assert b[p..z][e - p] == '\n';
    } else {
      assert forall k :: p <= k < z ==> b[k] != '\n';
    }
  }

  /** A file of one pair without a line break, and what happens to lie behind it. */
  lemma LastLineRunsOn()
    ensures var b := "a=b\0c=d\n"; b[3] == '\0' && LineStop(b, 0) == |b|
  {
    var b := "a=b\0c=d\n";
    assert LineEnd(b, 7) == 7;
    assert LineEnd(b, 4) == 7;
    assert LineEnd(b, 0) == 7;
  }

  function NoReturns(s: string): string {
    if s == "" then "" else NoReturns(s[..|s| - 1]) + if s[|s| - 1] == '\r' then "" else [s[|s| - 1]]
  }

  /** From `p` on the buffer consists of lines of less than 200 characters, each with a line break at
      its end, and no NUL. */
  predicate LinesOk(b: string, p: nat)
    requires p <= |b|
    decreases |b| - p
  {
    p == |b| || (LineEnd(b, p) < |b| && LineEnd(b, p) - p < LINE_MAX && '\0' !in b[p..LineEnd(b, p)] &&
                 LinesOk(b, LineEnd(b, p) + 1))
  }

  /** The whole buffer. */
  function ParseFrom(b: string, p: nat, st: State, h: Handler): State
    requires p <= |b|
    decreases |b| - p
  {
    if p == |b| then st
    else
      var e := LineEnd(b, p);
      var st' := LineStep(st, NoReturns(b[p..e]), h);
      if e == |b| then st' else ParseFrom(b, e + 1, st', h)
  }

  datatype Pair = Pair(name: string, value: string)
  datatype Section = Section(title: string, pairs: seq<Pair>)

  /** No semicolon follows white space. */
  predicate NoComment(s: string) {
    forall k :: 0 < k < |s| && IsSpace(s[k - 1]) ==> s[k] != ';'
  }

  predicate NoneOf(s: string, chars: string) {
    forall k :: 0 <= k < |s| ==> s[k] !in chars
  }

  predicate Plain(s: string) {
    NoneOf(s, "\0\n\r") && NoComment(s)
  }

  predicate Trimmed(s: string) {
    s == "" || (!IsSpace(s[0]) && !IsSpace(s[|s| - 1]))
  }

  predicate PairOk(p: Pair) {
    && Plain(p.name) && Trimmed(p.name) && 0 < |p.name| < NAME_MAX && NoneOf(p.name, "=:")
    && p.name[0] != '[' && p.name[0] != ';' && p.name[0] != '#'
    && Plain(p.value) && Trimmed(p.value)
    && |p.name| + 1 + |p.value| < LINE_MAX
  }

  predicate SectionOk(s: Section) {
    && Plain(s.title) && NoneOf(s.title, "]") && |s.title| < SECTION_MAX
    && forall p :: p in s.pairs ==> PairOk(p)
  }

  function RenderPairs(ps: seq<Pair>): string {
    if ps == [] then "" else ps[0].name + "=" + ps[0].value + "\n" + RenderPairs(ps[1..])
  }

  function Render(ss: seq<Section>): string {
    if ss == [] then "" else "[" + ss[0].title + "]\n" + (RenderPairs(ss[0].pairs) + Render(ss[1..]))
  }

  function PairCalls(title: string, ps: seq<Pair>): seq<Call> {
    if ps == [] then [] else [Call(title, ps[0].name, ps[0].value)] + PairCalls(title, ps[1..])
  }

  function Calls(ss: seq<Section>): seq<Call> {
    if ss == [] then [] else PairCalls(ss[0].title, ss[0].pairs) + Calls(ss[1..])
  }

  lemma RstripTrimmed(s: string)
    requires s == "" || !IsSpace(s[|s| - 1])
    ensures Rstrip(s) == s
  {
  }

  lemma {:induction false} FindStops(s: string, chars: string, space: bool, rest: string)
    requires NoneOf(s, chars) && NoComment(s) && (s != "" && space ==> s[0] != ';')
    requires rest == "" || rest[0] in chars
    ensures FindEnd(s + rest, chars, space) == |s|
    decreases |s|
  {
    if s == "" {
      assert s + rest == rest;
    } else {
      assert (s + rest)[1..] == s[1..] + rest;
      assert s[1..] != "" ==> s[1..][0] == s[1];
      FindStops(s[1..], chars, IsSpace(s[0]), rest);
    }
  }

  /** A section's line opens the section. */
  lemma HeaderParsed(st: State, title: string, h: Handler)
    requires Plain(title) && NoneOf(title, "]") && |title| < SECTION_MAX
    ensures LineStep(st, "[" + title + "]", h) == st.(section := title, prev := "", line := st.line + 1)
  {
    hide Rstrip, Skip, FindEnd, Plain, NoneOf, PairLine;
    HeaderEnds(title);
  }

  lemma HeaderEnds(title: string)
    requires Plain(title) && NoneOf(title, "]")
    ensures var line := "[" + title + "]";
            && Rstrip(line) == line && Skip(line) == line && line != "" && line[0] == '['
            && line[1..] == title + "]" && FindEnd(line[1..], "]", false) == |title| && line[1..][..|title|] == title
  {
    var line := "[" + title + "]";
    RstripTrimmed(line);
    assert line[1..] == title + "]";
    FindStops(title, "]", false, "]");
  }

  /** The value, once nothing in it looks like a comment or can be stripped. */
  lemma ValueParsed(v: string)
    requires Plain(v) && Trimmed(v)
    ensures Rstrip(Skip(v[..FindEnd(v, "", false)])) == v
  {
    FindStops(v, "", false, "");
    assert v + "" == v && v[..|v|] == v;
    assert Skip(v) == v;
    RstripTrimmed(v);
  }

  lemma PairLineParsed(st: State, p: Pair, h: Handler)
    requires PairOk(p)
    ensures PairLine(st, p.name + "=" + p.value, h) == Called(st.(prev := p.name), Call(st.section, p.name, p.value), h)
  {
    hide Rstrip, Skip, FindEnd, Plain, Trimmed, Called;
    var line := p.name + "=" + p.value;
    NameEnds(p);
    ValueParsed(p.value);
    assert line[|p.name| + 1..] == p.value;
  }

  lemma NameEnds(p: Pair)
    requires PairOk(p)
    ensures var line := p.name + "=" + p.value;
            FindEnd(line, "=:", false) == |p.name| < |line| && line[|p.name|] == '=' && line[..|p.name|] == p.name &&
                Rstrip(p.name) == p.name
  {
    assert p.name + "=" + p.value == p.name + ("=" + p.value);
    FindStops(p.name, "=:", false, "=" + p.value);
    RstripTrimmed(p.name);
  }

  lemma NothingStripped(p: Pair)
    requires PairOk(p)
    ensures var line := p.name + "=" + p.value;
            line != "" && line[0] == p.name[0] && Rstrip(line) == line &&
            Skip(line) == line
  {
    var line := p.name + "=" + p.value;
    assert line[0] == p.name[0] && line[|line| - 1] == if p.value == "" then '=' else p.value[|p.value| - 1];
    RstripTrimmed(line);
  }

  /** A pair's line, behind another one, calls the handler with the pair. */
  lemma PairParsed(st: State, p: Pair, h: Handler)
    requires PairOk(p) && st.line > 0
    ensures LineStep(st, p.name + "=" + p.value, h)
            == Called(st.(prev := p.name, line := st.line + 1), Call(st.section, p.name, p.value), h)
  {
    hide Rstrip, Skip, PairLine, Called, HasBom, Plain, Trimmed;
    NothingStripped(p);
    PairLineParsed(st.(line := st.line + 1), p, h);
  }

  /** A line of a file, with its line break. */
  lemma {:induction false} LineFound(b: string, p: nat, line: string)
    requires p + |line| < |b| && b[p..p + |line|] == line && NoneOf(line, "\0\n\r") && b[p + |line|] == '\n'
    ensures LineEnd(b, p) == p + |line|
    decreases |line|
  {
    if line != "" {
      assert b[p] == line[0];
      assert b[p + 1..p + 1 + |line[1..]|] == line[1..];
      LineFound(b, p + 1, line[1..]);
    }
  }

  lemma {:induction false} NoReturnsIn(s: string)
    requires NoneOf(s, "\0\n\r")
    ensures NoReturns(s) == s && '\0' !in s
  {
    if s != "" {
      NoReturnsIn(s[..|s| - 1]);
    }
  }

  /** From `p` on the buffer is read up to `q`, with a change of state. */
  ghost predicate Reads(b: string, p: nat, st: State, q: nat, st': State, h: Handler) {
    && p <= |b| && q <= |b|
    && ParseFrom(b, p, st, h) == ParseFrom(b, q, st', h) && (LinesOk(b, q) ==> LinesOk(b, p))
  }

  /** A line of a file is one step of the parser. */
  lemma LineRead(b: string, p: nat, line: string, st: State, h: Handler)
    requires p + |line| < |b| && b[p..p + |line|] == line && b[p + |line|] == '\n'
    requires NoneOf(line, "\0\n\r") && |line| < LINE_MAX
    ensures Reads(b, p, st, p + |line| + 1, LineStep(st, line, h), h)
  {
    hide LineStep, NoneOf, NoReturns, LineEnd;
    LineFound(b, p, line);
    NoReturnsIn(line);
  }

  /** `s` stands at `p` in the buffer. */
  ghost predicate StandsAt(b: string, p: nat, s: string) {
    p + |s| <= |b| && b[p..p + |s|] == s
  }

  /** Where the parts of a file stand. */
  lemma PartsAt(b: string, p: nat, line: string, rest: string)
    requires StandsAt(b, p, line + "\n" + rest)
    ensures StandsAt(b, p, line) && p + |line| < |b| && b[p + |line|] == '\n' && StandsAt(b, p + |line| + 1, rest)
  {
    var all := line + "\n" + rest;
    assert forall k :: 0 <= k < |all| ==> b[p + k] == b[p..p + |all|][k] == all[k];
    assert forall k :: 0 <= k < |line| ==> b[p + k] == all[k] == line[k];
    assert b[p..p + |line|] == line;
    assert forall k :: 0 <= k < |rest| ==>
           b[p + |line| + 1 + k] == b[p + (|line| + 1 + k)] == all[|line| + 1 + k]
           == rest[k];
    assert b[p + |line| + 1..p + |line| + 1 + |rest|] == rest;
  }

  lemma HalvesAt(b: string, p: nat, x: string, y: string)
    requires StandsAt(b, p, x + y)
    ensures StandsAt(b, p, x) && StandsAt(b, p + |x|, y)
  {
    assert forall k :: 0 <= k < |x + y| ==> b[p + k] == b[p..p + |x + y|][k] == (x + y)[k];
    assert forall k :: 0 <= k < |x| ==> b[p + k] == (x + y)[k] == x[k];
    assert b[p..p + |x|] == x;
    assert forall k :: 0 <= k < |y| ==> b[p + |x| + k] == b[p + (|x| + k)] == (x + y)[|x| + k] == y[k];
    assert b[p + |x|..p + |x| + |y|] == y;
  }

  lemma PairPlain(p: Pair)
    requires PairOk(p)
    ensures NoneOf(p.name + "=" + p.value, "\0\n\r") && |p.name + "=" + p.value| < LINE_MAX
  {
  }

  lemma TitlePlain(title: string)
    requires Plain(title) && |title| < SECTION_MAX
    ensures NoneOf("[" + title + "]", "\0\n\r") && |"[" + title + "]"| < LINE_MAX
  {
  }

  /** The state after the lines of pairs, and of sections. */
  function PairsState(st: State, ps: seq<Pair>, h: Handler): State
    decreases |ps|
  {
    if ps == [] then st
    else PairsState(Called(st.(prev := ps[0].name, line := st.line + 1), Call(st.section, ps[0].name, ps[0].value), h),
                    ps[1..], h)
  }

  function SectionsState(st: State, ss: seq<Section>, h: Handler): State
    decreases |ss|
  {
    if ss == [] then st
    else SectionsState(PairsState(st.(section := ss[0].title, prev := "", line := st.line + 1), ss[0].pairs, h),
                       ss[1..], h)
  }

  lemma RenderOne(ps: seq<Pair>)
    requires ps != []
    ensures RenderPairs(ps) == (ps[0].name + "=" + ps[0].value) + "\n" + RenderPairs(ps[1..])
  {
  }

  lemma ReadsOn(b: string, p: nat, st: State, q: nat, st1: State, r: nat, st2: State, h: Handler)
    requires Reads(b, p, st, q, st1, h) && Reads(b, q, st1, r, st2, h)
    ensures Reads(b, p, st, r, st2, h)
  {
  }

  lemma {:induction false} PairsRead(b: string, p: nat, ps: seq<Pair>, st: State, h: Handler)
    requires (forall x :: x in ps ==> PairOk(x)) && st.line > 0 && StandsAt(b, p, RenderPairs(ps))
    ensures Reads(b, p, st, p + |RenderPairs(ps)|, PairsState(st, ps, h), h)
    decreases |ps|
  {
    hide LineStep, ParseFrom, LinesOk, PairOk, Called, Reads, StandsAt;
    if ps == [] {
      NothingRead(b, p, st, h);
    } else {
      hide RenderPairs;
      var line, rest := ps[0].name + "=" + ps[0].value, RenderPairs(ps[1..]);
      RenderOne(ps);
      PartsAt(b, p, line, rest);
      assert ps[0] in ps;
      PairPlain(ps[0]);
      LineAt(b, p, line, st, h);
      PairParsed(st, ps[0], h);
      CalledLine(st.(prev := ps[0].name, line := st.line + 1), Call(st.section, ps[0].name, ps[0].value), h);
      PairsRead(b, p + |line| + 1, ps[1..], LineStep(st, line, h), h);
      ReadsOn(b, p, st, p + |line| + 1, LineStep(st, line, h), p + |line| + 1 + |rest|, PairsState(st, ps, h), h);
    }
  }

  lemma NothingRead(b: string, p: nat, st: State, h: Handler)
    requires StandsAt(b, p, "")
    ensures Reads(b, p, st, p, st, h)
  {
  }

  lemma LineAt(b: string, p: nat, line: string, st: State, h: Handler)
    requires StandsAt(b, p, line) && p + |line| < |b| && b[p + |line|] == '\n'
    requires NoneOf(line, "\0\n\r") && |line| < LINE_MAX
    ensures Reads(b, p, st, p + |line| + 1, LineStep(st, line, h), h)
  {
    LineRead(b, p, line, st, h);
  }

  lemma CalledLine(st: State, call: Call, h: Handler)
    ensures Called(st, call, h).line == st.line && Called(st, call, h).section == st.section
  {
  }

  lemma {:induction false} PairsStateIs(st: State, ps: seq<Pair>, h: Handler)
    requires st.line > 0
    ensures var st' := PairsState(st, ps, h);
            && st'.section == st.section && st'.line > 0 && st'.calls == st.calls + PairCalls(st.section, ps)
            && (st'.result == 0 <==> st.result == 0 && forall c :: c in PairCalls(st.section, ps) ==> h(c))
    decreases |ps|
  {
    if ps != [] {
      var call := Call(st.section, ps[0].name, ps[0].value);
      PairsStateIs(Called(st.(prev := ps[0].name, line := st.line + 1), call, h), ps[1..], h);
    }
  }

  lemma {:induction false} SectionsRead(b: string, p: nat, ss: seq<Section>, st: State, h: Handler)
    requires (forall s :: s in ss ==> SectionOk(s)) && StandsAt(b, p, Render(ss))
    ensures Reads(b, p, st, p + |Render(ss)|, SectionsState(st, ss, h), h)
    decreases |ss|
  {
    hide LineStep, ParseFrom, LinesOk, PairOk, Called, Reads, StandsAt, RenderPairs, PairsState, Plain;
    if ss == [] {
      NothingRead(b, p, st, h);
    } else {
      hide Render;
      var title, ps, rest := ss[0].title, ss[0].pairs, Render(ss[1..]);
      var line, q := "[" + title + "]", p + |"[" + title + "]"| + 1;
      assert ss[0] in ss;
      RenderHead(ss);
      PartsAt(b, p, line, RenderPairs(ps) + rest);
      HalvesAt(b, q, RenderPairs(ps), rest);
      TitlePlain(title);
      LineAt(b, p, line, st, h);
      HeaderParsed(st, title, h);
      var st1 := LineStep(st, line, h);
      PairsRead(b, q, ps, st1, h);
      SectionsRead(b, q + |RenderPairs(ps)|, ss[1..], PairsState(st1, ps, h), h);
      ReadsOn(b, p, st, q, st1, q + |RenderPairs(ps)|, PairsState(st1, ps, h), h);
      ReadsOn(b, p, st, q + |RenderPairs(ps)|, PairsState(st1, ps, h), p + |Render(ss)|, SectionsState(st, ss, h), h);
    }
  }

  lemma RenderHead(ss: seq<Section>)
    requires ss != []
    ensures Render(ss) == ("[" + ss[0].title + "]") + "\n" + (RenderPairs(ss[0].pairs) + Render(ss[1..]))
  {
    assert "[" + ss[0].title + "]\n" == ("[" + ss[0].title + "]") + "\n";
  }

  lemma {:induction false} SectionsStateIs(st: State, ss: seq<Section>, h: Handler)
    ensures var st' := SectionsState(st, ss, h);
            && st'.calls == st.calls + Calls(ss)
            && (st'.result == 0 <==> st.result == 0 && forall c :: c in Calls(ss) ==> h(c))
    decreases |ss|
  {
    if ss != [] {
      var st1 := st.(section := ss[0].title, prev := "", line := st.line + 1);
      PairsStateIs(st1, ss[0].pairs, h);
      SectionsStateIs(PairsState(st1, ss[0].pairs, h), ss[1..], h);
    }
  }

  /** A written file is read back: the handler gets every pair, in order, with its section, and the
      result is success exactly if it accepts them all. */
  lemma RoundTrip(ss: seq<Section>, h: Handler)
    requires forall s :: s in ss ==> SectionOk(s)
    ensures LinesOk(Render(ss), 0) && ParseFrom(Render(ss), 0, START, h).calls == Calls(ss)
    ensures ParseFrom(Render(ss), 0, START, h).result == 0 <==> forall c :: c in Calls(ss) ==> h(c)
  {
    hide LineStep, Render, SectionsState, SectionOk;
    assert StandsAt(Render(ss), 0, Render(ss));
    SectionsRead(Render(ss), 0, ss, START, h);
    SectionsStateIs(START, ss, h);
  }

  lemma NoReturnsMore(s: string, c: char)
    ensures NoReturns(s + [c]) == NoReturns(s) + if c == '\r' then "" else [c]
  {
    assert (s + [c])[..|s|] == s;
  }

  lemma NoReturnsNone()
    ensures NoReturns("") == ""
  {
  }

  lemma SkipOne(s: string, k: nat)
    requires k <= |s|
    ensures Skip(s[k..]) == if k < |s| && IsSpace(s[k]) then Skip(s[k + 1..]) else s[k..]
  {
    if k < |s| {
      assert s[k..][1..] == s[k + 1..];
    }
  }

  lemma RstripOne(s: string, k: nat)
    requires k <= |s|
    ensures Rstrip(s[..k]) == if k > 0 && IsSpace(s[k - 1]) then Rstrip(s[..k - 1]) else s[..k]
  {
    if k > 0 {
      assert s[..k][..k - 1] == s[..k - 1];
    }
  }

  lemma FindOne(s: string, k: nat, chars: string, space: bool)
    requires k <= |s|
    ensures FindEnd(s[k..], chars, space)
            == if k == |s| || s[k] in chars || (space && s[k] == ';') then 0
               else 1 + FindEnd(s[k + 1..], chars, IsSpace(s[k]))
  {
    if k < |s| {
      assert s[k..][1..] == s[k + 1..];
    }
  }

  lemma {:induction false} NoReturnsShorter(s: string)
    ensures |NoReturns(s)| <= |s| && forall c :: c in NoReturns(s) ==> c in s
  {
    if s != "" {
      NoReturnsShorter(s[..|s| - 1]);
    }
  }
}
