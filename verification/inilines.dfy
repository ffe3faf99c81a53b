/** INI files with all that `libs/core/ini.c` takes: comments on lines of their own and behind values,
    both delimiters, white space, values continued on further lines, and broken lines. */
module IniLines {
  import opened Wrappers
  import opened IniSpec

  /** White space inside a line: space, tab, vertical tab, form feed. */
  predicate White(c: char) { c == ' ' || c == '\t' || c == 11 as char || c == 12 as char }

  predicate AllWhite(s: string) {
    forall k :: 0 <= k < |s| ==> White(s[k])
  }

  /** With the line break and the carriage return these are all. */
  lemma WhiteIs(c: char)
    ensures IsSpace(c) <==> White(c) || c == '\n' || c == '\r'
  {
  }

  /** What a line may hold: no NUL, no line break. */
  predicate InLine(s: string) {
    forall k :: 0 <= k < |s| ==> s[k] != '\0' && s[k] != '\n' && s[k] != '\r'
  }

  /** No white space at the ends, and no semicolon behind white space. */
  predicate Solid(s: string) {
    && InLine(s) && (s == "" || (!White(s[0]) && !White(s[|s| - 1])))
    && forall k :: 0 < k < |s| && White(s[k - 1]) ==> s[k] != ';'
  }

  datatype Line =
    | Empty(space: string)
    | Comment(space: string, mark: char, text: string)
    | Header(space: string, title: string, after: string)
    | Value(space: string, name: string, gap: string, mark: char, lead: string, value: string, after: string,
            note: string)
    | More(space: string, value: string, after: string)
    | Broken(space: string, text: string)

  function TextOf(l: Line): string {
    match l
    case Empty(space) => space
    case Comment(space, mark, text) => space + ([mark] + text)
    case Header(space, title, after) => space + ("[" + title + "]" + after)
    case Value(space, name, gap, mark, lead, value, after, note) =>
      space + (name + gap + [mark] + (lead + value + after + note))
    case More(space, value, after) => space + (value + after)
    case Broken(space, text) => space + text
  }

  /** The lines of a file, given the last name if a value can be continued. */
  predicate LineOk(l: Line, prev: string) {
    && InLine(TextOf(l)) && |TextOf(l)| < LINE_MAX && (TextOf(l) != "" ==> TextOf(l)[0] != 0xEF as char)
    && match l
       case Empty(space) => AllWhite(space)
       case Comment(space, mark, _) => AllWhite(space) && (mark == ';' || mark == '#')
       case Header(space, title, after) =>
         && AllWhite(space) && (space == "" || prev == "") && |title| < SECTION_MAX
         && (forall k :: 0 <= k < |title| ==> title[k] != ']')
         && (forall k :: 0 < k < |title| && White(title[k - 1]) ==> title[k] != ';')
       case Value(space, name, gap, mark, lead, value, after, note) =>
         && AllWhite(space) && (space == "" || prev == "") && AllWhite(gap) && AllWhite(lead) && AllWhite(after)
         && Solid(name) && 0 < |name| < NAME_MAX && name[0] != '[' && name[0] != ';' && name[0] != '#'
         && (forall k :: 0 <= k < |name| ==> name[k] != '=' && name[k] != ':') && (mark == '=' || mark == ':')
         && Solid(value) && (value != "" && value[0] == ';' ==> lead == "")
         && (note == "" || (note[0] == ';' && after != ""))
       case More(space, value, after) =>
         && AllWhite(space) && space != "" && prev != "" && AllWhite(after)
         && value != "" && value[0] != ';' && value[0] != '#' && !White(value[0]) && !White(value[|value| - 1])
       case Broken(space, text) =>
         && AllWhite(space) && (space == "" || prev == "") && text != "" && !White(text[0]) && !White(text[|text| - 1])
         && text[0] != ';' && text[0] != '#'
         && forall k :: 0 <= k < |text| ==> text[k] != '=' && text[k] != ':' && text[k] != ']'
  }

  // what a line has come to: a call, or nothing where it is broken
  datatype Event = Event(line: nat, call: Option<Call>)
  // section, name to be continued, number of lines that are not empty, and what they have come to
  datatype Seen = Seen(section: string, prev: string, line: nat, events: seq<Event>)

  function See(v: Seen, l: Line): Seen {
    var n := v.line + 1;
    match l
    case Empty(space) => if space == "" then v else v.(line := n)
    case Comment(_, _, _) => v.(line := n)
    case Header(_, title, _) => v.(section := title, prev := "", line := n)
    case Value(_, name, _, _, _, value, _, _) =>
      v.(prev := name, line := n, events := v.events + [Event(n, Some(Call(v.section, name, value)))])
    case More(_, value, _) => v.(line := n, events := v.events + [Event(n, Some(Call(v.section, v.prev, value)))])
    case Broken(_, _) => v.(line := n, events := v.events + [Event(n, None)])
  }

  function CallsOf(es: seq<Event>): seq<Call> {
    if es == [] then []
    else CallsOf(es[..|es| - 1]) + if es[|es| - 1].call.Some? then [es[|es| - 1].call.value] else []
  }

  /** The first line that is broken or that the handler refuses, or 0. */
  function FirstBad(es: seq<Event>, h: Handler): nat {
    if es == [] then 0
    else if es[0].call.None? || !h(es[0].call.value) then es[0].line else FirstBad(es[1..], h)
  }

  ghost predicate Matches(st: State, v: Seen, h: Handler) {
    && st.section == v.section && st.prev == v.prev && st.line == v.line
    && st.calls == CallsOf(v.events) && st.result == FirstBad(v.events, h)
    && forall k :: 0 <= k < |v.events| ==> v.events[k].line > 0
  }

  lemma {:induction false} OneBadMore(es: seq<Event>, e: Event, h: Handler)
    requires forall k :: 0 <= k < |es| ==> es[k].line > 0
    ensures FirstBad(es + [e], h)
            == if FirstBad(es, h) != 0 then FirstBad(es, h)
               else if e.call.None? || !h(e.call.value) then e.line else 0
  {
    if es == [] {
      assert [e][1..] == [];
    } else {
      assert (es + [e])[1..] == es[1..] + [e];
      OneBadMore(es[1..], e, h);
    }
  }

  lemma OneCallMore(es: seq<Event>, e: Event)
    ensures CallsOf(es + [e]) == CallsOf(es) + if e.call.Some? then [e.call.value] else []
  {
    assert (es + [e])[..|es|] == es;
  }

  /** One event more, and what the parser makes of it. */
  lemma EventSeen(st: State, v: Seen, call: Option<Call>, prev: string, h: Handler)
    requires Matches(st, v, h)
    ensures var n := v.line + 1;
            var st1 := st.(line := n, prev := prev);
            Matches(if call.Some? then Called(st1, call.value, h) else Failed(st1),
                    v.(prev := prev, line := n, events := v.events + [Event(n, call)]), h)
  {
    hide CallsOf, FirstBad;
    OneBadMore(v.events, Event(v.line + 1, call), h);
    OneCallMore(v.events, Event(v.line + 1, call));
  }

  // --- white space around

  lemma {:induction false} SkipWhite(space: string, s: string)
    requires AllWhite(space) && (s == "" || !IsSpace(s[0]))
    ensures Skip(space + s) == s
  {
    if space == "" {
      assert space + s == s;
    } else {
      WhiteIs(space[0]);
      assert (space + s)[1..] == space[1..] + s;
      SkipWhite(space[1..], s);
    }
  }

  lemma {:induction false} StripWhite(s: string, space: string)
    requires AllWhite(space) && (s == "" || !IsSpace(s[|s| - 1]))
    ensures Rstrip(s + space) == s
  {
    var all := s + space;
    if space == "" {
      assert all == s;
    } else {
      WhiteIs(space[|space| - 1]);
      assert all[..|all| - 1] == s + space[..|space| - 1];
      StripWhite(s, space[..|space| - 1]);
    }
  }

  /** What stands before the last character that is not white stays. */
  lemma {:induction false} StripBehind(a: string, b: string)
    requires a != "" && !IsSpace(a[|a| - 1])
    ensures Rstrip(a + b) == a + Rstrip(b)
    decreases |b|
  {
    var all := a + b;
    if b == "" {
      assert all == a;
    } else if IsSpace(b[|b| - 1]) {
      assert all[..|all| - 1] == a + b[..|b| - 1];
      StripBehind(a, b[..|b| - 1]);
    }
  }

  /** The white space that a comment follows. */
  lemma {:induction false} FindNote(s: string, space: bool, note: string)
    requires s != "" && IsSpace(s[|s| - 1]) && NoComment(s) && (space ==> s[0] != ';')
    requires note != "" && note[0] == ';'
    ensures FindEnd(s + note, "", space) == |s|
    decreases |s|
  {
    assert (s + note)[1..] == s[1..] + note;
    if |s| == 1 {
      assert s[1..] + note == note;
    } else {
      assert s[1..][0] == s[1];
      FindNote(s[1..], IsSpace(s[0]), note);
    }
  }

  lemma SolidNoComment(s: string)
    requires Solid(s)
    ensures NoComment(s) && NoneOf(s, "\0\n\r") && (s != "" ==> !IsSpace(s[0]) && !IsSpace(s[|s| - 1]))
  {
    forall k | 0 <= k < |s|
      ensures IsSpace(s[k]) <==> White(s[k])
    {
      WhiteIs(s[k]);
    }
  }

  lemma WhiteAround(lead: string, s: string, after: string)
    requires AllWhite(lead) && AllWhite(after) && Solid(s) && (s != "" && s[0] == ';' ==> lead == "")
    ensures NoComment(lead + s + after)
  {
    SolidNoComment(s);
    var all := lead + s + after;
    forall k | 0 < k < |all| && IsSpace(all[k - 1])
      ensures all[k] != ';'
    {
      if |lead| < k < |lead| + |s| {
        assert all[k] == s[k - |lead|] && all[k - 1] == s[k - |lead| - 1];
      }
    }
  }

  // --- the lines, one by one

  lemma NoBom(line: string)
    requires line != "" && line[0] != 0xEF as char
    ensures !HasBom(line)
  {
  }

  lemma StepOf(st: State, line: string, space: string, s: string, h: Handler)
    requires line != "" && line[0] != 0xEF as char && AllWhite(space) && Rstrip(line) == space + s
    requires s == "" || !IsSpace(s[0])
    ensures LineStep(st, line, h) == Content(st.(line := st.line + 1), s, space != "", h)
  {
    hide Rstrip, Skip, Content, HasBom, AllWhite, IsSpace;
    NoBom(line);
    SkipWhite(space, s);
    assert |space + s| == |space| + |s|;
  }

  lemma EmptySeen(st: State, v: Seen, l: Line, h: Handler)
    requires Matches(st, v, h) && LineOk(l, v.prev) && l.Empty?
    ensures Matches(LineStep(st, TextOf(l), h), See(v, l), h)
  {
    hide Rstrip, Skip, SectionLine, PairLine, CallsOf, FirstBad, LineStep;
    if l.space != "" {
      StripWhite("", l.space);
      assert "" + l.space == l.space && "" + "" == "";
      StepOf(st, l.space, "", "", h);
    } else {
      NoStep(st, h);
    }
  }

  lemma NoStep(st: State, h: Handler)
    ensures LineStep(st, "", h) == st
  {
  }

  lemma CommentSeen(st: State, v: Seen, l: Line, h: Handler)
    requires Matches(st, v, h) && LineOk(l, v.prev) && l.Comment?
    ensures Matches(LineStep(st, TextOf(l), h), See(v, l), h)
  {
    hide Rstrip, Skip, SectionLine, PairLine, LineStep, CallsOf, FirstBad;
    var line, s := TextOf(l), [l.mark] + Rstrip(l.text);
    assert line == l.space + [l.mark] + l.text;
    StripBehind(l.space + [l.mark], l.text);
    assert l.space + [l.mark] + Rstrip(l.text) == l.space + s;
    StepOf(st, line, l.space, s, h);
  }

  lemma HeaderSeen(st: State, v: Seen, l: Line, h: Handler)
    requires Matches(st, v, h) && LineOk(l, v.prev) && l.Header?
    ensures Matches(LineStep(st, TextOf(l), h), See(v, l), h)
  {
    hide Rstrip, Skip, PairLine, LineStep, CallsOf, FirstBad, FindEnd;
    var head := l.space + "[" + l.title + "]";
    assert TextOf(l) == head + l.after;
    StripBehind(head, l.after);
    var s := "[" + l.title + "]" + Rstrip(l.after);
    assert head + Rstrip(l.after) == l.space + s;
    StepOf(st, TextOf(l), l.space, s, h);
    TitleNoComment(l.title, l.space, l.after);
    var rest := s[1..];
    assert rest == l.title + ("]" + Rstrip(l.after));
    FindStops(l.title, "]", false, "]" + Rstrip(l.after));
    assert rest[..|l.title|] == l.title && rest[|l.title|] == ']';
  }

  lemma TitleNoComment(title: string, space: string, after: string)
    requires InLine(space + ("[" + title + "]" + after)) && (forall k :: 0 <= k < |title| ==> title[k] != ']')
    requires forall k :: 0 < k < |title| && White(title[k - 1]) ==> title[k] != ';'
    ensures NoneOf(title, "]") && NoComment(title)
  {
    var all := space + ("[" + title + "]" + after);
    forall k | 0 <= k < |title|
      ensures IsSpace(title[k]) <==> White(title[k])
    {
      assert title[k] == all[|space| + 1 + k];
      WhiteIs(title[k]);
    }
  }

  lemma MoreSeen(st: State, v: Seen, l: Line, h: Handler)
    requires Matches(st, v, h) && LineOk(l, v.prev) && l.More?
    ensures Matches(LineStep(st, TextOf(l), h), See(v, l), h)
  {
    hide Rstrip, Skip, SectionLine, PairLine, LineStep, CallsOf, FirstBad, Called;
    var s := l.space + l.value;
    EndsInLine(l.space, l.value, l.after);
    assert TextOf(l) == s + l.after;
    StripWhite(s, l.after);
    StepOf(st, TextOf(l), l.space, l.value, h);
    EventSeen(st, v, Some(Call(v.section, v.prev, l.value)), v.prev, h);
  }

  lemma EndsInLine(space: string, s: string, after: string)
    requires InLine(space + (s + after)) && s != ""
    ensures IsSpace(s[0]) <==> White(s[0])
    ensures IsSpace(s[|s| - 1]) <==> White(s[|s| - 1])
  {
    var all := space + (s + after);
    assert s[0] == all[|space|] && s[|s| - 1] == all[|space| + |s| - 1];
    WhiteIs(s[0]);
    WhiteIs(s[|s| - 1]);
  }

  lemma BrokenSeen(st: State, v: Seen, l: Line, h: Handler)
    requires Matches(st, v, h) && LineOk(l, v.prev) && l.Broken?
    ensures Matches(LineStep(st, TextOf(l), h), See(v, l), h)
  {
    hide Rstrip, Skip, LineStep, CallsOf, FirstBad, FindEnd;
    var s := l.text;
    assert s + "" == s;
    EndsInLine(l.space, s, "");
    StripWhite(l.space + s, "");
    assert l.space + s + "" == TextOf(l) == l.space + s;
    StepOf(st, TextOf(l), l.space, s, h);
    EventSeen(st, v, None, v.prev, h);
  }

  // --- a name with a value

  /** The name, with what is before the delimiter. */
  lemma NameSeen(name: string, gap: string, mark: char, rest: string)
    requires Solid(name) && name != "" && AllWhite(gap) && (mark == '=' || mark == ':')
    requires forall k :: 0 <= k < |name| ==> name[k] != '=' && name[k] != ':'
    ensures var s := name + gap + [mark] + rest;
            && FindEnd(s, "=:", false) == |name + gap| < |s| && s[|name + gap|] == mark
            && Rstrip(s[..|name + gap|]) == name && s[|name + gap| + 1..] == rest
  {
    hide FindEnd, Rstrip;
    var before, s := name + gap, name + gap + [mark] + rest;
    SolidNoComment(name);
    assert "" + name + gap == before;
    WhiteAround("", name, gap);
    assert s == before + ([mark] + rest);
    FindStops(before, "=:", false, [mark] + rest);
    StripWhite(name, gap);
    assert s[..|before|] == before;
  }

  /** The value, with white space around and a comment behind, or not. */
  lemma ValueSeen(lead: string, value: string, after: string, note: string)
    requires AllWhite(lead) && AllWhite(after) && Solid(value) && (value != "" && value[0] == ';' ==> lead == "")
    requires note == "" || (note[0] == ';' && after != "")
    ensures var rest := Rstrip(lead + value + after + note);
            Rstrip(Skip(rest[..FindEnd(rest, "", false)])) == value
  {
    hide FindEnd, Rstrip, Skip;
    var all := lead + value + after;
    WhiteAround(lead, value, after);
    SolidNoComment(value);
    if note == "" {
      assert all + note == all;
      PlainValue(lead, value, after);
    } else {
      var tail := [note[0]] + Rstrip(note[1..]);
      assert all + note == (all + [note[0]]) + note[1..];
      StripBehind(all + [note[0]], note[1..]);
      assert (all + [note[0]]) + Rstrip(note[1..]) == all + tail;
      WhiteIs(after[|after| - 1]);
      assert all[|all| - 1] == after[|after| - 1];
      FirstOfAll(lead, value, after);
      FindNote(all, false, tail);
      assert (all + tail)[..|all|] == all;
      SkipWhiteValue(lead, value, after);
    }
  }

  lemma FirstOfAll(lead: string, value: string, after: string)
    ensures lead + value + after == lead + (value + after)
  {
  }

  /** Without white space around. */
  lemma SkipWhiteValue(lead: string, value: string, after: string)
    requires AllWhite(lead) && AllWhite(after) && Solid(value)
    ensures Rstrip(Skip(lead + value + after)) == value
  {
    hide Rstrip, Skip;
    SolidNoComment(value);
    FirstOfAll(lead, value, after);
    if value == "" {
      assert lead + (value + after) == (lead + after) + "";
      SkipWhite(lead + after, "");
      assert "" + "" == "";
      StripWhite("", "");
    } else {
      SkipWhite(lead, value + after);
      StripWhite(value, after);
    }
  }

  lemma PlainValue(lead: string, value: string, after: string)
    requires AllWhite(lead) && AllWhite(after) && Solid(value) && NoComment(lead + value + after)
    ensures var rest := Rstrip(lead + value + after);
            Rstrip(Skip(rest[..FindEnd(rest, "", false)])) == value
  {
    hide Rstrip, Skip, FindEnd, Solid;
    var all := lead + value + after;
    SolidNoComment(value);
    if value == "" {
      assert all == "" + (lead + after);
      StripWhite("", lead + after);
      NothingFound();
    } else {
      StripWhite(lead + value, after);
      PartNoComment(lead + value, after);
      WholeFound(lead, value);
    }
  }

  lemma PartNoComment(s: string, after: string)
    requires NoComment(s + after)
    ensures NoComment(s)
  {
    assert forall k :: 0 <= k < |s| ==> s[k] == (s + after)[k];
  }

  lemma NothingFound()
    ensures Rstrip(Skip(""[..FindEnd("", "", false)])) == ""
  {
  }

  lemma WholeFound(lead: string, value: string)
    requires AllWhite(lead) && Solid(value) && NoComment(lead + value)
    ensures var rest := lead + value; Rstrip(Skip(rest[..FindEnd(rest, "", false)])) == value
  {
    hide Rstrip, Skip, FindEnd, Solid, NoComment, AllWhite;
    var rest := lead + value;
    FindAll(rest);
    assert rest + "" == rest;
    NoWhite();
    SkipWhiteValue(lead, value, "");
  }

  lemma NoWhite()
    ensures AllWhite("")
  {
  }

  lemma FindAll(s: string)
    requires NoComment(s)
    ensures s[..FindEnd(s, "", false)] == s
  {
    assert s + "" == s && s[..|s|] == s;
    FindStops(s, "", false, "");
  }

  /** Where the parts of a pair's line are, without white space at its ends. */
  lemma PairText(l: Line, prev: string)
    requires LineOk(l, prev) && l.Value?
    ensures var s := l.name + l.gap + [l.mark] + Rstrip(l.lead + l.value + l.after + l.note);
            Rstrip(TextOf(l)) == l.space + s && s[0] == l.name[0] && !IsSpace(s[0])
  {
    hide Rstrip;
    var head, behind := l.name + l.gap + [l.mark], l.lead + l.value + l.after + l.note;
    assert TextOf(l) == (l.space + head) + behind;
    assert (l.space + head)[|l.space + head| - 1] == l.mark;
    StripBehind(l.space + head, behind);
    var s := head + Rstrip(behind);
    assert (l.space + head) + Rstrip(behind) == l.space + s;
    SolidNoComment(l.name);
  }

  lemma ValueParts(l: Line, prev: string)
    requires LineOk(l, prev) && l.Value?
    ensures Solid(l.name) && 0 < |l.name| < NAME_MAX && l.name[0] != '[' && l.name[0] != ';' && l.name[0] != '#'
    ensures AllWhite(l.space) && AllWhite(l.gap) && AllWhite(l.lead) && AllWhite(l.after) && Solid(l.value)
    ensures (l.mark == '=' || l.mark == ':') && forall k :: 0 <= k < |l.name| ==> l.name[k] != '=' && l.name[k] != ':'
    ensures l.value != "" && l.value[0] == ';' ==> l.lead == ""
    ensures l.note == "" || (l.note[0] == ';' && l.after != "")
    ensures (l.space != "" ==> prev == "") && TextOf(l) != "" && TextOf(l)[0] != 0xEF as char
  {
  }

  lemma PairSeen(st: State, v: Seen, l: Line, h: Handler)
    requires Matches(st, v, h) && LineOk(l, v.prev) && l.Value?
    ensures Matches(LineStep(st, TextOf(l), h), See(v, l), h)
  {
    hide Rstrip, Skip, LineStep, FindEnd, Called, Matches, LineOk, Content, Solid, AllWhite, TextOf;
    var rest := Rstrip(l.lead + l.value + l.after + l.note);
    var s := l.name + l.gap + [l.mark] + rest;
    ValueParts(l, v.prev);
    PairText(l, v.prev);
    StepOf(st, TextOf(l), l.space, s, h);
    NameSeen(l.name, l.gap, l.mark, rest);
    ValueSeen(l.lead, l.value, l.after, l.note);
    SameCounts(st, v, h);
    PairStep(st.(line := st.line + 1), s, l.name, l.gap, rest, l.value, l.space != "", h);
    EventSeen(st, v, Some(Call(v.section, l.name, l.value)), l.name, h);
  }

  lemma SameCounts(st: State, v: Seen, h: Handler)
    requires Matches(st, v, h)
    ensures st.section == v.section && st.prev == v.prev && st.line == v.line
  {
  }

  /** The call for a name and a value, once their places are known. */
  lemma PairStep(st: State, s: string, name: string, gap: string, rest: string, value: string, moved: bool, h: Handler)
    requires |name| > 0 && s != "" && s[0] == name[0] && name[0] != '[' && name[0] != ';' && name[0] != '#'
    requires (moved ==> st.prev == "") && |name| < NAME_MAX
    requires var e := FindEnd(s, "=:", false);
             && e == |name + gap| < |s| && (s[e] == '=' || s[e] == ':') && Rstrip(s[..e]) == name && s[e + 1..] == rest
    requires Rstrip(Skip(rest[..FindEnd(rest, "", false)])) == value
    ensures Content(st, s, moved, h) == Called(st.(prev := name), Call(st.section, name, value), h)
  {
    hide FindEnd, Rstrip, Skip, Called, SectionLine;
  }

  /** A line of whatever kind. */
  lemma LineSeen(st: State, v: Seen, l: Line, h: Handler)
    requires Matches(st, v, h) && LineOk(l, v.prev)
    ensures Matches(LineStep(st, TextOf(l), h), See(v, l), h)
  {
    hide Matches, LineOk, LineStep, TextOf, See;
    match l
    case Empty(_) => EmptySeen(st, v, l, h);
    case Comment(_, _, _) => CommentSeen(st, v, l, h);
    case Header(_, _, _) => HeaderSeen(st, v, l, h);
    case Value(_, _, _, _, _, _, _, _) => PairSeen(st, v, l, h);
    case More(_, _, _) => MoreSeen(st, v, l, h);
    case Broken(_, _) => BrokenSeen(st, v, l, h);
  }

  // --- a file

  function FileOf(ls: seq<Line>): string {
    if ls == [] then "" else TextOf(ls[0]) + "\n" + FileOf(ls[1..])
  }

  function SeeAll(v: Seen, ls: seq<Line>): Seen
    decreases |ls|
  {
    if ls == [] then v else SeeAll(See(v, ls[0]), ls[1..])
  }

  predicate FileOk(v: Seen, ls: seq<Line>)
    decreases |ls|
  {
    ls == [] || (LineOk(ls[0], v.prev) && FileOk(See(v, ls[0]), ls[1..]))
  }

  lemma InLineNoneOf(l: Line, prev: string)
    requires LineOk(l, prev)
    ensures NoneOf(TextOf(l), "\0\n\r") && |TextOf(l)| < LINE_MAX
  {
    hide TextOf;
  }

  lemma {:induction false} FileSeen(b: string, p: nat, st: State, v: Seen, ls: seq<Line>, h: Handler)
      returns (st': State)
    requires Matches(st, v, h) && FileOk(v, ls) && StandsAt(b, p, FileOf(ls))
    ensures Reads(b, p, st, p + |FileOf(ls)|, st', h) && Matches(st', SeeAll(v, ls), h)
    decreases |ls|
  {
    hide Matches, LineOk, LineStep, TextOf, See, Reads, StandsAt;
    st' := st;
    if ls == [] {
      NothingRead(b, p, st, h);
    } else {
      var line, rest := TextOf(ls[0]), FileOf(ls[1..]);
      PartsAt(b, p, line, rest);
      InLineNoneOf(ls[0], v.prev);
      LineAt(b, p, line, st, h);
      LineSeen(st, v, ls[0], h);
      st' := FileSeen(b, p + |line| + 1, LineStep(st, line, h), See(v, ls[0]), ls[1..], h);
      ReadsOn(b, p, st, p + |line| + 1, LineStep(st, line, h), p + |line| + 1 + |rest|, st', h);
    }
  }

  /** A file of lines of all kinds: the handler gets the values in order, each with its section and its
      name, and the result is the number of the first line that is broken or that it refuses. */
  lemma FileParsed(ls: seq<Line>, h: Handler)
    requires FileOk(Seen("", "", 0, []), ls)
    ensures var st, v := ParseFrom(FileOf(ls), 0, START, h), SeeAll(Seen("", "", 0, []), ls);
            LinesOk(FileOf(ls), 0) && st.calls == CallsOf(v.events) && st.result == FirstBad(v.events, h)
  {
    hide FileOf, FileOk, SeeAll, LineStep, CallsOf, FirstBad;
    assert StandsAt(FileOf(ls), 0, FileOf(ls));
    StartMatches(h);
    var st := FileSeen(FileOf(ls), 0, START, Seen("", "", 0, []), ls, h);
  }

  lemma StartMatches(h: Handler)
    ensures Matches(START, Seen("", "", 0, []), h)
  {
  }

  /** A byte order mark at the start of the first line is passed over. */
  lemma BomSkipped(s: string, h: Handler)
    requires s != "" && !HasBom(s)
    ensures LineStep(START, [0xEF as char, 0xBB as char, 0xBF as char] + s, h) == LineStep(START, s, h)
  {
    hide Rstrip, Skip, Content;
    var bom := [0xEF as char, 0xBB as char, 0xBF as char];
    assert (bom + s)[3..] == s;
    var st, t := START.(line := 1), Skip(Rstrip(s));
    SameContent(st, t, true, |t| < |Rstrip(s)|, h);
  }

  /** Without a name to be continued it does not matter where a line starts. */
  lemma SameContent(st: State, s: string, moved: bool, moved': bool, h: Handler)
    requires st.prev == ""
    ensures Content(st, s, moved, h) == Content(st, s, moved', h)
  {
    hide SectionLine, PairLine, Called;
  }
}
