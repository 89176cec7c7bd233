/** Printing INI documents and reading them back. */
module IniPrint {
  import opened IniText

  datatype Item =
    | Blank(indent: string)
    | Remark(indent: string, remark: string)
    | Heading(indent: string, section: string, junk: string)
    | Setting(indent: string, name: string, gap: string, sep: char, before: string, value: string, after: string,
        remark: string)

  predicate Clean(s: string) {
    '\n' !in s
  }

  predicate Spaces(s: string) {
    AllSpace(s) && Clean(s)
  }

  predicate Trimmed(s: string) {
    s != [] ==> !IsSpace(s[0]) && !IsSpace(s[|s| - 1])
  }

  predicate NoStop(s: string, chars: string) {
    forall k :: 0 <= k < |s| ==> !Stops(s, k, chars)
  }

  predicate IsSection(s: string) {
    Clean(s) && NoStop(s, "]") && |s| <= SECTION_ROOM
  }

  predicate IsName(s: string) {
    Clean(s) && Trimmed(s) && NoStop(s, "=:") && (s != [] ==> s[0] !in "[;#")
  }

  predicate IsValue(s: string) {
    Clean(s) && Trimmed(s) && NoStop(s, "")
  }

  /** A line as it is printed, without its newline. */
  function Body(item: Item): string {
    match item
    case Blank(indent) => indent
    case Remark(indent, remark) => indent + remark
    case Heading(indent, section, junk) => indent + ("[" + section + "]" + junk)
    case Setting(indent, name, gap, sep, before, value, after, remark) =>
      indent + ((name + gap + [sep]) + (before + value + after + remark))
  }

  /** The tokens are clean, only white space stands around them, and a remark on a setting's line is told from the value
      by a white space. The body of a line fits into the buffer. */
  predicate IsItem(item: Item) {
    && |Body(item)| <= LINE_ROOM
    && Spaces(item.indent)
    && match item
       case Blank(_) => true
       case Remark(_, remark) => Clean(remark) && remark != [] && remark[0] in ";#"
       case Heading(_, section, junk) => IsSection(section) && Clean(junk)
       case Setting(_, name, gap, sep, before, value, after, remark) =>
         && IsName(name) && IsValue(value) && sep in "=:"
         && Spaces(gap) && Spaces(before) && Spaces(after)
         && (name == [] ==> gap == [])
         && (before != [] && value != [] ==> value[0] != ';')
         && Clean(remark) && (remark != [] ==> after != [] && remark[0] == ';')
  }

  function Says(item: Item): Content {
    match item
    case Blank(_) => Nothing
    case Remark(_, _) => Nothing
    case Heading(_, section, _) => Section(section)
    case Setting(_, name, _, _, _, value, _, _) => Pair(name, value)
  }

  // ---- one line ----

  lemma RStripKeeps(a: string, x: string)
    requires a != [] ==> !IsSpace(a[|a| - 1])
    ensures RStrip(a + x) == a + RStrip(x)
  {
    var r := RStrip(x);
    assert a + x == (a + r) + x[|r|..];
    RStripIs(a + r, x[|r|..]);
  }

  /** Indentation goes, and what is behind it is stripped at its end. */
  lemma Indented(indent: string, a: string, x: string)
    requires AllSpace(indent) && a != [] && !IsSpace(a[0]) && !IsSpace(a[|a| - 1])
    ensures LSkip(RStrip(indent + (a + x))) == a + RStrip(x)
  {
    assert indent + (a + x) == (indent + a) + x;
    RStripKeeps(indent + a, x);
    assert (indent + a) + RStrip(x) == indent + (a + RStrip(x));
    LSkipIs(indent, a + RStrip(x));
  }

  lemma OnlySpaces(s: string)
    requires AllSpace(s)
    ensures RStrip(s) == [] && LSkip(RStrip(s)) == []
  {
    assert [] + s == s;
    RStripIs([], s);
  }

  lemma TrimmedCore(head: string, core: string, tail: string)
    requires AllSpace(head) && AllSpace(tail) && Trimmed(core)
    ensures RStrip(LSkip(head + core + tail)) == core
  {
    if core == [] {
      assert head + core + tail == (head + tail) + [];
      LSkipIs(head + tail, []);
      OnlySpaces([]);
    } else {
      assert head + core + tail == head + (core + tail);
      LSkipIs(head, core + tail);
      RStripIs(core, tail);
    }
  }

  lemma HeadingRead(section: string, tail: string)
    requires NoStop(section, "]") && |section| <= SECTION_ROOM
    ensures SectionOf("[" + section + "]" + tail) == Section(section)
  {
    var t := "[" + section + "]" + tail;
    assert t[1..] == section + "]" + tail;
    forall i | 0 <= i < |section| ensures !Stops(t[1..], i, "]") {
      assert !Stops(section, i, "]");
    }
    FindIff(t[1..], "]", |section|);
    assert t[1..1 + |section|] == section;
  }

  lemma ValueRead(before: string, value: string, after: string, remark: string)
    requires IsValue(value) && Spaces(before) && Spaces(after)
    requires before != [] && value != [] ==> value[0] != ';'
    requires remark != [] ==> after != [] && remark[0] == ';'
    ensures ValueOf(before + value + after + remark) == value
  {
    var v := before + value + after;
    var y := v + remark;
    forall i | 0 <= i < |v| ensures !Stops(y, i, "") {
      if |before| <= i < |before| + |value| {
        assert !Stops(value, i - |before|, "");
      }
    }
    FindIff(y, "", |v|);
    assert y[..|v|] == v;
    TrimmedCore(before, value, after);
  }

  /** Stripping the whole line first does not change the value. */
  lemma StrippedValueRead(before: string, value: string, after: string, remark: string)
    requires IsValue(value) && Spaces(before) && Spaces(after)
    requires before != [] && value != [] ==> value[0] != ';'
    requires remark != [] ==> after != [] && remark[0] == ';'
    ensures ValueOf(RStrip(before + value + after + remark)) == value
  {
    hide ValueOf, RStrip, NoStop;
    if remark != [] {
      StrippedRemark(before + value + after, remark);
      ValueRead(before, value, after, RStrip(remark));
    } else if value == [] {
      assert before + value + after + remark == before + after;
      OnlySpaces(before + after);
      var empty: string := [];
      assert empty == empty + empty + empty + empty;
      ValueRead(empty, empty, empty, empty);
    } else {
      assert before + value + after + remark == (before + value) + after;
      RStripIs(before + value, after);
      assert before + value == before + value + [] + [];
      ValueRead(before, value, [], []);
    }
  }

  lemma StrippedRemark(x: string, remark: string)
    requires remark != [] && remark[0] == ';'
    ensures RStrip(x + remark) == x + RStrip(remark) && RStrip(remark) != [] && RStrip(remark)[0] == ';'
  {
    hide RStrip;
    var semicolon, rest := [remark[0]], remark[1..];
    assert remark == semicolon + rest && x + remark == (x + semicolon) + rest;
    RStripKeeps(semicolon, rest);
    RStripKeeps(x + semicolon, rest);
    assert (x + semicolon) + RStrip(rest) == x + (semicolon + RStrip(rest));
  }

  lemma SettingRead(name: string, gap: string, sep: char, tail: string)
    requires IsName(name) && Spaces(gap) && sep in "=:"
    ensures PairOf(name + gap + [sep] + tail) == Pair(name, ValueOf(tail))
  {
    hide ValueOf;
    var t := name + gap + [sep] + tail;
    var k := |name| + |gap|;
    forall i | 0 <= i < k ensures !Stops(t, i, "=:") {
      if i < |name| {
        assert !Stops(name, i, "=:");
      } else {
        assert t[i] == gap[i - |name|];
      }
    }
    FindIff(t, "=:", k);
    assert t[..k] == name + gap && t[k + 1..] == tail;
    RStripIs(name, gap);
  }

  /** The four kinds of lines, by what is left of them after trimming. */
  lemma ContentBy(line: string, t: string)
    requires t == LSkip(RStrip(line))
    ensures t == [] || t[0] in ";#" ==> ContentOf(line) == Nothing
    ensures t != [] && t[0] == '[' ==> ContentOf(line) == SectionOf(t)
    ensures t != [] && t[0] !in ";#[" ==> ContentOf(line) == PairOf(t)
  {
    hide LSkip, RStrip, SectionOf, PairOf;
  }

  /** Whatever the layout, a line says what was printed. */
  lemma BodyRead(item: Item)
    requires IsItem(item)
    ensures ContentOf(Body(item)) == Says(item)
  {
    hide ContentOf, RStrip, LSkip;
    match item {
      case Blank(indent) =>
        OnlySpaces(indent);
        ContentBy(indent, []);
      case Remark(indent, remark) =>
        assert remark == [remark[0]] + remark[1..];
        Indented(indent, [remark[0]], remark[1..]);
        ContentBy(indent + remark, [remark[0]] + RStrip(remark[1..]));
      case Heading(indent, section, junk) =>
        HeadingBodyRead(indent, section, junk);
      case Setting(indent, name, gap, sep, before, value, after, remark) =>
        SettingBodyRead(indent, name, gap, sep, before, value, after, remark);
    }
  }

  lemma HeadingBodyRead(indent: string, section: string, junk: string)
    requires AllSpace(indent) && NoStop(section, "]") && |section| <= SECTION_ROOM
    ensures ContentOf(indent + ("[" + section + "]" + junk)) == Section(section)
  {
    hide ContentOf, RStrip, LSkip, NoStop, SectionOf;
    var a := "[" + section + "]";
    Indented(indent, a, junk);
    ContentBy(indent + (a + junk), a + RStrip(junk));
    HeadingRead(section, RStrip(junk));
  }

  lemma SettingBodyRead(indent: string, name: string, gap: string, sep: char, before: string, value: string,
    after: string, remark: string)
    requires IsItem(Setting(indent, name, gap, sep, before, value, after, remark))
    ensures ContentOf(indent + ((name + gap + [sep]) + (before + value + after + remark))) == Pair(name, value)
  {
    hide PairOf, ValueOf, RStrip, LSkip, ContentOf, NoStop, Clean, Body;
    var a, x := name + gap + [sep], before + value + after + remark;
    assert a[0] == if name == [] then sep else name[0];
    Indented(indent, a, x);
    ContentBy(indent + (a + x), a + RStrip(x));
    SettingRead(name, gap, sep, RStrip(x));
    StrippedValueRead(before, value, after, remark);
  }

  /** The newline at a line's end says nothing. */
  lemma NewlineSaysNothing(s: string)
    ensures ContentOf(s + "\n") == ContentOf(s) && ContentOf("\n") == Nothing
  {
    var r := RStrip(s);
    hide RStrip, ContentOf;
    assert s + "\n" == r + (s[|r|..] + "\n");
    RStripIs(r, s[|r|..] + "\n");
    OnlySpaces("\n");
    ContentBy("\n", []);
    SameStripped(s + "\n", s);
  }

  lemma SameStripped(a: string, b: string)
    requires RStrip(a) == RStrip(b)
    ensures ContentOf(a) == ContentOf(b)
  {
    hide RStrip;
  }

  // ---- whole documents ----

  function Document(items: seq<Item>): string {
    if items == [] then [] else Document(items[..|items| - 1]) + (Body(items[|items| - 1]) + "\n")
  }

  /** The reads that a printed line takes; one that just fits leaves its newline for a read of its own. */
  function Reads(item: Item): seq<string> {
    if |Body(item)| == LINE_ROOM then [Body(item), "\n"] else [Body(item) + "\n"]
  }

  function AllReads(items: seq<Item>): seq<string> {
    if items == [] then [] else AllReads(items[..|items| - 1]) + Reads(items[|items| - 1])
  }

  lemma {:induction false} FirstRead(s: string, rest: string, room: nat)
    requires Clean(s) && |s| <= room
    ensures LineLength(s + "\n" + rest, room) == if |s| == room then room else |s| + 1
  {
    if s == [] {
      assert s + "\n" + rest == "\n" + rest;
    } else {
      FirstRead(s[1..], rest, room - 1);
      assert (s + "\n" + rest)[1..] == s[1..] + "\n" + rest;
    }
  }

  lemma LinesMore(item: Item, rest: string)
    requires Clean(Body(item)) && |Body(item)| <= LINE_ROOM
    ensures Lines(Body(item) + "\n" + rest) == Reads(item) + Lines(rest)
  {
    hide Body;
    var s := Body(item);
    FirstRead(s, rest, LINE_ROOM);
    var text := s + "\n" + rest;
    if |s| == LINE_ROOM {
      var newline := "\n" + rest;
      assert text[..LINE_ROOM] == s && text[LINE_ROOM..] == newline;
      assert newline[..1] == "\n" && newline[1..] == rest;
      assert Lines(newline) == ["\n"] + Lines(rest);
    } else {
      assert text[..|s| + 1] == s + "\n" && text[|s| + 1..] == rest;
    }
  }

  lemma CleanBody(item: Item)
    requires IsItem(item)
    ensures Clean(Body(item))
  {
    hide IsName, IsValue, IsSection;
    if item.Setting? {
      assert IsName(item.name) && IsValue(item.value);
      CleanParts(item);
    } else if item.Heading? {
      assert IsSection(item.section);
      CleanSection(item.section);
    }
  }

  lemma CleanParts(item: Item)
    requires item.Setting? && IsName(item.name) && IsValue(item.value)
    ensures Clean(item.name) && Clean(item.value)
  {
  }

  lemma CleanSection(s: string)
    requires IsSection(s)
    ensures Clean(s)
  {
  }

  lemma {:induction false} DocumentLines(items: seq<Item>, rest: string)
    requires forall i :: 0 <= i < |items| ==> IsItem(items[i])
    ensures Lines(Document(items) + rest) == AllReads(items) + Lines(rest)
  {
    hide Body, Lines, IsItem, Reads;
    if items == [] {
      assert Document(items) + rest == rest;
    } else {
      var front, last := items[..|items| - 1], items[|items| - 1];
      CleanBody(last);
      FitsBody(last);
      DocumentLines(front, Body(last) + "\n" + rest);
      LinesMore(last, rest);
      assert Document(items) + rest == Document(front) + (Body(last) + "\n" + rest);
    }
  }

  lemma FitsBody(item: Item)
    requires IsItem(item)
    ensures |Body(item)| <= LINE_ROOM
  {
  }

  // ---- what a document tells the handler ----

  datatype Told = Told(section: string, calls: seq<Call>, lineno: nat)

  /** Each setting in order, under the last section before it, with the number of its line. */
  function Expected(items: seq<Item>): Told {
    if items == [] then Told("", [], 0)
    else
      var item, t := items[|items| - 1], Expected(items[..|items| - 1]);
      var lineno := t.lineno + |Reads(item)|;
      match Says(item)
      case Section(section) => Told(section, t.calls, lineno)
      case Pair(name, value) => Told(t.section, t.calls + [Call(t.section, name, value, t.lineno + 1)], lineno)
      case _ => Told(t.section, t.calls, lineno)
  }

  predicate AllAccepted(accept: seq<Call> -> bool, calls: seq<Call>) {
    forall n {:trigger calls[..n]} :: 0 < n <= |calls| ==> accept(calls[..n])
  }

  lemma RunOneMore(accept: seq<Call> -> bool, lines: seq<string>, line: string)
    ensures Run(accept, lines + [line]) == Step(accept, Run(accept, lines), line)
  {
    hide Step;
    assert (lines + [line])[..|lines|] == lines;
  }

  /** What a line with such a content makes of a state when its item takes so many reads. */
  function After(accept: seq<Call> -> bool, s: State, content: Content, count: nat): State {
    match content
    case Section(section) => State(section, s.calls, s.lineno + count, s.error)
    case Pair(name, value) =>
      var calls := s.calls + [Call(s.section, name, value, s.lineno + 1)];
      State(s.section, calls, s.lineno + count, if accept(calls) || s.error != 0 then s.error else s.lineno + 1)
    case _ => State(s.section, s.calls, s.lineno + count, s.error)
  }

  lemma StepThenNothing(accept: seq<Call> -> bool, s: State, line: string, item: Item)
    requires ContentOf(line) == Says(item) && ContentOf("\n") == Nothing
    ensures Step(accept, s, line) == After(accept, s, Says(item), 1)
    ensures Step(accept, Step(accept, s, line), "\n") == After(accept, s, Says(item), 2)
  {
    hide ContentOf;
  }

  lemma ItemRun(accept: seq<Call> -> bool, lines: seq<string>, item: Item)
    requires IsItem(item)
    ensures Run(accept, lines + Reads(item)) == After(accept, Run(accept, lines), Says(item), |Reads(item)|)
  {
    hide IsItem, Body, Run, ContentOf, Step, Says, After;
    var s, r := Body(item), Run(accept, lines);
    BodyRead(item);
    NewlineSaysNothing(s);
    if |s| == LINE_ROOM {
      assert lines + Reads(item) == (lines + [s]) + ["\n"];
      RunOneMore(accept, lines, s);
      RunOneMore(accept, lines + [s], "\n");
      StepThenNothing(accept, r, s, item);
    } else {
      RunOneMore(accept, lines, s + "\n");
      StepThenNothing(accept, r, s + "\n", item);
    }
  }

  lemma AcceptedMore(accept: seq<Call> -> bool, calls: seq<Call>, c: Call)
    ensures AllAccepted(accept, calls + [c]) <==> AllAccepted(accept, calls) && accept(calls + [c])
  {
    var all := calls + [c];
    assert all[..|all|] == all;
    assert forall n :: 0 < n <= |calls| ==> all[..n] == calls[..n];
  }

  lemma {:induction false} ItemsRun(accept: seq<Call> -> bool, items: seq<Item>)
    requires forall i :: 0 <= i < |items| ==> IsItem(items[i])
    ensures Agrees(accept, Run(accept, AllReads(items)), Expected(items))
  {
    hide IsItem, Reads, Run, Expected, Agrees, After;
    if items != [] {
      var front, last := items[..|items| - 1], items[|items| - 1];
      ItemsRun(accept, front);
      ItemRun(accept, AllReads(front), last);
      ExpectedMore(accept, Run(accept, AllReads(front)), items);
    } else {
      NothingRun(accept);
    }
  }

  predicate Agrees(accept: seq<Call> -> bool, r: State, t: Told) {
    && r.section == t.section && r.calls == t.calls && r.lineno == t.lineno
    && (r.error == 0 <==> AllAccepted(accept, t.calls))
  }

  lemma NothingRun(accept: seq<Call> -> bool)
    ensures Agrees(accept, Run(accept, AllReads([])), Expected([]))
  {
  }

  lemma ExpectedMore(accept: seq<Call> -> bool, r: State, items: seq<Item>)
    requires items != [] && Agrees(accept, r, Expected(items[..|items| - 1]))
    ensures var last := items[|items| - 1];
      Agrees(accept, After(accept, r, Says(last), |Reads(last)|), Expected(items))
  {
    hide AllAccepted, Reads;
    var last, t := items[|items| - 1], Expected(items[..|items| - 1]);
    if last.Setting? {
      AcceptedMore(accept, t.calls, Call(t.section, last.name, last.value, t.lineno + 1));
    }
  }

  /** Reading a printed document, whatever its layout, tells the handler exactly its settings in their order, and the
      result is 0 exactly when the handler accepts them all. */
  lemma DocumentRead(accept: seq<Call> -> bool, items: seq<Item>)
    requires forall i :: 0 <= i < |items| ==> IsItem(items[i])
    ensures var r := Run(accept, Lines(Document(items)));
      r.calls == Expected(items).calls && (r.error == 0 <==> AllAccepted(accept, r.calls))
  {
    hide *;
    DocumentLines(items, []);
    NoText();
    assert Document(items) + [] == Document(items);
    assert AllReads(items) + [] == AllReads(items);
    ItemsRun(accept, items);
    Agreed(accept, Run(accept, AllReads(items)), Expected(items));
  }

  lemma Agreed(accept: seq<Call> -> bool, r: State, t: Told)
    requires Agrees(accept, r, t)
    ensures r.calls == t.calls && (r.error == 0 <==> AllAccepted(accept, t.calls))
  {
  }

  lemma NoText()
    ensures Lines([]) == []
  {
  }
}
