/** What src/lib/ini.c makes of a text: its lines, what each of them says, and what the handler is told. Texts are C
    strings, so they hold no NUL. */
module IniText {
  /** INI_MAX_LINE and MAX_SECTION, without the closing NUL. */
  const LINE_ROOM: nat := 199
  const SECTION_ROOM: nat := 49

  // ---- characters ----

  predicate IsSpace(c: char) {
    c == ' ' || c == '\t' || c == '\n' || c == '\U{0b}' || c == '\U{0c}' || c == '\r'
  }

  predicate AllSpace(s: string) {
    forall i :: 0 <= i < |s| ==> IsSpace(s[i])
  }

  function RStrip(s: string): (r: string)
    ensures |r| <= |s| && r == s[..|r|] && AllSpace(s[|r|..])
    ensures r != [] ==> !IsSpace(r[|r| - 1])
  {
    if s != [] && IsSpace(s[|s| - 1]) then RStrip(s[..|s| - 1]) else s
  }

  function LSkip(s: string): (r: string)
    ensures |r| <= |s| && r == s[|s| - |r|..] && AllSpace(s[..|s| - |r|])
    ensures r != [] ==> !IsSpace(r[0])
  {
    if s != [] && IsSpace(s[0]) then LSkip(s[1..]) else s
  }

  lemma {:induction false} RStripIs(core: string, tail: string)
    requires AllSpace(tail) && (core != [] ==> !IsSpace(core[|core| - 1]))
    ensures RStrip(core + tail) == core
  {
    if tail == [] {
      assert core + tail == core;
    } else {
      RStripIs(core, tail[..|tail| - 1]);
      assert (core + tail)[..|core + tail| - 1] == core + tail[..|tail| - 1];
    }
  }

  lemma {:induction false} LSkipIs(head: string, core: string)
    requires AllSpace(head) && (core != [] ==> !IsSpace(core[0]))
    ensures LSkip(head + core) == core
  {
    if head == [] {
      assert head + core == core;
    } else {
      LSkipIs(head[1..], core);
      assert (head + core)[1..] == head[1..] + core;
    }
  }

  // ---- where a token ends ----

  /** find_chars_or_comment: one of the characters, or a semicolon behind a white space. No characters stand for NULL;
      spaced says that a white space came before. */
  function Find(s: string, chars: string, spaced: bool): (r: nat)
    ensures r <= |s|
  {
    if s == [] || s[0] in chars || (spaced && s[0] == ';') then 0 else 1 + Find(s[1..], chars, IsSpace(s[0]))
  }

  predicate Stops(s: string, k: nat, chars: string)
    requires k < |s|
  {
    s[k] in chars || (k > 0 && s[k] == ';' && IsSpace(s[k - 1]))
  }

  /** It is the first stop, or the end if there is none. */
  lemma {:induction false} FindIff(s: string, chars: string, k: nat)
    requires k <= |s|
    ensures k == Find(s, chars, false) <==>
      (forall i :: 0 <= i < k ==> !Stops(s, i, chars)) && (k < |s| ==> Stops(s, k, chars))
  {
    FindStops(s, chars, 0);
    var f := Find(s, chars, false);
    assert s[0..] == s;
    if f < k {
      assert Stops(s, f, chars);
    }
  }

  lemma {:induction false} FindStops(s: string, chars: string, from: nat)
    requires from <= |s|
    ensures var f := from + Find(s[from..], chars, from > 0 && IsSpace(s[from - 1]));
      f <= |s| && (forall i :: from <= i < f ==> !Stops(s, i, chars)) && (f < |s| ==> Stops(s, f, chars))
    decreases |s| - from
  {
    if from < |s| && !Stops(s, from, chars) {
      FindStops(s, chars, from + 1);
      assert s[from..][1..] == s[from + 1..];
    }
  }

  // ---- lines ----

  /** How much of the text one call of the reader takes: to a newline, or as much as there is room for. */
  function LineLength(text: string, room: nat): (r: nat)
    ensures r <= |text| && r <= room && (text != [] && room > 0 ==> r > 0)
  {
    if text == [] || room == 0 then 0
    else if text[0] == '\n' then 1
    else 1 + LineLength(text[1..], room - 1)
  }

  function Lines(text: string): seq<string> {
    if text == [] then []
    else
      var n := LineLength(text, LINE_ROOM);
      [text[..n]] + Lines(text[n..])
  }

  function Joined(lines: seq<string>): string {
    if lines == [] then [] else lines[0] + Joined(lines[1..])
  }

  /** A newline is only ever a line's last character. */
  predicate OneLine(line: string) {
    forall i :: 0 <= i < |line| - 1 ==> line[i] != '\n'
  }

  predicate IsLine(line: string) {
    0 < |line| <= LINE_ROOM && OneLine(line)
  }

  predicate Ended(line: string) {
    |line| == LINE_ROOM || (line != [] && line[|line| - 1] == '\n')
  }

  lemma {:induction false} LineLengthIs(text: string, room: nat)
    ensures var n := LineLength(text, room);
      OneLine(text[..n]) && (n == room || n == |text| || (n > 0 && text[n - 1] == '\n'))
  {
    if text != [] && room > 0 && text[0] != '\n' {
      LineLengthIs(text[1..], room - 1);
      var n := LineLength(text, room);
      assert text[..n] == [text[0]] + text[1..][..n - 1];
    }
  }

  /** For any text the lines put together are the text again: each ends with its newline or where the buffer does, but
      for the last, which may end with the text. */
  lemma {:induction false} LinesAreTheText(text: string)
    ensures Joined(Lines(text)) == text
    ensures forall i {:trigger Lines(text)[i]} :: 0 <= i < |Lines(text)| ==>
      IsLine(Lines(text)[i]) && (i < |Lines(text)| - 1 ==> Ended(Lines(text)[i]))
  {
    if text != [] {
      var n := LineLength(text, LINE_ROOM);
      LineLengthIs(text, LINE_ROOM);
      LinesAreTheText(text[n..]);
      var all, rest := Lines(text), Lines(text[n..]);
      assert text[..n] + text[n..] == text;
      assert all[0] == text[..n] && all[1..] == rest;
      forall i {:trigger all[i]} | 0 <= i < |all| ensures IsLine(all[i]) && (i < |all| - 1 ==> Ended(all[i])) {
        if i > 0 {
          assert all[i] == rest[i - 1];
        }
      }
    }
  }

  // ---- what a line says ----

  datatype Content =
    | Nothing
    | Section(section: string)
    | Pair(name: string, value: string)
    | Mistake

  function Shortened(s: string): (r: string)
    ensures |r| <= SECTION_ROOM && |r| <= |s| && r == s[..|r|]
    ensures |s| <= SECTION_ROOM ==> r == s
  {
    if |s| <= SECTION_ROOM then s else s[..SECTION_ROOM]
  }

  function SectionOf(t: string): Content
    requires t != []
  {
    var end := 1 + Find(t[1..], "]", false);
    if end < |t| && t[end] == ']' then Section(Shortened(t[1..end])) else Mistake
  }

  function ValueOf(rest: string): string {
    RStrip(LSkip(rest[..Find(rest, "", false)]))
  }

  function PairOf(t: string): Content {
    var end := Find(t, "=:", false);
    if end < |t| && t[end] in "=:" then Pair(RStrip(t[..end]), ValueOf(t[end + 1..])) else Mistake
  }

  function ContentOf(line: string): Content {
    var t := LSkip(RStrip(line));
    if t == [] || t[0] in ";#" then Nothing
    else if t[0] == '[' then SectionOf(t)
    else PairOf(t)
  }

  // ---- which lines are wrong, by their characters ----

  /** A remark begins at i. */
  predicate Remark(t: string, i: nat)
    requires i < |t|
  {
    i > 0 && t[i] == ';' && IsSpace(t[i - 1])
  }

  /** t is what is left of a line when the white space around it is gone. */
  predicate IsCore(line: string, head: string, t: string, tail: string) {
    && line == head + t + tail && AllSpace(head) && AllSpace(tail)
    && t != [] && !IsSpace(t[0]) && !IsSpace(t[|t| - 1])
  }

  lemma CoreIs(line: string, head: string, t: string, tail: string)
    requires IsCore(line, head, t, tail)
    ensures LSkip(RStrip(line)) == t
  {
    hide IsSpace, AllSpace, LSkip, RStrip;
    RStripIs(head + t, tail);
    LSkipIs(head, t);
  }

  /** Of the characters, none comes before a remark. */
  predicate Lacks(t: string, from: nat, chars: string) {
    forall k :: from <= k < |t| && t[k] in chars ==> exists i :: from < i < k && Remark(t, i)
  }

  lemma LacksIff(t: string, from: nat, chars: string)
    requires from <= |t| && ';' !in chars
    ensures var end := from + Find(t[from..], chars, false);
            Lacks(t, from, chars) <==> !(end < |t| && t[end] in chars)
  {
    hide IsSpace, Find;
    var u := t[from..];
    var f := Find(u, chars, false);
    FindIff(u, chars, f);
    if from + f < |t| && t[from + f] in chars {
      forall i | from < i < from + f ensures !Remark(t, i) {
        assert !Stops(u, i - from, chars);
      }
    } else {
      forall k | from <= k < from + f ensures t[k] !in chars {
        assert !Stops(u, k - from, chars);
      }
      forall k | from <= k < |t| && t[k] in chars ensures exists i :: from < i < k && Remark(t, i) {
        assert Remark(t, from + f);
      }
    }
  }

  lemma HeadingIsWrongIff(t: string)
    requires t != []
    ensures SectionOf(t) == Mistake <==> Lacks(t, 1, "]")
    ensures SectionOf(t).Section? || SectionOf(t).Mistake?
  {
    LacksIff(t, 1, "]");
    hide Find, Lacks;
  }

  lemma SettingIsWrongIff(t: string)
    ensures PairOf(t) == Mistake <==> Lacks(t, 0, "=:")
    ensures PairOf(t).Pair? || PairOf(t).Mistake?
  {
    assert t[0..] == t;
    LacksIff(t, 0, "=:");
    hide Find, Lacks, RStrip, ValueOf;
  }

  /** A line is wrong exactly if it is no comment and, when it is a heading, has no closing bracket, otherwise neither
      an equals sign nor a colon, before any remark. A comment says nothing. */
  lemma LineIsWrongIff(line: string, head: string, t: string, tail: string)
    requires IsCore(line, head, t, tail)
    ensures t != []
    ensures ContentOf(line) == Mistake <==>
              t[0] != ';' && t[0] != '#' && (if t[0] == '[' then Lacks(t, 1, "]") else Lacks(t, 0, "=:"))
    ensures ContentOf(line) == Nothing <==> t[0] == ';' || t[0] == '#'
    ensures ContentOf(line).Section? ==> t[0] == '['
  {
    hide IsCore, SectionOf, PairOf, RStrip, LSkip, Lacks, IsSpace, AllSpace;
    CoreIs(line, head, t, tail);
    CoreStarts(line, head, t, tail);
    HeadingIsWrongIff(t);
    SettingIsWrongIff(t);
  }

  lemma CoreStarts(line: string, head: string, t: string, tail: string)
    requires IsCore(line, head, t, tail)
    ensures t != []
  {
  }

  lemma BlankSaysNothing(line: string)
    requires AllSpace(line)
    ensures ContentOf(line) == Nothing
  {
    hide IsSpace;
    RStripIs([], line);
    assert [] + line == line;
  }

  // ---- what the handler is told, and the result ----

  datatype Call = Call(section: string, name: string, value: string, lineno: nat)

  datatype State = State(section: string, calls: seq<Call>, lineno: nat, error: nat)

  const START := State("", [], 0, 0)

  /** The handler may decide by all it was ever told. */
  function Step(accept: seq<Call> -> bool, s: State, line: string): State {
    var n := s.lineno + 1;
    var failed := if s.error == 0 then n else s.error;
    match ContentOf(line)
    case Nothing => State(s.section, s.calls, n, s.error)
    case Section(section) => State(section, s.calls, n, s.error)
    case Mistake => State(s.section, s.calls, n, failed)
    case Pair(name, value) =>
      var calls := s.calls + [Call(s.section, name, value, n)];
      State(s.section, calls, n, if accept(calls) then s.error else failed)
  }

  function Run(accept: seq<Call> -> bool, lines: seq<string>): State {
    if lines == [] then START else Step(accept, Run(accept, lines[..|lines| - 1]), lines[|lines| - 1])
  }

  /** Line number k is wrong, or the handler turned down what it says. */
  predicate Fails(accept: seq<Call> -> bool, lines: seq<string>, k: nat)
    requires 0 < k <= |lines|
  {
    var before := Run(accept, lines[..k - 1]);
    match ContentOf(lines[k - 1])
    case Mistake => true
    case Pair(name, value) => !accept(before.calls + [Call(before.section, name, value, k)])
    case _ => false
  }

  /** The result is the number of the first line that fails, and 0 when none does. */
  lemma {:induction false} ErrorIsFirstFailure(accept: seq<Call> -> bool, lines: seq<string>)
    ensures var r := Run(accept, lines);
      && r.lineno == |lines| && r.error <= |lines|
      && (r.error == 0 <==> forall k :: 0 < k <= |lines| ==> !Fails(accept, lines, k))
      && (r.error > 0 ==> Fails(accept, lines, r.error) && forall k :: 0 < k < r.error ==> !Fails(accept, lines, k))
  {
    hide *;
    if lines != [] {
      var last := |lines| - 1;
      ErrorIsFirstFailure(accept, lines[..last]);
      ErrorStep(accept, lines);
      var before, after := Run(accept, lines[..last]).error, Run(accept, lines).error;
      if before > 0 {
        FailsEarlier(accept, lines, before);
      }
      forall k | 0 < k <= last ensures Fails(accept, lines[..last], k) == Fails(accept, lines, k) {
        FailsEarlier(accept, lines, k);
      }
    } else {
      NoLines(accept);
    }
  }

  lemma NoLines(accept: seq<Call> -> bool)
    ensures Run(accept, []).lineno == 0 && Run(accept, []).error == 0
  {
  }

  lemma FailsEarlier(accept: seq<Call> -> bool, lines: seq<string>, k: nat)
    requires 0 < k < |lines|
    ensures Fails(accept, lines[..|lines| - 1], k) == Fails(accept, lines, k)
  {
    hide Run, ContentOf;
    assert lines[..|lines| - 1][..k - 1] == lines[..k - 1];
  }

  lemma ErrorStep(accept: seq<Call> -> bool, lines: seq<string>)
    requires lines != []
    requires Run(accept, lines[..|lines| - 1]).lineno == |lines| - 1
    ensures var before, after := Run(accept, lines[..|lines| - 1]), Run(accept, lines);
      && after.lineno == |lines|
      && after.error == if before.error != 0 then before.error else if Fails(accept, lines, |lines|) then |lines| else 0
  {
    hide ContentOf;
  }

  /** A wrong line shows in the result, whatever the handler does: it is the number of that line or of an earlier
      one. */
  lemma WrongLineShows(accept: seq<Call> -> bool, lines: seq<string>, k: nat, head: string, t: string, tail: string)
    requires 0 < k <= |lines| && IsCore(lines[k - 1], head, t, tail) && t[0] != ';' && t[0] != '#'
    requires if t[0] == '[' then Lacks(t, 1, "]") else Lacks(t, 0, "=:")
    ensures 0 < Run(accept, lines).error <= k
  {
    hide Run, ContentOf, IsCore, Lacks;
    CoreStarts(lines[k - 1], head, t, tail);
    LineIsWrongIff(lines[k - 1], head, t, tail);
    ErrorIsFirstFailure(accept, lines);
    assert Fails(accept, lines, k);
  }

  // ---- the sizes of the buffers, written out ----

  /** A line is cut after 199 characters when none of them is a newline. */
  lemma {:induction false} LongLineIsCut(text: string, room: nat)
    requires room <= |text| && forall i :: 0 <= i < room ==> text[i] != '\n'
    ensures LineLength(text, room) == room
    ensures room == 199 ==> Lines(text) != [] && Lines(text)[0] == text[..199]
    decreases room
  {
    if room > 0 {
      LongLineIsCut(text[1..], room - 1);
    }
  }

  /** Of a longer name of a section the first 49 characters are kept. */
  lemma LongSectionIsCut(line: string, head: string, t: string, tail: string)
    requires IsCore(line, head, t, tail) && |t| > 51 && t[0] == '[' && t[|t| - 1] == ']'
    requires forall i :: 1 <= i < |t| - 1 ==> t[i] != ']' && t[i] != ';'
    ensures ContentOf(line) == Section(t[1..50])
  {
    hide IsCore, IsSpace, AllSpace, RStrip, LSkip, Find;
    CoreIs(line, head, t, tail);
    CoreStarts(line, head, t, tail);
    HeadingEnds(t);
    assert t[1..|t| - 1][..49] == t[1..50];
  }

  lemma HeadingEnds(t: string)
    requires |t| > 1 && t[|t| - 1] == ']' && forall i :: 1 <= i < |t| - 1 ==> t[i] != ']' && t[i] != ';'
    ensures 1 + Find(t[1..], "]", false) == |t| - 1
  {
    hide IsSpace;
    var u := t[1..];
    forall i | 0 <= i < |u| - 1 ensures !Stops(u, i, "]") {
      assert u[i] == t[i + 1];
    }
    assert u[|u| - 1] == ']';
    FindIff(u, "]", |u| - 1);
    hide Find;
  }
}
