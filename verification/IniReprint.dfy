/** Whatever text was read, printing what the handler was told and reading that again tells it the same. */
module IniReprint {
  import opened IniText
  import opened IniPrint

  // ---- the parser delivers clean tokens ----

  predicate IsCall(c: Call) {
    IsSection(c.section) && IsName(c.name) && IsValue(c.value) && |c.name| + 1 + |c.value| <= LINE_ROOM
  }

  predicate IsContent(c: Content) {
    match c
    case Section(section) => IsSection(section)
    case Pair(name, value) => IsName(name) && IsValue(value) && |name| + 1 + |value| <= LINE_ROOM
    case _ => true
  }

  lemma NoStopPrefix(s: string, chars: string, n: nat)
    requires n <= |s| && n <= Find(s, chars, false)
    ensures NoStop(s[..n], chars)
  {
    FindIff(s, chars, Find(s, chars, false));
    forall k | 0 <= k < n ensures !Stops(s[..n], k, chars) {
      assert !Stops(s, k, chars);
    }
  }

  lemma SectionClean(t: string)
    requires t != [] && Clean(t)
    ensures IsContent(SectionOf(t))
  {
    var end := 1 + Find(t[1..], "]", false);
    NoStopPrefix(t[1..], "]", end - 1);
    assert t[1..][..end - 1] == t[1..end];
    var s := t[1..end];
    forall k | 0 <= k < |Shortened(s)| ensures !Stops(Shortened(s), k, "]") {
      assert !Stops(s, k, "]");
    }
  }

  lemma NameClean(t: string, e: nat)
    requires t != [] && Clean(t) && !IsSpace(t[0]) && t[0] !in "[;#" && e <= Find(t, "=:", false)
    ensures IsName(RStrip(t[..e]))
  {
    NoStopPrefix(t, "=:", |RStrip(t[..e])|);
    assert t[..e][..|RStrip(t[..e])|] == t[..|RStrip(t[..e])|];
  }

  lemma PrefixOfSlice(s: string, f: nat, w: string, v: string)
    requires f <= |s| && |v| <= |w| <= f && w == s[..f][f - |w|..] && v == w[..|v|]
    ensures v == s[f - |w|..f - |w| + |v|] == s[..f][f - |w|..f - |w| + |v|]
  {
  }

  lemma TrimmedEnds(w: string, v: string)
    requires |v| <= |w| && v == w[..|v|] && (w != [] ==> !IsSpace(w[0])) && (v != [] ==> !IsSpace(v[|v| - 1]))
    ensures Trimmed(v)
  {
    assert v != [] ==> v[0] == w[0];
  }

  lemma ValueClean(rest: string)
    requires Clean(rest)
    ensures IsValue(ValueOf(rest)) && |ValueOf(rest)| <= |rest|
  {
    hide RStrip, LSkip, Find, NoStop, Clean, IsSpace, Trimmed, AllSpace;
    var f := Find(rest, "", false);
    var w := LSkip(rest[..f]);
    var v := RStrip(w);
    NoStopPrefix(rest, "", f);
    PrefixOfSlice(rest, f, w, v);
    NoStopSlice(rest[..f], f - |w|, f - |w| + |v|);
    CleanSlice(rest, f - |w|, f - |w| + |v|);
    TrimmedEnds(w, v);
  }

  lemma NoStopSlice(u: string, from: nat, to: nat)
    requires from <= to <= |u| && NoStop(u, "")
    ensures NoStop(u[from..to], "")
  {
    forall k | 0 <= k < to - from ensures !Stops(u[from..to], k, "") {
      assert !Stops(u, from + k, "");
    }
  }

  lemma CleanSlice(s: string, from: nat, to: nat)
    requires from <= to <= |s| && Clean(s)
    ensures Clean(s[from..to])
  {
  }

  lemma PairClean(t: string)
    requires t != [] && Clean(t) && |t| <= LINE_ROOM && !IsSpace(t[0]) && t[0] !in "[;#"
    ensures IsContent(PairOf(t))
  {
    hide ValueOf, IsValue, IsName;
    var e := Find(t, "=:", false);
    if e < |t| {
      NameClean(t, e);
      ValueClean(t[e + 1..]);
    }
  }

  /** A newline can only be the last character of a line. */
  lemma PartClean(line: string, i: nat, j: nat)
    requires IsLine(line) && i <= j <= |line| && (i < j ==> line[j - 1] != '\n')
    ensures Clean(line[i..j]) && j - i <= LINE_ROOM
  {
  }

  lemma PartOfPart(s: string, r: string, t: string)
    requires |t| <= |r| <= |s| && r == s[..|r|] && t == r[|r| - |t|..]
    ensures t == s[|r| - |t|..|r|]
    ensures t != [] ==> t[0] == s[|r| - |t|] && r[|r| - 1] == s[|r| - 1]
  {
  }

  lemma StrippedTwice(line: string) returns (i: nat, j: nat)
    ensures i <= j <= |line| && LSkip(RStrip(line)) == line[i..j]
    ensures i < j ==> !IsSpace(line[i]) && line[j - 1] != '\n'
  {
    assert IsSpace('\n');
    hide IsSpace, AllSpace, RStrip, LSkip;
    var r := RStrip(line);
    j, i := |r|, |r| - |LSkip(r)|;
    PartOfPart(line, r, LSkip(r));
  }

  lemma TrimmedLine(line: string)
    requires IsLine(line)
    ensures var t := LSkip(RStrip(line)); Clean(t) && |t| <= LINE_ROOM && (t != [] ==> !IsSpace(t[0]))
  {
    hide IsSpace, AllSpace, RStrip, LSkip, IsLine, Clean;
    var i, j := StrippedTwice(line);
    PartClean(line, i, j);
  }

  lemma ContentClean(line: string)
    requires IsLine(line)
    ensures IsContent(ContentOf(line))
  {
    hide IsContent, LSkip, RStrip, SectionOf, PairOf, Clean;
    TrimmedLine(line);
    var t := LSkip(RStrip(line));
    if t == [] || t[0] in ";#" {
      assert IsContent(Nothing) by { NothingIsContent(); }
    } else if t[0] == '[' {
      SectionClean(t);
    } else {
      PairClean(t);
    }
  }

  lemma NothingIsContent()
    ensures IsContent(Nothing)
  {
  }

  predicate CleanCalls(calls: seq<Call>) {
    forall i :: 0 <= i < |calls| ==> IsCall(calls[i])
  }

  /** Every token that reaches the handler is clean, whatever the text. */
  lemma {:induction false} TokensAreClean(accept: seq<Call> -> bool, lines: seq<string>)
    requires forall i :: 0 <= i < |lines| ==> IsLine(lines[i])
    ensures IsSection(Run(accept, lines).section) && CleanCalls(Run(accept, lines).calls)
  {
    hide IsSection, IsName, IsValue, ContentOf, IsLine;
    if lines == [] {
      assert IsSection("") by { EmptySection(); }
    } else {
      TokensAreClean(accept, lines[..|lines| - 1]);
      ContentClean(lines[|lines| - 1]);
    }
  }

  lemma EmptySection()
    ensures IsSection("")
  {
  }

  // ---- printing what the handler was told ----

  function HeadingOf(c: Call): Item {
    Heading("", c.section, "")
  }

  function SettingOf(c: Call): Item {
    Setting("", c.name, "", '=', "", c.value, "", "")
  }

  function Reprint(calls: seq<Call>): seq<Item> {
    if calls == [] then []
    else Reprint(calls[..|calls| - 1]) + [HeadingOf(calls[|calls| - 1]), SettingOf(calls[|calls| - 1])]
  }

  lemma PrintedCall(c: Call)
    requires IsCall(c)
    ensures IsItem(HeadingOf(c)) && IsItem(SettingOf(c))
  {
    hide IsName, IsValue;
    SectionSize(c.section);
    Plain(c);
  }

  lemma SectionSize(s: string)
    requires IsSection(s)
    ensures |s| <= SECTION_ROOM
  {
  }

  lemma Plain(c: Call)
    ensures |Body(HeadingOf(c))| == |c.section| + 2 && |Body(SettingOf(c))| == |c.name| + 1 + |c.value|
  {
  }

  lemma {:induction false} ReprintIsClean(calls: seq<Call>)
    requires CleanCalls(calls)
    ensures forall i :: 0 <= i < |Reprint(calls)| ==> IsItem(Reprint(calls)[i])
  {
    hide IsItem, IsCall, HeadingOf, SettingOf;
    if calls != [] {
      ReprintIsClean(calls[..|calls| - 1]);
      PrintedCall(calls[|calls| - 1]);
    }
  }

  /** The same calls but for the numbers of the lines. */
  predicate SameCalls(a: seq<Call>, b: seq<Call>) {
    |a| == |b| && forall i :: 0 <= i < |a| ==> SameCall(a[i], b[i])
  }

  predicate SameCall(a: Call, b: Call) {
    a.section == b.section && a.name == b.name && a.value == b.value
  }

  lemma {:induction false} ReprintExpected(calls: seq<Call>)
    ensures SameCalls(Expected(Reprint(calls)).calls, calls)
  {
    hide Reads;
    if calls != [] {
      var front, c := calls[..|calls| - 1], calls[|calls| - 1];
      ReprintExpected(front);
      var items := Reprint(front);
      assert Reprint(calls) == (items + [HeadingOf(c)]) + [SettingOf(c)];
      assert (items + [HeadingOf(c)])[..|items|] == items;
      assert Reprint(calls)[..|items| + 1] == items + [HeadingOf(c)];
    }
  }

  /** For any text and any handler: when what was told is printed and read again, the second handler is told the same,
      and when it accepts everything the result is 0. */
  lemma ReadPrintRead(first: seq<Call> -> bool, second: seq<Call> -> bool, text: string)
    ensures var told := Run(first, Lines(text)).calls;
      var again := Run(second, Lines(Document(Reprint(told))));
      SameCalls(again.calls, told) && (again.error == 0 <==> AllAccepted(second, again.calls))
  {
    hide *;
    var told := Run(first, Lines(text)).calls;
    LinesAreTheText(text);
    TokensAreClean(first, Lines(text));
    ReprintIsClean(told);
    DocumentRead(second, Reprint(told));
    ReprintExpected(told);
  }
}
