/** The parser of src/lib/ini.c on its line buffer, where strings end with a NUL and are cut by writing one. */
module IniParser {
  import opened IniText

  const NUL: char := '\0'
  const INI_MAX_LINE: nat := 200
  const MAX_SECTION: nat := 50

  /** The C string at p is s. */
  predicate Str(buf: seq<char>, p: nat, s: string) {
    p + |s| < |buf| && buf[p..p + |s|] == s && buf[p + |s|] == NUL && NUL !in s
  }

  /** The C string at p, to its NUL. */
  function CString(buf: seq<char>, p: nat): string
    requires p <= |buf|
    decreases |buf| - p
  {
    if p == |buf| || buf[p] == NUL then [] else [buf[p]] + CString(buf, p + 1)
  }

  lemma StrAt(buf: seq<char>, p: nat, s: string, k: nat)
    requires Str(buf, p, s) && k < |s|
    ensures buf[p + k] == s[k] && s[k] != NUL
  {
    assert buf[p..p + |s|][k] == s[k];
  }

  /** The first NUL behind p is the end of the string. */
  lemma StrStop(buf: seq<char>, p: nat, s: string, k: nat)
    requires Str(buf, p, s) && k <= |s|
    ensures p + k < |buf| && buf[p + k] == if k < |s| then s[k] else NUL
    ensures k < |s| ==> s[k] != NUL
  {
    if k < |s| {
      StrAt(buf, p, s, k);
    }
  }

  lemma {:induction false} CStringIs(buf: seq<char>, p: nat, s: string)
    requires Str(buf, p, s)
    ensures CString(buf, p) == s
    decreases |s|
  {
    if s != [] {
      StrAt(buf, p, s, 0);
      StrTail(buf, p, s, 1);
      CStringIs(buf, p + 1, s[1..]);
    }
  }

  lemma StrTail(buf: seq<char>, p: nat, s: string, k: nat)
    requires Str(buf, p, s) && k <= |s|
    ensures Str(buf, p + k, s[k..])
  {
    assert buf[p + k..p + |s|] == buf[p..p + |s|][k..];
  }

  /** Writing a NUL into a string cuts it into two. */
  lemma StrCut(buf: seq<char>, p: nat, s: string, k: nat)
    requires Str(buf, p, s) && k < |s|
    ensures Str(buf[p + k := NUL], p, s[..k]) && Str(buf[p + k := NUL], p + k + 1, s[k + 1..])
  {
    var cut := buf[p + k := NUL];
    assert cut[p..p + k] == buf[p..p + |s|][..k];
    assert cut[p + k + 1..p + |s|] == buf[p..p + |s|][k + 1..];
  }

  /** A string is not touched by a change elsewhere. */
  lemma StrKept(buf: seq<char>, buf': seq<char>, p: nat, s: string)
    requires Str(buf, p, s) && |buf'| == |buf|
    requires forall k :: p <= k <= p + |s| ==> buf'[k] == buf[k]
    ensures Str(buf', p, s)
  {
    assert buf'[p..p + |s|] == buf[p..p + |s|];
  }

  method StrLen(a: array<char>, p: nat, ghost s: string) returns (n: nat)
    requires Str(a[..], p, s)
    ensures n == |s|
  {
    n := 0;
    while p + n < a.Length && a[p + n] != NUL
      invariant n <= |s|
    {
      n := n + 1;
    }
    if n < |s| {
      StrAt(a[..], p, s, n);
    }
  }

  method RStripAt(a: array<char>, p: nat, ghost s: string)
    requires Str(a[..], p, s)
    modifies a
    ensures Str(a[..], p, RStrip(s))
    ensures forall k :: 0 <= k < a.Length && !(p <= k < p + |s|) ==> a[k] == old(a[k])
  {
    var n := StrLen(a, p, s);
    var q := p + n;
    ghost var left := s;
    while q > p
      invariant q == p + |left| && |left| <= |s| && Str(a[..], p, left) && RStrip(left) == RStrip(s)
      invariant forall k :: 0 <= k < a.Length && !(p <= k < p + |s|) ==> a[k] == old(a[k])
    {
      q := q - 1;
      StrAt(a[..], p, left, |left| - 1);
      if !IsSpace(a[q]) {
        break;
      }
      StrCut(a[..], p, left, |left| - 1);
      a[q] := NUL;
      left := left[..|left| - 1];
    }
  }

  lemma LSkipStep(s: string, k: nat)
    requires k < |s|
    ensures LSkip(s[k..]) == if IsSpace(s[k]) then LSkip(s[k + 1..]) else s[k..]
  {
    hide IsSpace, AllSpace;
    assert s[k..][1..] == s[k + 1..];
  }

  method LSkipAt(a: array<char>, p: nat, ghost s: string) returns (q: nat)
    requires Str(a[..], p, s)
    ensures q == p + |s| - |LSkip(s)| && Str(a[..], q, LSkip(s))
  {
    hide IsSpace, AllSpace, LSkip, Str;
    ghost var k, buf := 0, a[..];
    q := p;
    StrStop(buf, p, s, k);
    while a[q] != NUL && IsSpace(a[q])
      invariant q == p + k < a.Length && k <= |s| && LSkip(s[k..]) == LSkip(s)
      invariant a[q] == (if k < |s| then s[k] else NUL) && (k < |s| ==> s[k] != NUL)
      decreases |s| - k
    {
      LSkipStep(s, k);
      k, q := k + 1, q + 1;
      StrStop(buf, p, s, k);
    }
    if k < |s| {
      LSkipStep(s, k);
    }
    StrTail(buf, p, s, k);
  }

  method FindAt(a: array<char>, p: nat, chars: string, ghost s: string) returns (q: nat)
    requires Str(a[..], p, s)
    ensures q == p + Find(s, chars, false)
  {
    q := p;
    var wasSpace := false;
    ghost var left := s;
    while a[q] != NUL && a[q] !in chars && !(wasSpace && a[q] == ';')
      invariant q == p + |s| - |left| && Str(a[..], q, left)
      invariant q + Find(left, chars, wasSpace) == p + Find(s, chars, false)
      decreases |left|
    {
      StrAt(a[..], q, left, 0);
      StrTail(a[..], q, left, 1);
      wasSpace := IsSpace(a[q]);
      left := left[1..];
      q := q + 1;
    }
    if left != [] {
      StrAt(a[..], q, left, 0);
    }
  }

  /** strncpy copies to the NUL and fills up with NULs; the last byte is one in any case. */
  method StrNCpy0(dest: array<char>, a: array<char>, p: nat, ghost s: string)
    requires Str(a[..], p, s) && dest.Length == MAX_SECTION && dest != a
    modifies dest
    ensures Str(dest[..], 0, Shortened(s))
  {
    var i := 0;
    while i < dest.Length - 1 && a[p + i] != NUL
      invariant 0 <= i <= |s| && i <= dest.Length - 1
      invariant forall k :: 0 <= k < i ==> dest[k] == s[k]
    {
      StrAt(a[..], p, s, i);
      dest[i] := a[p + i];
      i := i + 1;
    }
    if i < |s| {
      StrAt(a[..], p, s, i);
    }
    ghost var n := i;
    while i < dest.Length - 1
      invariant n <= i <= dest.Length - 1
      invariant forall k :: 0 <= k < n ==> dest[k] == s[k]
      invariant forall k :: n <= k < i ==> dest[k] == NUL
    {
      dest[i] := NUL;
      i := i + 1;
    }
    dest[dest.Length - 1] := NUL;
    assert dest[..][0..n] == Shortened(s);
  }

  /** ini_parse_string_ctx: what is left of a string. */
  class StringReader {
    const text: string
    var pos: nat

    ghost predicate Valid()
      reads this`pos
    {
      pos <= |text| && NUL !in text
    }

    function Rest(): string
      requires pos <= |text|
      reads this`pos
    {
      text[pos..]
    }

    constructor (text: string)
      requires NUL !in text
      ensures Valid() && this.text == text && Rest() == text
    {
      this.text, pos := text, 0;
    }

    /** ini_reader_string: the next line, or as much of it as fits. */
    method Read(str: array<char>, num: nat) returns (more: bool)
      requires Valid() && num <= str.Length
      modifies this`pos, str
      ensures Valid() && more == (old(Rest()) != [] && num >= 2)
      ensures more ==> Str(str[..], 0, old(Rest())[..LineLength(old(Rest()), num - 1)])
      ensures more ==> Rest() == old(Rest())[LineLength(old(Rest()), num - 1)..]
      ensures !more ==> Rest() == old(Rest())
    {
      if pos == |text| || num < 2 {
        return false;
      }
      ghost var rest := Rest();
      var room: nat, i: nat := num - 1, 0;
      while room > 0 && pos < |text|
        invariant Valid() && i == num - 1 - room && pos == old(pos) + i
        invariant i + LineLength(text[pos..], room) == LineLength(rest, num - 1)
        invariant forall k :: 0 <= k < i ==> str[k] == rest[k]
        decreases room
      {
        var c := text[pos];
        assert text[pos..][1..] == text[pos + 1..];
        pos := pos + 1;
        str[i] := c;
        i := i + 1;
        if c == '\n' {
          break;
        }
        room := room - 1;
      }
      str[i] := NUL;
      assert str[..][0..i] == rest[..i];
      return true;
    }
  }

  /** What was found on a line, as places in the buffer. */
  datatype Found = Skipped | Headed(section: nat) | Paired(name: nat, value: nat) | Wrong

  /** The strings at those places are what the line says. The section is not shortened yet. */
  ghost predicate Matches(buf: seq<char>, f: Found, c: Content) {
    match c
    case Nothing => f == Skipped
    case Section(section) => f.Headed? && exists s :: Str(buf, f.section, s) && section == Shortened(s)
    case Pair(name, value) => f.Paired? && Str(buf, f.name, name) && Str(buf, f.value, value)
    case Mistake => f == Wrong
  }

  method ParseSection(line: array<char>, start: nat, ghost t: string) returns (f: Found)
    requires Str(line[..], start, t) && t != []
    modifies line
    ensures Matches(line[..], f, SectionOf(t))
  {
    hide Find, Shortened;
    StrEnd(line[..], start, t);
    hide Str;
    StrTail(line[..], start, t, 1);
    var end := FindAt(line, start + 1, "]", t[1..]);
    ghost var k := end - start;
    if k < |t| {
      StrAt(line[..], start, t, k);
    }
    if line[end] == ']' {
      StrCut(line[..], start + 1, t[1..], k - 1);
      line[end] := NUL;
      assert t[1..][..k - 1] == t[1..k];
      return Headed(start + 1);
    }
    return Wrong;
  }

  /** The name is cut off at the separator and stripped. */
  method CutName(line: array<char>, start: nat, end: nat, ghost t: string)
    requires Str(line[..], start, t) && start <= end < start + |t|
    modifies line
    ensures Str(line[..], start, RStrip(t[..end - start])) && Str(line[..], end + 1, t[end - start + 1..])
  {
    hide RStrip, Str;
    ghost var k := end - start;
    StrEnd(line[..], start, t);
    StrCut(line[..], start, t, k);
    line[end] := NUL;
    ghost var cut := line[..];
    RStripAt(line, start, t[..k]);
    StrKept(cut, line[..], end + 1, t[k + 1..]);
  }

  method ParsePair(line: array<char>, start: nat, ghost t: string) returns (f: Found)
    requires Str(line[..], start, t)
    modifies line
    ensures Matches(line[..], f, PairOf(t))
  {
    hide RStrip, LSkip, Find, Str, Stops, ValueOf;
    StrEnd(line[..], start, t);
    var end := FindAt(line, start, "=:", t);
    ghost var k := end - start;
    if k < |t| {
      StrAt(line[..], start, t, k);
    }
    if line[end] == '=' || line[end] == ':' {
      CutName(line, start, end, t);
      var value := ParseValue(line, start, end + 1, RStrip(t[..k]), t[k + 1..]);
      return Paired(start, value);
    }
    return Wrong;
  }

  lemma StrEnd(buf: seq<char>, p: nat, s: string)
    requires Str(buf, p, s)
    ensures p + |s| < |buf| && buf[p + |s|] == NUL
  {
  }

  /** The part behind the separator; the name before it stays as it is. */
  method ParseValue(line: array<char>, name: nat, start: nat, ghost n: string, ghost rest: string)
    returns (value: nat)
    requires Str(line[..], name, n) && name + |n| < start && Str(line[..], start, rest)
    modifies line
    ensures Str(line[..], name, n) && Str(line[..], value, ValueOf(rest))
  {
    hide RStrip, LSkip, Find;
    ghost var before := line[..];
    var end := FindAt(line, start, "", rest);
    ghost var k := end - start;
    ghost var u := rest[..k];
    if line[end] != NUL {
      StrCut(line[..], start, rest, k);
      line[end] := NUL;
    } else {
      if k < |rest| {
        StrAt(line[..], start, rest, k);
      }
      assert rest[..k] == rest;
    }
    value := LSkipAt(line, start, u);
    RStripAt(line, value, LSkip(u));
    StrKept(before, line[..], name, n);
  }

  method ParseLine(line: array<char>, ghost s: string) returns (f: Found)
    requires Str(line[..], 0, s)
    modifies line
    ensures Matches(line[..], f, ContentOf(s))
  {
    hide RStrip, LSkip, SectionOf, PairOf;
    RStripAt(line, 0, s);
    var start := LSkipAt(line, 0, RStrip(s));
    ghost var t := LSkip(RStrip(s));
    if t != [] {
      StrAt(line[..], start, t, 0);
    }
    var c := line[start];
    if c == NUL || c in ";#" {
      f := Skipped;
    } else if c == '[' {
      f := ParseSection(line, start, t);
    } else {
      f := ParsePair(line, start, t);
    }
  }

  /** ini_parse_string: what the handler was told, and the number of the first line that failed, or 0. */
  method IniParseString(text: string, accept: seq<Call> -> bool) returns (error: nat, calls: seq<Call>)
    requires NUL !in text
    ensures error == Run(accept, Lines(text)).error && calls == Run(accept, Lines(text)).calls
  {
    var reader := new StringReader(text);
    error, calls := IniParseStream(reader, accept);
  }

  method IniParseStream(stream: StringReader, accept: seq<Call> -> bool) returns (error: nat, calls: seq<Call>)
    requires stream.Valid()
    modifies stream
    ensures stream.Valid() && stream.Rest() == []
    ensures var r := Run(accept, Lines(old(stream.Rest()))); error == r.error && calls == r.calls
  {
    hide ContentOf, LineLength, Step, Str;
    var line := new char[INI_MAX_LINE];
    var section := EmptySection();
    var lineno := 0;
    error, calls := 0, [];
    ghost var all, done := Lines(stream.Rest()), [];
    ghost var state, s := START, "";
    var more := ReadLine(stream, line);
    while more
      invariant fresh(line) && fresh(section) && line != section
      invariant line.Length == INI_MAX_LINE && section.Length == MAX_SECTION
      invariant stream.Valid()
      invariant if more then
          Str(line[..], 0, CString(line[..], 0)) && all == done + [CString(line[..], 0)] + Lines(stream.Rest())
                else all == done && stream.Rest() == []
      invariant state == Run(accept, done) && Str(section[..], 0, state.section)
      invariant state.lineno == lineno && state.error == error && state.calls == calls
      decreases more, |stream.Rest()|
    {
      lineno := lineno + 1;
      s := CString(line[..], 0);
      error, calls := HandleLine(line, section, accept, lineno, error, calls, s, state);
      assert (done + [s])[..|done|] == done;
      state := Step(accept, state, s);
      done := done + [s];
      more := ReadLine(stream, line);
    }
  }

  method EmptySection() returns (section: array<char>)
    ensures fresh(section) && section.Length == MAX_SECTION && Str(section[..], 0, "")
  {
    section := new char[MAX_SECTION](_ => NUL);
    assert section[..][0..0] == [];
  }

  method ReadLine(stream: StringReader, line: array<char>) returns (more: bool)
    requires stream.Valid() && line.Length == INI_MAX_LINE
    modifies stream`pos, line
    ensures stream.Valid() && more == (old(stream.Rest()) != [])
    ensures more ==> Str(line[..], 0, CString(line[..], 0))
    ensures more ==> Lines(old(stream.Rest())) == [CString(line[..], 0)] + Lines(stream.Rest())
    ensures more ==> |stream.Rest()| < |old(stream.Rest())|
    ensures !more ==> stream.Rest() == [] && Lines(old(stream.Rest())) == []
  {
    hide LineLength, Str;
    ghost var rest := stream.Rest();
    more := stream.Read(line, INI_MAX_LINE);
    if more {
      CStringIs(line[..], 0, rest[..LineLength(rest, LINE_ROOM)]);
    }
  }

  method HandleLine(line: array<char>, section: array<char>, accept: seq<Call> -> bool, lineno: nat, error: nat,
    calls: seq<Call>, ghost s: string, ghost state: State) returns (error': nat, calls': seq<Call>)
    requires line != section && section.Length == MAX_SECTION
    requires Str(line[..], 0, s) && Str(section[..], 0, state.section)
    requires lineno == state.lineno + 1 && error == state.error && calls == state.calls
    modifies line, section
    ensures var after := Step(accept, state, s);
      Str(section[..], 0, after.section) && after.lineno == lineno && after.error == error' && after.calls == calls'
  {
    hide ContentOf, Str;
    error', calls' := error, calls;
    var f := ParseLine(line, s);
    match f {
      case Skipped =>
      case Headed(p) =>
        ghost var named :| Str(line[..], p, named) && ContentOf(s) == Section(Shortened(named));
        StrNCpy0(section, line, p, named);
      case Paired(name, value) =>
        var call := CallOf(line, section, name, value, lineno, ContentOf(s), state.section);
        calls' := calls + [call];
        if !accept(calls') && error == 0 {
          error' := lineno;
        }
      case Wrong =>
        if error == 0 {
          error' := lineno;
        }
    }
  }

  /** The strings that the handler is given. */
  method CallOf(line: array<char>, section: array<char>, name: nat, value: nat, lineno: nat, ghost c: Content,
    ghost current: string) returns (call: Call)
    requires c.Pair? && Matches(line[..], Paired(name, value), c) && Str(section[..], 0, current)
    ensures call == Call(current, c.name, c.value, lineno)
  {
    StrEnd(line[..], name, c.name);
    StrEnd(line[..], value, c.value);
    hide Str;
    CStringIs(section[..], 0, current);
    CStringIs(line[..], name, c.name);
    CStringIs(line[..], value, c.value);
    call := Call(CString(section[..], 0), CString(line[..], name), CString(line[..], value), lineno);
  }
}
