/** The order that the calls of src/lib/bootsource.c are meant to keep, and that every possible attempt keeps it. */
module BootOrder {
  import opened BootAttempt

  datatype Phase =
    | Off
    | Failed(source: nat)
    | On(source: nat)
    | Broken(source: nat)
    | Ready(source: nat)
    | HeaderIn(source: nat, next: nat)
    | Sized(source: nat, next: nat, length: nat)
    | DataIn(source: nat)
    | Good(source: nat)
    | Giving(source: nat)
    | Closing(source: nat)
    | Loaded(source: nat)
    | Stuck

  /** The order that is meant: one source at a time, enabled, initialised, read for a header and then for as much data
      as it announces, and released; whatever was initialised is deinitialised and whatever was enabled is disabled,
      once; an image runs at once after its source was released, if and only if its data was good. */
  function Next(c: Config, p: Phase, e: Event): Phase {
    match e
    case Enable(s, ok) => if p == Off && s < |c.sources| then (if ok then On(s) else Failed(s)) else Stuck
    case Init(s, ok) => if p == On(s) then (if ok then Ready(s) else Broken(s)) else Stuck
    case Read(s, offset, length, count) =>
      if s >= |c.sources| || !Aligned(offset, Align(c, s)) || !Aligned(length, Align(c, s)) || count > length then Stuck
      else if p == Ready(s) && length == HeaderPart(c, s) then
        (if count == length then HeaderIn(s, offset + length) else Giving(s))
      else if p == Sized(s, offset, length) then DataIn(s)
      else Stuck
    case HeaderChecked(s, length) =>
      if s >= |c.sources| || !p.HeaderIn? || p.source != s then Stuck
      else if length < 0 || RoundUp(length, Align(c, s)) + HEADER_SIZE > c.maxsize then Giving(s)
      else Sized(s, p.next, RoundUp(length, Align(c, s)))
    case DataChecked(s, good) => if p == DataIn(s) then (if good then Good(s) else Giving(s)) else Stuck
    case Deinit(s) =>
      if p == Broken(s) || p == Giving(s) then Failed(s) else if p == Good(s) then Closing(s) else Stuck
    case Disable(s) => if p == Failed(s) then Off else if p == Closing(s) then Loaded(s) else Stuck
    case Execute(s) => if p == Loaded(s) then Off else Stuck
  }

  function After(c: Config, trace: seq<Event>): Phase {
    if trace == [] then Off else Next(c, After(c, trace[..|trace| - 1]), trace[|trace| - 1])
  }

  /** The sources that were switched on, or tried, and not yet switched off. */
  function Open(trace: seq<Event>): set<nat> {
    if trace == [] then {}
    else
      var before := Open(trace[..|trace| - 1]);
      match trace[|trace| - 1]
      case Enable(s, _) => before + {s}
      case Disable(s) => before - {s}
      case _ => before
  }

  function OpenIn(p: Phase): set<nat> {
    match p
    case Off => {}
    case Loaded(_) => {}
    case Stuck => {}
    case _ => {p.source}
  }

  lemma {:induction false} PrefixNotStuck(c: Config, trace: seq<Event>, n: nat)
    requires n <= |trace| && After(c, trace) != Stuck
    ensures After(c, trace[..n]) != Stuck
    decreases |trace|
  {
    if n == |trace| {
      assert trace[..n] == trace;
    } else {
      LastNotStuck(c, trace);
      PrefixNotStuck(c, trace[..|trace| - 1], n);
      assert trace[..|trace| - 1][..n] == trace[..n];
    }
  }

  lemma LastNotStuck(c: Config, trace: seq<Event>)
    requires trace != [] && After(c, trace) != Stuck
    ensures After(c, trace[..|trace| - 1]) != Stuck
  {
    hide RoundUp, HeaderRead, Aligned;
  }

  lemma {:induction false} OpenByPhase(c: Config, trace: seq<Event>)
    requires After(c, trace) != Stuck
    ensures Open(trace) == OpenIn(After(c, trace))
  {
    hide RoundUp, HeaderRead, Aligned;
    if trace != [] {
      LastNotStuck(c, trace);
      OpenByPhase(c, trace[..|trace| - 1]);
    }
  }

  /** No image runs, and no source is switched on, while any source is still on. */
  lemma NothingElseWhileOn(c: Config, trace: seq<Event>, i: nat)
    requires After(c, trace) != Stuck
    requires i < |trace| && (trace[i].Execute? || trace[i].Enable?)
    ensures Open(trace[..i]) == {}
  {
    StepInto(c, trace, i);
    OpenByPhase(c, trace[..i]);
  }

  lemma StepInto(c: Config, trace: seq<Event>, n: nat)
    requires n < |trace| && After(c, trace) != Stuck
    ensures After(c, trace[..n + 1]) == Next(c, After(c, trace[..n]), trace[n])
    ensures After(c, trace[..n + 1]) != Stuck && After(c, trace[..n]) != Stuck
  {
    PrefixNotStuck(c, trace, n + 1);
    PrefixNotStuck(c, trace, n);
    assert trace[..n + 1][..n] == trace[..n];
  }

  /** Whatever is executed was, by the eight calls just before, found on a source that was switched on and initialised,
      in a full header and the data right behind it, of the length that the header announced, which was found good; and
      the source was released. */
  lemma ExecutedWasLoaded(c: Config, trace: seq<Event>, i: nat, s: nat)
    requires After(c, trace) != Stuck && i < |trace| && trace[i] == Execute(s)
    ensures i >= 8 && s < |c.sources|
    ensures trace[i - 8] == Enable(s, true) && trace[i - 7] == Init(s, true)
    ensures trace[i - 6].Read? && trace[i - 5].HeaderChecked? && trace[i - 4].Read?
    ensures trace[i - 6].source == s && trace[i - 6].length == trace[i - 6].count == HeaderPart(c, s)
    ensures trace[i - 5].source == s && trace[i - 5].verdict >= 0
    ensures trace[i - 4].source == s && trace[i - 4].offset == trace[i - 6].offset + trace[i - 6].length
    ensures trace[i - 4].length == RoundUp(trace[i - 5].verdict, Align(c, s))
    ensures trace[i - 3] == DataChecked(s, true)
    ensures trace[i - 2] == Deinit(s) && trace[i - 1] == Disable(s)
  {
    hide After, RoundUp, HeaderRead, Aligned;
    StepInto(c, trace, i);
    Before(c, trace, i);
    Before(c, trace, i - 1);
    Before(c, trace, i - 2);
    BeforeData(c, trace, i - 3);
    BeforeData(c, trace, i - 4);
    BeforeData(c, trace, i - 5);
    BeforeData(c, trace, i - 6);
    BeforeData(c, trace, i - 7);
  }

  /** The only event that leads into each phase on the way from good data to an execution. */
  lemma Before(c: Config, trace: seq<Event>, n: nat)
    requires n <= |trace| && After(c, trace) != Stuck
    ensures var p := After(c, trace[..n]);
      p.Loaded? || p.Closing? || p.Good? ==>
        && n > 0
        && (p.Loaded? ==> trace[n - 1] == Disable(p.source) && After(c, trace[..n - 1]) == Closing(p.source))
        && (p.Closing? ==> trace[n - 1] == Deinit(p.source) && After(c, trace[..n - 1]) == Good(p.source))
        && (p.Good? ==> trace[n - 1] == DataChecked(p.source, true) && After(c, trace[..n - 1]) == DataIn(p.source))
  {
    hide After, RoundUp, HeaderRead, Aligned;
    if n > 0 {
      StepInto(c, trace, n - 1);
    } else {
      assert trace[..n] == [];
      NothingYet(c);
    }
  }

  /** And on the way to the data. */
  lemma BeforeData(c: Config, trace: seq<Event>, n: nat)
    requires n <= |trace| && After(c, trace) != Stuck
    ensures var p := After(c, trace[..n]);
      p.DataIn? || p.Sized? || p.HeaderIn? || p.Ready? || p.On? ==>
        n > 0 && Leads(c, After(c, trace[..n - 1]), trace[n - 1], p)
  {
    hide After, RoundUp, HeaderRead, Aligned;
    if n > 0 {
      StepInto(c, trace, n - 1);
    } else {
      assert trace[..n] == [];
      NothingYet(c);
    }
  }

  predicate Leads(c: Config, before: Phase, e: Event, p: Phase) {
    match p
    case DataIn(s) => e.Read? && e.source == s && before == Sized(s, e.offset, e.length)
    case Sized(s, next, length) =>
      && e.HeaderChecked? && e.source == s && s < |c.sources| && e.verdict >= 0
      && length == RoundUp(e.verdict, Align(c, s)) && before == HeaderIn(s, next)
    case HeaderIn(s, next) =>
      && e.Read? && e.source == s && s < |c.sources| && e.length == e.count == HeaderPart(c, s)
      && next == e.offset + e.length && before == Ready(s)
    case Ready(s) => e == Init(s, true) && before == On(s)
    case On(s) => e == Enable(s, true)
    case _ => true
  }

  lemma NothingYet(c: Config)
    ensures After(c, []) == Off
  {
  }

  /** Every read is of whole units of the alignment at a whole unit. */
  lemma ReadsAreAligned(c: Config, trace: seq<Event>, i: nat)
    requires After(c, trace) != Stuck && i < |trace| && trace[i].Read?
    ensures trace[i].source < |c.sources|
    ensures Aligned(trace[i].offset, Align(c, trace[i].source))
    ensures Aligned(trace[i].length, Align(c, trace[i].source))
  {
    hide Aligned;
    StepInto(c, trace, i);
  }

  datatype Kind = Enables | Disables | Inits | Deinits

  predicate IsKind(e: Event, kind: Kind, s: nat) {
    match kind
    case Enables => e.Enable? && e.source == s
    case Disables => e == Disable(s)
    case Inits => e.Init? && e.source == s
    case Deinits => e == Deinit(s)
  }

  function Count(trace: seq<Event>, kind: Kind, s: nat): nat {
    if trace == [] then 0
    else Count(trace[..|trace| - 1], kind, s) + (if IsKind(trace[|trace| - 1], kind, s) then 1 else 0)
  }

  predicate InitOpen(p: Phase, s: nat) {
    match p
    case Off => false
    case Failed(_) => false
    case On(_) => false
    case Closing(_) => false
    case Loaded(_) => false
    case Stuck => false
    case _ => p.source == s
  }

  /** On every run each source was switched off as often as on, and deinitialised as often as initialised, but for the
      attempt that is under way. */
  lemma {:induction false} Balanced(c: Config, trace: seq<Event>, s: nat)
    requires After(c, trace) != Stuck
    ensures var p := After(c, trace);
      && Count(trace, Enables, s) == Count(trace, Disables, s) + (if s in OpenIn(p) then 1 else 0)
      && Count(trace, Inits, s) == Count(trace, Deinits, s) + (if InitOpen(p, s) then 1 else 0)
  {
    hide RoundUp, HeaderRead, Aligned;
    if trace != [] {
      LastNotStuck(c, trace);
      Balanced(c, trace[..|trace| - 1], s);
      BalancedStep(c, After(c, trace[..|trace| - 1]), trace[|trace| - 1], s);
    }
  }

  lemma BalancedStep(c: Config, p: Phase, e: Event, s: nat)
    requires p != Stuck && Next(c, p, e) != Stuck
    ensures var p' := Next(c, p, e);
      && (if s in OpenIn(p) then 1 else 0) + (if IsKind(e, Enables, s) then 1 else 0)
         == (if s in OpenIn(p') then 1 else 0) + (if IsKind(e, Disables, s) then 1 else 0)
      && (if InitOpen(p, s) then 1 else 0) + (if IsKind(e, Inits, s) then 1 else 0)
         == (if InitOpen(p', s) then 1 else 0) + (if IsKind(e, Deinits, s) then 1 else 0)
  {
    hide RoundUp, HeaderRead, Aligned;
  }

  // ---- attempts are in order ----

  function Through(c: Config, p: Phase, events: seq<Event>): Phase
    decreases |events|
  {
    if events == [] then p else Through(c, Next(c, p, events[0]), events[1..])
  }

  lemma {:induction false} AfterThrough(c: Config, trace: seq<Event>, events: seq<Event>)
    ensures After(c, trace + events) == Through(c, After(c, trace), events)
    decreases |events|
  {
    hide Next;
    if events == [] {
      assert trace + events == trace;
    } else {
      var more := trace + [events[0]];
      assert more[..|trace|] == trace;
      AfterThrough(c, more, events[1..]);
      assert more + events[1..] == trace + events;
    }
  }

  lemma {:induction false} ThroughBoth(c: Config, p: Phase, a: seq<Event>, b: seq<Event>)
    ensures Through(c, p, a + b) == Through(c, Through(c, p, a), b)
    decreases |a|
  {
    hide Next;
    if a == [] {
      assert a + b == b;
    } else {
      assert (a + b)[1..] == a[1..] + b;
      ThroughBoth(c, Next(c, p, a[0]), a[1..], b);
    }
  }

  lemma ThroughOne(c: Config, p: Phase, e: Event, rest: seq<Event>)
    ensures Through(c, p, [e] + rest) == Through(c, Next(c, p, e), rest)
    ensures Through(c, p, [e]) == Next(c, p, e)
  {
    assert ([e] + rest)[1..] == rest && [e][1..] == [];
  }

  lemma Four(c: Config, p: Phase, e0: Event, e1: Event, e2: Event, e3: Event)
    ensures Through(c, p, [e0, e1]) == Next(c, Next(c, p, e0), e1)
    ensures Through(c, p, [e0, e1, e2, e3]) == Next(c, Next(c, Next(c, Next(c, p, e0), e1), e2), e3)
  {
    hide Next;
    ThroughOne(c, p, e0, [e1]);
    ThroughOne(c, Next(c, p, e0), e1, []);
    assert [e0] + [e1] == [e0, e1];
    ThroughOne(c, p, e0, [e1, e2, e3]);
    ThroughOne(c, Next(c, p, e0), e1, [e2, e3]);
    ThroughOne(c, Next(c, Next(c, p, e0), e1), e2, [e3]);
    ThroughOne(c, Next(c, Next(c, Next(c, p, e0), e1), e2), e3, []);
    assert [e0] + [e1, e2, e3] == [e0, e1, e2, e3] && [e1] + [e2, e3] == [e1, e2, e3] && [e2] + [e3] == [e2, e3];
  }

  /** The steps of loading, each in its phase. */
  lemma LoadSteps(c: Config, s: nat, at: nat, load: Load)
    requires s < |c.sources| && Aligned(at, Align(c, s)) && CanLoad(c, s, at, load)
    ensures var h := HeaderPart(c, s);
      && (load.Short? ==> Next(c, Ready(s), Read(s, at, h, load.count)) == Giving(s))
      && (!load.Short? ==> Next(c, Ready(s), Read(s, at, h, h)) == HeaderIn(s, at + h))
      && (load.BadHeader? ==> Next(c, HeaderIn(s, at + h), HeaderChecked(s, load.code)) == Giving(s))
      && (load.TooBig? ==> Next(c, HeaderIn(s, at + h), HeaderChecked(s, load.length)) == Giving(s))
    ensures load.Data? ==>
        var h, length := HeaderPart(c, s), RoundUp(load.length, Align(c, s));
        && Next(c, HeaderIn(s, at + h), HeaderChecked(s, load.length)) == Sized(s, at + h, length)
        && Next(c, Sized(s, at + h, length), Read(s, at + h, length, load.count)) == DataIn(s)
        && Next(c, DataIn(s), DataChecked(s, load.good)) == (if load.good then Good(s) else Giving(s))
  {
    HeaderReadIsLeast(Align(c, s));
    SumAligned(at, HeaderPart(c, s), Align(c, s));
    if load.Data? {
      RoundUpIsLeast(load.length, Align(c, s));
    }
    hide RoundUp, HeaderRead, Aligned;
  }

  lemma LoadInOrder(c: Config, s: nat, at: nat, load: Load)
    requires s < |c.sources| && Aligned(at, Align(c, s)) && CanLoad(c, s, at, load)
    ensures Through(c, Ready(s), LoadEvents(c, s, at, load)) == if IsGood(load) then Good(s) else Giving(s)
  {
    LoadSteps(c, s, at, load);
    hide Next, RoundUp, CanLoad, HeaderPart, Through;
    var h := HeaderPart(c, s);
    match load
    case Short(count) => ThroughOne(c, Ready(s), Read(s, at, h, count), []);
    case BadHeader(length) => Four(c, Ready(s), Read(s, at, h, h), HeaderChecked(s, length), Deinit(s), Deinit(s));
    case TooBig(length) => Four(c, Ready(s), Read(s, at, h, h), HeaderChecked(s, length), Deinit(s), Deinit(s));
    case Data(length, count, good) =>
      var data := Read(s, at + h, RoundUp(length, Align(c, s)), count);
      Four(c, Ready(s), Read(s, at, h, h), HeaderChecked(s, length), data, DataChecked(s, good));
  }

  /** Every possible attempt, from a trace at rest, keeps the order and comes to rest. */
  lemma AttemptInOrder(c: Config, trace: seq<Event>, s: nat, offset: nat, a: Attempt)
    requires After(c, trace) == Off && s < |c.sources| && CanAttempt(c, s, offset, a)
    ensures After(c, trace + Events(c, s, offset, a)) == Off
  {
    AfterThrough(c, trace, Events(c, s, offset, a));
    RoundUpIsLeast(offset, Align(c, s));
    var at := RoundUp(offset, Align(c, s));
    EdgeSteps(c, s);
    hide After, Next, RoundUp, CanLoad, LoadEvents, Through, Aligned;
    Four(c, Off, Enable(s, false), Disable(s), Deinit(s), Deinit(s));
    Four(c, Off, Enable(s, true), Init(s, false), Deinit(s), Disable(s));
    Four(c, Off, Enable(s, true), Init(s, true), Deinit(s), Deinit(s));
    Four(c, Giving(s), Deinit(s), Disable(s), Deinit(s), Deinit(s));
    Four(c, Good(s), Deinit(s), Disable(s), Deinit(s), Deinit(s));
    ThroughOne(c, Loaded(s), Execute(s), []);
    if a.Refused? || a.Ran? {
      LoadInOrder(c, s, at, a.load);
      var opening, closing := [Enable(s, true), Init(s, true)], [Deinit(s), Disable(s)];
      var loading := LoadEvents(c, s, at, a.load);
      ThroughBoth(c, Off, opening, loading);
      ThroughBoth(c, Off, opening + loading, closing);
      ThroughBoth(c, Off, opening + loading + closing, [Execute(s)]);
    }
  }

  lemma EdgeSteps(c: Config, s: nat)
    requires s < |c.sources|
    ensures Next(c, Off, Enable(s, false)) == Failed(s) && Next(c, Off, Enable(s, true)) == On(s)
    ensures Next(c, On(s), Init(s, false)) == Broken(s) && Next(c, On(s), Init(s, true)) == Ready(s)
    ensures Next(c, Broken(s), Deinit(s)) == Failed(s) && Next(c, Giving(s), Deinit(s)) == Failed(s)
    ensures Next(c, Good(s), Deinit(s)) == Closing(s) && Next(c, Failed(s), Disable(s)) == Off
    ensures Next(c, Closing(s), Disable(s)) == Loaded(s) && Next(c, Loaded(s), Execute(s)) == Off
  {
  }
}
