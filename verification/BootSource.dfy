/** The boot-source chain of src/lib/bootsource.c: the program with its loops, proved against the attempts it may make
    and the order in which the sources are to be tried.

    A run is observed until control stays in an image for good, or until the images have sent it to another device as
    often as the observer cares to follow. */
module BootSource {
  import opened BootAttempt
  import opened BootOrder
  import opened Wrappers

  // ---- several attempts at one source, and the order of the sources ----

  function OffsetThen(c: Config, s: nat, offset: nat, tries: seq<Attempt>): nat
    requires s < |c.sources|
  {
    if tries == [] then offset
    else OffsetAfter(c, s, OffsetThen(c, s, offset, tries[..|tries| - 1]), tries[|tries| - 1])
  }

  function SingleEvents(c: Config, s: nat, offset: nat, tries: seq<Attempt>): seq<Event>
    requires s < |c.sources|
  {
    if tries == [] then []
    else
      var front := tries[..|tries| - 1];
      SingleEvents(c, s, offset, front) + Events(c, s, OffsetThen(c, s, offset, front), tries[|tries| - 1])
  }

  /** Possible attempts one behind the other, all but the last with the result 0. */
  predicate IsSingle(c: Config, s: nat, offset: nat, tries: seq<Attempt>)
    requires s < |c.sources|
  {
    tries == [] ||
    var front := tries[..|tries| - 1];
    && IsSingle(c, s, offset, front) && (front != [] ==> Result(front[|front| - 1]) == 0)
    && CanAttempt(c, s, OffsetThen(c, s, offset, front), tries[|tries| - 1])
  }

  lemma {:induction false} SingleInOrder(c: Config, trace: seq<Event>, s: nat, offset: nat, tries: seq<Attempt>)
    requires After(c, trace) == Off && s < |c.sources| && IsSingle(c, s, offset, tries)
    ensures After(c, trace + SingleEvents(c, s, offset, tries)) == Off
    decreases |tries|
  {
    hide After, Events, CanAttempt;
    if tries == [] {
      assert trace + [] == trace;
    } else {
      var front, last := tries[..|tries| - 1], tries[|tries| - 1];
      SingleInOrder(c, trace, s, offset, front);
      var at := OffsetThen(c, s, offset, front);
      AttemptInOrder(c, trace + SingleEvents(c, s, offset, front), s, at, last);
      assert trace + SingleEvents(c, s, offset, tries)
          == trace + SingleEvents(c, s, offset, front) + Events(c, s, at, last);
    }
  }

  /** A source with the attempts that were made at it. */
  datatype Visit = Visit(source: nat, tries: seq<Attempt>)

  function VisitResult(v: Visit): int
    requires v.tries != []
  {
    Result(v.tries[|v.tries| - 1])
  }

  /** find_source_by_id: the source with that number, if there are so many. */
  function Find(count: nat, id: int): Option<nat> {
    if 0 <= id < count then Some(id) else None
  }

  /** Where the chain goes after a source gave that result. */
  function Follow(count: nat, source: nat, result: int): Option<nat> {
    if result > 0 then Find(count, result - 1)
    else if result == -ETOHOST then None
    else if source + 1 < count then Some(source + 1)
    else None
  }

  function VisitEvents(c: Config, v: Visit): seq<Event>
    requires v.source < |c.sources|
  {
    SingleEvents(c, v.source, c.sources[v.source].offset, v.tries)
  }

  predicate IsVisit(c: Config, v: Visit) {
    && v.source < |c.sources| && v.tries != []
    && IsSingle(c, v.source, c.sources[v.source].offset, v.tries)
  }

  /** Where the chain is to go after those visits. */
  function NextSource(c: Config, visits: seq<Visit>): Option<nat>
    requires visits != [] ==> visits[|visits| - 1].tries != []
  {
    if visits == [] then Find(|c.sources|, 0)
    else
      var v := visits[|visits| - 1];
      Follow(|c.sources|, v.source, VisitResult(v))
  }

  /** The sources were visited from the first one on, each being given up with a result other than 0 and followed by the
      one that its result asks for; the last visit may still be under way. */
  predicate IsChain(c: Config, visits: seq<Visit>) {
    visits == [] ||
    var front, v := visits[..|visits| - 1], visits[|visits| - 1];
    && IsChain(c, front) && IsVisit(c, v)
    && (front != [] ==> front[|front| - 1].tries != [] && VisitResult(front[|front| - 1]) != 0)
    && NextSource(c, front) == Some(v.source)
  }

  function ChainEvents(c: Config, visits: seq<Visit>): seq<Event>
    requires forall i :: 0 <= i < |visits| ==> visits[i].source < |c.sources|
  {
    if visits == [] then []
    else ChainEvents(c, visits[..|visits| - 1]) + VisitEvents(c, visits[|visits| - 1])
  }

  lemma {:induction false} ChainSources(c: Config, visits: seq<Visit>)
    requires IsChain(c, visits)
    ensures forall i :: 0 <= i < |visits| ==> visits[i].source < |c.sources| && visits[i].tries != []
  {
    hide NextSource, IsSingle;
    if visits != [] {
      ChainSources(c, visits[..|visits| - 1]);
    }
  }

  /** The trace of every run of the chain is in order. */
  lemma {:induction false} ChainInOrder(c: Config, visits: seq<Visit>)
    requires IsChain(c, visits)
    ensures forall i :: 0 <= i < |visits| ==> visits[i].source < |c.sources|
    ensures After(c, ChainEvents(c, visits)) == Off
  {
    ChainSources(c, visits);
    hide NextSource, After, SingleEvents, IsSingle;
    if visits == [] {
      NothingYet(c);
    } else {
      var front, v := visits[..|visits| - 1], visits[|visits| - 1];
      ChainInOrder(c, front);
      SingleInOrder(c, ChainEvents(c, front), v.source, c.sources[v.source].offset, v.tries);
    }
  }

  /** While no image asks for a device, the chain is the table in its order, and it is left early only to host mode. */
  lemma {:induction false} PlainChain(c: Config, visits: seq<Visit>)
    requires IsChain(c, visits)
    requires forall v :: v in visits && v.tries != [] ==> VisitResult(v) <= 0
    ensures forall i :: 0 <= i < |visits| ==> visits[i].source == i && visits[i].tries != []
    ensures forall i :: 0 <= i < |visits| - 1 ==> VisitResult(visits[i]) != -ETOHOST
  {
    hide IsSingle;
    if visits != [] {
      var front := visits[..|visits| - 1];
      PlainChain(c, front);
      if front != [] {
        assert front[|front| - 1] in visits;
      }
    }
  }

  lemma {:induction false} ChainStep(c: Config, visits: seq<Visit>, i: nat)
    requires IsChain(c, visits) && i < |visits|
    ensures IsVisit(c, visits[i])
    ensures i > 0 ==> visits[i - 1].tries != []
    ensures i > 0 ==>
      Follow(|c.sources|, visits[i - 1].source, VisitResult(visits[i - 1])) == Some(visits[i].source)
    decreases |visits|
  {
    hide IsVisit;
    if i < |visits| - 1 {
      ChainStep(c, visits[..|visits| - 1], i);
    }
  }

  lemma ChainStarts(c: Config)
    ensures IsChain(c, []) && ChainEvents(c, []) == [] && NextSource(c, []) == Find(|c.sources|, 0)
  {
  }

  /** One more visit, to the source that the chain asks for. */
  lemma ChainGrows(c: Config, front: seq<Visit>, v: Visit)
    requires IsChain(c, front) && (forall i :: 0 <= i < |front| ==> front[i].source < |c.sources|) && IsVisit(c, v)
    requires front != [] ==> front[|front| - 1].tries != [] && VisitResult(front[|front| - 1]) != 0
    requires NextSource(c, front) == Some(v.source)
    ensures var visits := front + [v];
      && IsChain(c, visits) && NextSource(c, visits) == Follow(|c.sources|, v.source, VisitResult(v))
      && (forall i :: 0 <= i < |visits| ==> visits[i].source < |c.sources|)
      && ChainEvents(c, visits) == ChainEvents(c, front) + VisitEvents(c, v)
  {
    hide IsSingle, VisitEvents, Follow, VisitResult;
    assert (front + [v])[..|front|] == front;
  }

  // ---- what the order comes to ----

  /** After a visit that gave the number of a device, numbered from 1, comes that device; a visit that gave an error is
      followed by the next source, but never one that asked for the host. */
  predicate FollowsAsAsked(c: Config, v: Visit, next: Visit)
    requires v.tries != []
  {
    && next.source < |c.sources|
    && if VisitResult(v) > 0 then next.source == VisitResult(v) - 1
       else VisitResult(v) != 0 && VisitResult(v) != -11 && next.source == v.source + 1
  }

  /** The first source comes first, and every other visit as the one before it asks. */
  predicate GoesAsAsked(c: Config, visits: seq<Visit>)
    requires forall i :: 0 <= i < |visits| ==> visits[i].tries != []
  {
    && (visits != [] ==> visits[0].source == 0 && |c.sources| > 0)
    && forall i :: 1 <= i < |visits| ==> FollowsAsAsked(c, visits[i - 1], visits[i])
  }

  /** Where it stops: at a device that the table does not have, at the host, or behind the last source. */
  predicate EndsAsAsked(c: Config, visits: seq<Visit>)
    requires forall i :: 0 <= i < |visits| ==> visits[i].tries != []
  {
    if visits == [] then |c.sources| == 0
    else
      var source, result := visits[|visits| - 1].source, VisitResult(visits[|visits| - 1]);
      if result > 0 then result > |c.sources|
      else result != 0 && (result == -11 || source + 1 == |c.sources|)
  }

  lemma {:induction false} ChainGoesAsAsked(c: Config, visits: seq<Visit>)
    requires IsChain(c, visits)
    ensures forall i :: 0 <= i < |visits| ==> visits[i].tries != []
    ensures GoesAsAsked(c, visits)
  {
    ChainSources(c, visits);
    hide FollowsAsAsked, IsChain, VisitResult;
    if visits != [] {
      FirstVisit(c, visits);
      forall i | 1 <= i < |visits| ensures FollowsAsAsked(c, visits[i - 1], visits[i]) {
        ChainStep(c, visits, i);
        NonzeroBefore(c, visits, i);
        FollowIsAsked(c, visits[i - 1], visits[i]);
      }
    }
  }

  lemma {:induction false} FirstVisit(c: Config, visits: seq<Visit>)
    requires IsChain(c, visits) && visits != []
    ensures visits[0].source == 0 && |c.sources| > 0
    decreases |visits|
  {
    hide IsVisit;
    if |visits| > 1 {
      FirstVisit(c, visits[..|visits| - 1]);
    }
  }

  lemma {:induction false} NonzeroBefore(c: Config, visits: seq<Visit>, i: nat)
    requires IsChain(c, visits) && 1 <= i < |visits|
    ensures visits[i - 1].tries != [] && VisitResult(visits[i - 1]) != 0
    decreases |visits|
  {
    hide IsVisit, NextSource;
    if i < |visits| - 1 {
      NonzeroBefore(c, visits[..|visits| - 1], i);
    }
  }

  lemma FollowIsAsked(c: Config, v: Visit, next: Visit)
    requires v.tries != [] && VisitResult(v) != 0
    requires Follow(|c.sources|, v.source, VisitResult(v)) == Some(next.source)
    ensures FollowsAsAsked(c, v, next)
  {
  }

  /** The visits are those of the whole table in its order, or of the sources up to the one that asked for the host. */
  predicate IsTable(c: Config, visits: seq<Visit>)
    requires forall i :: 0 <= i < |visits| ==> visits[i].tries != []
  {
    && (forall i :: 0 <= i < |visits| ==> visits[i].source == i)
    && (|visits| == |c.sources| || (visits != [] && VisitResult(visits[|visits| - 1]) == -11))
  }

  /** A chain that is over has ended as asked, and while no image asks for a device it was the table in its order. */
  lemma {:induction false} ChainOver(c: Config, visits: seq<Visit>)
    requires IsChain(c, visits) && (forall i :: 0 <= i < |visits| ==> visits[i].tries != [])
    requires visits != [] ==> VisitResult(visits[|visits| - 1]) != 0
    requires NextSource(c, visits) == None
    ensures EndsAsAsked(c, visits)
    ensures (forall i :: 0 <= i < |visits| ==> VisitResult(visits[i]) <= 0) ==> IsTable(c, visits)
  {
    ChainGoesAsAsked(c, visits);
    hide IsChain;
    if forall i :: 0 <= i < |visits| ==> VisitResult(visits[i]) <= 0 {
      var i := 0;
      while i < |visits|
        invariant 0 <= i <= |visits| && forall j :: 0 <= j < i ==> visits[j].source == j
      {
        if i > 0 {
          assert visits[i - 1].source == i - 1 && VisitResult(visits[i - 1]) <= 0;
          assert FollowsAsAsked(c, visits[i - 1], visits[i]);
        }
        i := i + 1;
      }
    }
  }

  /** Once no image asks for a device any more, at most the table is left. */
  lemma {:induction false} ChainEnds(c: Config, visits: seq<Visit>, k: nat)
    requires IsChain(c, visits) && k < |visits|
    requires forall i :: k <= i < |visits| && visits[i].tries != [] ==> VisitResult(visits[i]) <= 0
    ensures |visits| <= k + |c.sources|
  {
    var i := k;
    ChainStep(c, visits, k);
    while i < |visits| - 1
      invariant k <= i < |visits| && visits[i].source == visits[k].source + (i - k) < |c.sources|
    {
      ChainStep(c, visits, i);
      i := i + 1;
      ChainStep(c, visits, i);
    }
  }

  /** But an image that asks for its own device, found good there each time, makes chains of every length. */
  lemma {:induction false} Loops(c: Config, load: Load, n: nat) returns (visits: seq<Visit>)
    requires |c.sources| > 0 && CanAttempt(c, 0, c.sources[0].offset, Ran(load, 1))
    ensures IsChain(c, visits) && |visits| == n
    ensures forall i :: 0 <= i < n ==> visits[i] == Visit(0, [Ran(load, 1)])
  {
    visits := [];
    if n > 0 {
      var v := Visit(0, [Ran(load, 1)]);
      var front := Loops(c, load, n - 1);
      visits := front + [v];
      SelfVisit(c, v, load);
      assert visits[..|visits| - 1] == front;
      assert front != [] ==> front[|front| - 1] == v;
    }
  }

  lemma SelfVisit(c: Config, v: Visit, load: Load)
    requires |c.sources| > 0 && CanAttempt(c, 0, c.sources[0].offset, Ran(load, 1)) && v == Visit(0, [Ran(load, 1)])
    ensures IsVisit(c, v) && VisitResult(v) == 1
  {
    hide CanAttempt;
    var offset := c.sources[0].offset;
    assert v.tries[..|v.tries| - 1] == [];
    assert IsSingle(c, 0, offset, []) && OffsetThen(c, 0, offset, []) == offset;
  }

  /** The word as the four bytes that a little-endian processor stores. */
  function Stored(word: int): (r: seq<bv8>)
    ensures |r| == 4
  {
    var w := (word % 0x1_0000_0000) as bv32;
    [(w & 0xff) as bv8, ((w >> 8) & 0xff) as bv8, ((w >> 16) & 0xff) as bv8, (w >> 24) as bv8]
  }

  /** The low byte comes first. */
  lemma StoredIs(word: int)
    ensures var b := Stored(word);
            (b[0] as bv32) | (b[1] as bv32 << 8) | (b[2] as bv32 << 16) | (b[3] as bv32 << 24)
            == (word % 0x1_0000_0000) as bv32
  {
    FourBytes((word % 0x1_0000_0000) as bv32);
  }

  lemma FourBytes(w: bv32)
    ensures ((w & 0xff) as bv8 as bv32) | (((w >> 8) & 0xff) as bv8 as bv32 << 8)
            | (((w >> 16) & 0xff) as bv8 as bv32 << 16) | ((w >> 24) as bv8 as bv32 << 24) == w
  {
  }

  // ---- the program ----

  class BootRom {
    const c: Config
    /** The memory from hdr on. */
    const hdr: array<bv8>
    var trace: seq<Event>
    /** How many more times the observer follows an image to another device. */
    var jumps: nat
    /** Control did not come back, or is not followed any further. */
    var over: bool

    constructor (c: Config, hdr: array<bv8>, jumps: nat)
      ensures this.c == c && this.hdr == hdr && this.jumps == jumps && trace == [] && !over
    {
      this.c, this.hdr, this.jumps := c, hdr, jumps;
      trace, over := [], false;
    }

    ghost predicate Room(s: nat) {
      s < |c.sources| && hdr.Length >= Needed(c, s)
    }

    method Log(e: Event)
      modifies this`trace
      ensures trace == old(trace) + [e]
    {
      trace := trace + [e];
    }

    method BootsourceInit(s: nat) returns (ret: bool, ghost a: Attempt)
      requires s < |c.sources|
      modifies this`trace
      ensures ret ==> trace == old(trace) + [Enable(s, true), Init(s, true)]
      ensures !ret ==> (a == NotEnabled || a == NotInitialised) && trace == old(trace) + Events(c, s, 0, a)
    {
      ret := *;
      a := NotEnabled;
      Log(Enable(s, ret));
      if ret {
        a := NotInitialised;
        ret := *;
        Log(Init(s, ret));
        if ret {
          return;
        }
        Log(Deinit(s));
      }
      Log(Disable(s));
    }

    /** The plugin's read delivers at most what is asked for and what the media holds there. */
    method PluginRead(s: nat, at: nat, offset: nat, length: nat) returns (count: nat)
      requires s < |c.sources| && at + length <= hdr.Length
      modifies this`trace, hdr
      ensures trace == old(trace) + [Read(s, offset, length, count)] && CanRead(c, s, offset, length, count)
      ensures hdr[..at] == old(hdr[..at])
      ensures count > 0 ==> hdr[at..at + count] == c.sources[s].media[offset..offset + count]
    {
      var most: int := |c.sources[s].media| - offset;
      var want: int := *;
      count := if want < 0 || most < 0 then 0 else if want > length then length else want;
      count := if most >= 0 && count > most then most else count;
      ghost var head := hdr[..at];
      for i := 0 to count
        modifies hdr
        invariant forall k :: 0 <= k < at ==> hdr[k] == head[k]
        invariant forall k :: at <= k < at + i ==> hdr[k] == c.sources[s].media[offset + k - at]
      {
        hdr[at + i] := c.sources[s].media[offset + i];
      }
      Log(Read(s, offset, length, count));
    }

    /** A misaligned offset is refused and a misaligned length cut; anything aligned goes to the plugin as it is. */
    method BootsourceRead(s: nat, at: nat, offset: nat, len: nat) returns (count: nat)
      requires s < |c.sources| && at + len <= hdr.Length
      modifies this`trace, hdr
      ensures !Aligned(offset, Align(c, s)) ==> count == 0 && trace == old(trace) && hdr[..] == old(hdr[..])
      ensures Aligned(offset, Align(c, s)) ==>
          var length := WholeUnits(len, Align(c, s));
          trace == old(trace) + [Read(s, offset, length, count)] && CanRead(c, s, offset, length, count)
      ensures hdr[..at] == old(hdr[..at])
      ensures count > 0 ==> offset + count <= |c.sources[s].media|
      ensures count > 0 ==> hdr[at..at + count] == c.sources[s].media[offset..offset + count]
    {
      var length := len;
      UnitsOf(len, Align(c, s));
      if Align(c, s) != 0 {
        if offset % Align(c, s) != 0 {
          return 0;
        }
        var misalign := len % Align(c, s);
        if misalign != 0 {
          length := length - misalign;
        }
      }
      assert length == WholeUnits(len, Align(c, s)) && Aligned(offset, Align(c, s));
      hide *;
      count := PluginRead(s, at, offset, length);
      WithinMedia(c, s, offset, length, count);
    }

    method BootsourceDeinit(s: nat)
      modifies this`trace
      ensures trace == old(trace) + [Deinit(s), Disable(s)]
    {
      Log(Deinit(s));
      Log(Disable(s));
    }

    /** Memory from hdr on is a copy of that stretch of the media. */
    ghost predicate IsCopy(s: nat, from: nat, to: nat)
      requires s < |c.sources|
      reads hdr
    {
      && from <= to <= |c.sources[s].media| && to - from <= hdr.Length
      && hdr[..to - from] == c.sources[s].media[from..to]
    }

    /** The calls, the result and the offset are those of one way to load; and when both reads were whole, memory from
        hdr on is one copy of the media over header and data. */
    method BootsourceLoadImg(s: nat, offset: nat) returns (ret: int, offset': nat, ghost load: Load)
      requires Room(s) && Aligned(offset, Align(c, s))
      modifies this`trace, hdr
      ensures CanLoad(c, s, offset, load) && trace == old(trace) + LoadEvents(c, s, offset, load)
      ensures ret == LoadResult(load) && offset' == LoadEnd(c, s, offset, load)
      ensures load.Data? && load.count == RoundUp(load.length, Align(c, s)) ==> IsCopy(s, offset, offset')
    {
      ghost var before := trace;
      var align := Align(c, s);
      var h := HeaderRead(align);
      HeaderReadIsLeast(align);
      SumAligned(offset, h, align);
      hide Aligned, RoundUp, HeaderRead, Needed, IsCopy, CanLoad, LoadEvents, CanRead;
      var count := ReadHeader(s, offset, h);
      LoadParts(c, s, offset, before, Short(count));
      if count < h {
        load := Short(count);
        return -EIO, offset, load;
      }
      offset' := offset + count;
      var len: int := *;
      Log(HeaderChecked(s, len));
      if len < 0 {
        load := BadHeader(len);
        LoadParts(c, s, offset, before, load);
        return len, offset', load;
      }
      ret, offset', load := LoadData(s, offset, offset', len, before);
    }

    /** The second half: a header that announces len bytes has been read and found good. */
    method LoadData(s: nat, offset: nat, behind: nat, len: nat, ghost before: seq<Event>)
      returns (ret: int, offset': nat, ghost load: Load)
      requires Room(s) && behind == offset + HeaderPart(c, s) && Aligned(behind, Align(c, s))
      requires CanRead(c, s, offset, HeaderPart(c, s), HeaderPart(c, s)) && IsCopy(s, offset, behind)
      requires var h := HeaderPart(c, s); trace == before + [Read(s, offset, h, h)] + [HeaderChecked(s, len)]
      modifies this`trace, hdr
      ensures CanLoad(c, s, offset, load) && trace == before + LoadEvents(c, s, offset, load)
      ensures ret == LoadResult(load) && offset' == LoadEnd(c, s, offset, load)
      ensures load.Data? && load.count == RoundUp(load.length, Align(c, s)) ==> IsCopy(s, offset, offset')
    {
      RoundUpIsLeast(len, Align(c, s));
      hide Aligned, RoundUp, HeaderRead, Needed, IsCopy, CanLoad, LoadEvents, CanRead;
      var length := RoundUp(len, Align(c, s));
      if length + HEADER_SIZE > c.maxsize {
        load := TooBig(len);
        LoadParts(c, s, offset, before, load);
        return -ETOOBIG, behind, load;
      }
      Fits(s, len);
      var count := ReadBehind(s, offset, HeaderPart(c, s), length);
      var good: bool := *;
      Log(DataChecked(s, good));
      load := Data(len, count, good);
      LoadParts(c, s, offset, before, load);
      offset' := behind + length;
      ret := if good then 0 else -EBADDATACRC;
    }

    /** The first read. */
    method ReadHeader(s: nat, offset: nat, h: nat) returns (count: nat)
      requires Room(s) && h == HeaderPart(c, s) && Aligned(offset, Align(c, s)) && Aligned(h, Align(c, s))
      modifies this`trace, hdr
      ensures trace == old(trace) + [Read(s, offset, h, count)] && CanRead(c, s, offset, h, count) && count <= h
      ensures count == h ==> IsCopy(s, offset, offset + h)
    {
      NeedsHeader(c, s);
      hide Aligned, RoundUp, HeaderRead, WholeUnits, Needed;
      count := BootsourceRead(s, 0, offset, h);
    }

    /** The second read, behind a header of h bytes that has been read. */
    method ReadBehind(s: nat, offset: nat, h: nat, len: nat) returns (count: nat)
      requires s < |c.sources| && h + len <= hdr.Length && IsCopy(s, offset, offset + h)
      requires Aligned(offset + h, Align(c, s)) && Aligned(len, Align(c, s))
      modifies this`trace, hdr
      ensures trace == old(trace) + [Read(s, offset + h, len, count)] && CanRead(c, s, offset + h, len, count)
      ensures count == len ==> IsCopy(s, offset, offset + h + len)
    {
      hide Aligned, WholeUnits;
      count := BootsourceRead(s, h, offset + h, len);
      if count == len && len > 0 {
        OneStretch(hdr[..], c.sources[s].media, offset, h, count);
      }
    }

    lemma Fits(s: nat, length: nat)
      requires Room(s) && RoundUp(length, Align(c, s)) + HEADER_SIZE <= c.maxsize
      ensures HeaderPart(c, s) + RoundUp(length, Align(c, s)) <= hdr.Length
    {
      RoundUpIsLeast(length, Align(c, s));
      BelowWhole(RoundUp(length, Align(c, s)), c.maxsize - HEADER_SIZE, Align(c, s));
    }

    /** dst->magic = word */
    method WriteMagic(word: int)
      requires hdr.Length >= 4
      modifies hdr
      ensures hdr[..4] == Stored(word) && hdr[4..] == old(hdr[4..])
    {
      var w := Stored(word);
      hdr[0], hdr[1], hdr[2], hdr[3] := w[0], w[1], w[2], w[3];
    }

    /** rumboot_bootimage_execute, seen from here: the image may do as it likes with the memory, may keep control, and
        may give it back with any code. */
    method BootimageExecute(s: nat) returns (ret: int)
      requires !over
      modifies this`trace, this`jumps, this`over, hdr
      ensures trace == old(trace) + [Execute(s)]
      ensures jumps <= old(jumps) && (!over && ret > 0 ==> jumps < old(jumps))
    {
      Log(Execute(s));
      modify hdr;
      ret := *;
      over := *;
      if ret > 0 {
        if jumps == 0 {
          over := true;
        } else {
          jumps := jumps - 1;
        }
      }
    }

    /** One attempt: calls, result and offset are those of the attempt, and a failure to load leaves its number in the
        magic. */
    method BootsourceTrySourceOnce(s: nat, offset: nat) returns (ret: int, offset': nat, ghost a: Attempt)
      requires Room(s) && !over
      modifies this`trace, this`jumps, this`over, hdr
      ensures CanAttempt(c, s, offset, a) && trace == old(trace) + Events(c, s, offset, a)
      ensures ret == Result(a) && offset' == OffsetAfter(c, s, offset, a)
      ensures a.Refused? ==> hdr[..4] == Stored(-ret)
      ensures over ==> a.Ran?
      ensures jumps <= old(jumps) && (!over && a.Ran? && ret > 0 ==> jumps < old(jumps))
    {
      hide RoundUp, HeaderRead, Aligned, Stored, CanLoad, LoadEvents, Events, LoadEnd, LoadResult;
      ghost var trace0 := trace;
      var enabled;
      enabled, a := BootsourceInit(s);
      if !enabled {
        NothingRead(c, s, offset, a);
        return -EBADSOURCE, offset, a;
      }
      var at := RoundUp(offset, Align(c, s));
      RoundUpIsLeast(offset, Align(c, s));
      HeaderReadIsLeast(Align(c, s));
      ghost var load;
      ret, offset', load := BootsourceLoadImg(s, at);
      BootsourceDeinit(s);
      if ret != 0 {
        NotGood(c, s, at, load);
        LoadedEvents(c, s, offset, load, 0, trace0);
        WriteMagic(-ret);
        a := Refused(load);
        return;
      }
      NotGood(c, s, at, load);
      ret := BootimageExecute(s);
      LoadedEvents(c, s, offset, load, ret, trace0);
      a := Ran(load, ret);
    }

    /** Images are taken from the media one behind the other until one does not end with 0. */
    method BootsourceTrySingle(s: nat, offset: nat) returns (ret: int, offset': nat, ghost tries: seq<Attempt>)
      requires Room(s) && !over
      modifies this`trace, this`jumps, this`over, hdr
      ensures IsSingle(c, s, offset, tries) && tries != [] && trace == old(trace) + SingleEvents(c, s, offset, tries)
      ensures ret == Result(tries[|tries| - 1]) && offset' == OffsetThen(c, s, offset, tries)
      ensures !over ==> ret != 0
      ensures jumps <= old(jumps) && (!over && ret > 0 ==> jumps < old(jumps))
    {
      hide Events, CanAttempt, OffsetAfter, HeaderPart;
      offset', ret, tries := offset, 0, [];
      ghost var trace0 := trace;
      while ret == 0
        invariant !over && IsSingle(c, s, offset, tries) && trace == trace0 + SingleEvents(c, s, offset, tries)
        invariant offset' == OffsetThen(c, s, offset, tries)
        invariant if tries == [] then ret == 0 else ret == Result(tries[|tries| - 1])
        invariant jumps <= old(jumps) && (ret > 0 ==> jumps < old(jumps))
        decreases ret == 0, |c.sources[s].media| - offset'
      {
        ghost var a, before, at := NotEnabled, tries, offset';
        ret, offset', a := BootsourceTrySourceOnce(s, offset');
        tries := tries + [a];
        assert tries[..|before|] == before;
        assert trace == trace0 + (SingleEvents(c, s, offset, before) + Events(c, s, at, a));
        RanPositive(c, s, at, a);
        if ret == 0 {
          ZeroAdvances(c, s, at, a);
        }
        if over {
          return;
        }
      }
    }

    /** The walk over the table stops at the entry behind the last one, which has no name. */
    method FindSourceById(bootid: int) returns (found: Option<nat>)
      requires |c.sources| > 0 || bootid == 0
      ensures found == Find(|c.sources|, bootid)
      ensures found == if 0 <= bootid < |c.sources| then Some(bootid) else None
    {
      var src, i := 0, 0;
      while true
        invariant src == i && (i < |c.sources| || (i == 0 && bootid == 0))
        invariant 0 <= bootid ==> i <= bootid
        decreases |c.sources| - src
      {
        if i == bootid {
          break;
        }
        i := i + 1;
        src := src + 1;
        if src == |c.sources| {
          break;
        }
      }
      found := if src == |c.sources| then None else Some(src);
    }

    /** The trace is that of a chain of visits; when the chain ended by itself, nothing was left to follow. */
    method BootsourceTryChain() returns (ghost visits: seq<Visit>)
      requires forall s: nat :: s < |c.sources| ==> Room(s)
      requires !over
      modifies this`trace, this`jumps, this`over, hdr
      ensures IsChain(c, visits) && (forall i :: 0 <= i < |visits| ==> visits[i].source < |c.sources|)
      ensures trace == old(trace) + ChainEvents(c, visits)
      ensures !over ==>
          && (visits != [] ==> visits[|visits| - 1].tries != [] && VisitResult(visits[|visits| - 1]) != 0)
          && NextSource(c, visits) == None
      ensures forall i :: 0 <= i < |visits| ==> visits[i].tries != []
      ensures GoesAsAsked(c, visits) && (!over ==> EndsAsAsked(c, visits))
      ensures !over && (forall i :: 0 <= i < |visits| ==> VisitResult(visits[i]) <= 0) ==> IsTable(c, visits)
    {
      hide Room, IsSingle, SingleEvents, IsVisit, VisitEvents, IsChain, ChainEvents, NextSource, VisitResult;
      hide GoesAsAsked, EndsAsAsked, IsTable;
      visits := [];
      ghost var trace0 := trace;
      var src: Option<nat> := if |c.sources| == 0 then None else Some(0);
      ChainStarts(c);
      while src.Some?
        invariant !over && IsChain(c, visits) && forall i :: 0 <= i < |visits| ==> visits[i].source < |c.sources|
        invariant trace == trace0 + ChainEvents(c, visits)
        invariant visits != [] ==> visits[|visits| - 1].tries != [] && VisitResult(visits[|visits| - 1]) != 0
        invariant src == NextSource(c, visits) && (src.Some? ==> src.value < |c.sources|)
        decreases jumps, if src.Some? then |c.sources| - src.value else 0
      {
        var s := src.value;
        ghost var before, tries := visits, [];
        var ret, offset;
        ret, offset, tries := BootsourceTrySingle(s, c.sources[s].offset);
        ghost var v := Visit(s, tries);
        VisitDone(c, v);
        visits := visits + [v];
        ChainGrows(c, before, v);
        assert trace == trace0 + (ChainEvents(c, before) + VisitEvents(c, v));
        if over {
          break;
        }
        if ret > 0 {
          src := FindSourceById(ret - 1);
        } else if ret == -ETOHOST {
          src := None;
        } else {
          src := if s + 1 < |c.sources| then Some(s + 1) else None;
        }
      }
      ChainGoesAsAsked(c, visits);
      if !over {
        ChainOver(c, visits);
      }
    }

    method BootsourceTryById(bootid: int) returns (ret: int, ghost a: Attempt)
      requires |c.sources| > 0 || bootid == 0
      requires forall s: nat :: s < |c.sources| ==> Room(s)
      requires !over
      modifies this`trace, this`jumps, this`over, hdr
      ensures !(0 <= bootid < |c.sources|) ==> ret == -EBADSOURCE && trace == old(trace)
      ensures 0 <= bootid < |c.sources| ==>
          && CanAttempt(c, bootid, c.sources[bootid].offset, a) && ret == Result(a)
          && trace == old(trace) + Events(c, bootid, c.sources[bootid].offset, a)
    {
      hide Room, Events, CanAttempt;
      var src := FindSourceById(bootid);
      a := NotEnabled;
      if src.Some? {
        var offset;
        ret, offset, a := BootsourceTrySourceOnce(src.value, c.sources[src.value].offset);
        return;
      }
      return -EBADSOURCE, a;
    }
  }

  lemma OneStretch(m: seq<bv8>, media: seq<bv8>, offset: nat, h: nat, n: nat)
    requires offset + h + n <= |media| && h + n <= |m| && m[..h] == media[offset..offset + h]
    requires m[h..h + n] == media[offset + h..offset + h + n]
    ensures m[..h + n] == media[offset..offset + h + n]
  {
    assert m[..h + n] == m[..h] + m[h..h + n];
    assert media[offset..offset + h + n] == media[offset..offset + h] + media[offset + h..offset + h + n];
  }

  lemma UnitsOf(len: nat, align: nat)
    ensures WholeUnits(len, align) == (if align == 0 then len else len - len % align) && WholeUnits(len, align) <= len
  {
  }

  lemma WithinMedia(c: Config, s: nat, offset: nat, length: nat, count: nat)
    requires s < |c.sources| && CanRead(c, s, offset, length, count)
    ensures count > 0 ==> offset + count <= |c.sources[s].media|
  {
  }

  lemma NothingRead(c: Config, s: nat, offset: nat, a: Attempt)
    requires s < |c.sources| && (a == NotEnabled || a == NotInitialised)
    ensures Events(c, s, offset, a) == Events(c, s, 0, a)
  {
  }

  lemma LoadedEvents(c: Config, s: nat, offset: nat, load: Load, code: int, before: seq<Event>)
    requires s < |c.sources|
    ensures var all := before + [Enable(s, true), Init(s, true)]
                       + LoadEvents(c, s, RoundUp(offset, Align(c, s)), load) + [Deinit(s), Disable(s)];
      && all == before + Events(c, s, offset, Refused(load))
      && all + [Execute(s)] == before + Events(c, s, offset, Ran(load, code))
  {
    hide LoadEvents, RoundUp;
  }

  /** The calls of a way to load, one by one, and when it is possible. */
  lemma LoadParts(c: Config, s: nat, at: nat, before: seq<Event>, load: Load)
    requires s < |c.sources|
    ensures var h, all := HeaderPart(c, s), before + LoadEvents(c, s, at, load);
      && (load.Short? ==> all == before + [Read(s, at, h, load.count)])
      && (load.BadHeader? ==> all == before + [Read(s, at, h, h)] + [HeaderChecked(s, load.code)])
      && (load.TooBig? ==> all == before + [Read(s, at, h, h)] + [HeaderChecked(s, load.length)])
      && (load.Data? ==>
            all == before + [Read(s, at, h, h)] + [HeaderChecked(s, load.length)]
                 + [Read(s, at + h, RoundUp(load.length, Align(c, s)), load.count)] + [DataChecked(s, load.good)])
    ensures var h, header := HeaderPart(c, s), CanRead(c, s, at, HeaderPart(c, s), HeaderPart(c, s));
      && (load.Short? ==> (CanLoad(c, s, at, load) <==> load.count < h && CanRead(c, s, at, h, load.count)))
      && (load.BadHeader? ==> (CanLoad(c, s, at, load) <==> load.code < 0 && header))
      && (load.TooBig? ==>
            (CanLoad(c, s, at, load) <==> RoundUp(load.length, Align(c, s)) + HEADER_SIZE > c.maxsize && header))
      && (load.Data? ==>
            (CanLoad(c, s, at, load) <==>
              && RoundUp(load.length, Align(c, s)) + HEADER_SIZE <= c.maxsize && header
              && CanRead(c, s, at + h, RoundUp(load.length, Align(c, s)), load.count)))
  {
    hide RoundUp, HeaderRead, CanRead;
  }

  lemma NeedsHeader(c: Config, s: nat)
    requires s < |c.sources|
    ensures HeaderPart(c, s) <= Needed(c, s)
  {
  }

  lemma NotGood(c: Config, s: nat, at: nat, load: Load)
    requires s < |c.sources| && CanLoad(c, s, at, load)
    ensures LoadResult(load) == 0 <==> IsGood(load)
  {
  }

  lemma RanPositive(c: Config, s: nat, offset: nat, a: Attempt)
    requires s < |c.sources| && CanAttempt(c, s, offset, a)
    ensures Result(a) > 0 ==> a.Ran?
  {
  }

  lemma VisitDone(c: Config, v: Visit)
    requires v.source < |c.sources| && v.tries != [] && IsSingle(c, v.source, c.sources[v.source].offset, v.tries)
    ensures IsVisit(c, v) && VisitResult(v) == Result(v.tries[|v.tries| - 1])
    ensures VisitEvents(c, v) == SingleEvents(c, v.source, c.sources[v.source].offset, v.tries)
  {
  }
}
