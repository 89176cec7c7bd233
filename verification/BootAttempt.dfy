/** One attempt to boot from a source in src/lib/bootsource.c: alignment, and every way in which it may go, with the
    calls it makes, its result and the offset it leaves. What a hook answers, what the image checks decide and what an
    image returns are arbitrary. A hook that a source does not have is one that does nothing and succeeds. */
module BootAttempt {
  import opened Arithmetic

  const HEADER_SIZE: nat := 64
  const EBADDATACRC := 7
  const ETOOBIG := 8
  const EBADSOURCE := 9
  const EIO := 10
  const ETOHOST := 11

  /** align is the plugin's, 0 when any offset and length will do; media is what the device holds. */
  datatype Source = Source(align: nat, offset: nat, media: seq<bv8>)

  /** The table of sources, up to the entry without a name, and the room that is said to be behind hdr. */
  datatype Config = Config(sources: seq<Source>, maxsize: nat)

  /** The calls that leave this code, with what they answered. */
  datatype Event =
    | Enable(source: nat, ok: bool)
    | Init(source: nat, ok: bool)
    | Read(source: nat, offset: nat, length: nat, count: nat)
    | HeaderChecked(source: nat, verdict: int)
    | DataChecked(source: nat, good: bool)
    | Deinit(source: nat)
    | Disable(source: nat)
    | Execute(source: nat)

  // ---- alignment ----

  predicate Aligned(n: nat, align: nat) {
    align == 0 || n % align == 0
  }

  /** round_up_to_align */
  function RoundUp(value: nat, align: nat): nat {
    if align == 0 then value
    else
      var misalign := value % align;
      if misalign != 0 then value + (align - misalign) else value
  }

  /** The largest aligned number that is not above the value. */
  function WholeUnits(value: nat, align: nat): (r: nat)
    ensures Aligned(r, align) && r <= value && (align != 0 ==> value - r < align)
    ensures Aligned(value, align) ==> r == value
  {
    if align == 0 then value
    else
      ModuloOf(align * (value / align), align, value / align, 0);
      value - value % align
  }

  lemma SumAligned(a: nat, b: nat, align: nat)
    requires Aligned(a, align) && Aligned(b, align)
    ensures Aligned(a + b, align)
  {
    if align != 0 {
      var p, q := a / align, b / align;
      assert align * (p + q) == align * p + align * q;
      ModuloOf(a + b, align, p + q, 0);
    }
  }

  /** The least aligned number that is not below the value. */
  lemma RoundUpIsLeast(value: nat, align: nat)
    ensures Aligned(RoundUp(value, align), align) && RoundUp(value, align) >= value
    ensures forall n: nat :: n >= value && Aligned(n, align) ==> n >= RoundUp(value, align)
  {
    if align != 0 && value % align != 0 {
      var q := value / align;
      assert align * (q + 1) == align * q + align;
      ModuloOf(RoundUp(value, align), align, q + 1, 0);
      forall n: nat | n >= value && Aligned(n, align) ensures n >= RoundUp(value, align) {
        AboveMultiple(n, value, align);
      }
    }
  }

  lemma AboveMultiple(n: nat, value: nat, align: nat)
    requires align > 0 && n % align == 0 && value % align != 0 && n >= value
    ensures n >= align * (value / align) + align
  {
    var p, q := n / align, value / align;
    assert n == align * p && value == align * q + value % align;
    Larger(align, q, p);
    Larger(align, p, q);
  }

  /** What bootsource_load_img reads first: a whole header, in whole units of the alignment. */
  function HeaderRead(align: nat): nat {
    if align == 0 then HEADER_SIZE
    else if HEADER_SIZE > align then RoundUp(HEADER_SIZE, align)
    else align
  }

  /** The least aligned length that holds a header; for an alignment of at least a header it is the alignment. */
  lemma HeaderReadIsLeast(align: nat)
    ensures Aligned(HeaderRead(align), align) && HeaderRead(align) >= HEADER_SIZE
    ensures forall n: nat :: n >= HEADER_SIZE && Aligned(n, align) ==> n >= HeaderRead(align)
  {
    RoundUpIsLeast(HEADER_SIZE, align);
    if align >= HEADER_SIZE {
      ModuloOf(align, align, 1, 0);
      forall n: nat | n >= HEADER_SIZE && Aligned(n, align) ensures n >= align {
        if n < align {
          ModuloOf(n, align, 0, n);
        }
      }
    }
  }

  // ---- what an attempt may come to ----

  /** What becomes of loading: a short read of the header, a header that is refused, one whose data is too big, or data
      that was asked for and then found good or not. */
  datatype Load =
    | Short(count: nat)
    | BadHeader(code: int)
    | TooBig(length: nat)
    | Data(length: nat, count: nat, good: bool)

  datatype Attempt =
    | NotEnabled
    | NotInitialised
    | Refused(load: Load)
    | Ran(load: Load, code: int)

  function Align(c: Config, s: nat): nat
    requires s < |c.sources|
  {
    c.sources[s].align
  }

  function HeaderPart(c: Config, s: nat): nat
    requires s < |c.sources|
  {
    HeaderRead(Align(c, s))
  }

  /** A read counts no more than it asked for and than the media holds from the offset on. */
  predicate CanRead(c: Config, s: nat, offset: nat, length: nat, count: nat)
    requires s < |c.sources|
  {
    count <= length && (count > 0 ==> offset + count <= |c.sources[s].media|)
  }

  predicate CanLoad(c: Config, s: nat, at: nat, load: Load)
    requires s < |c.sources|
  {
    var h, align := HeaderPart(c, s), Align(c, s);
    match load
    case Short(count) => count < h && CanRead(c, s, at, h, count)
    case BadHeader(length) => length < 0 && CanRead(c, s, at, h, h)
    case TooBig(length) => RoundUp(length, align) + HEADER_SIZE > c.maxsize && CanRead(c, s, at, h, h)
    case Data(length, count, _) =>
      && RoundUp(length, align) + HEADER_SIZE <= c.maxsize && CanRead(c, s, at, h, h)
      && CanRead(c, s, at + h, RoundUp(length, align), count)
  }

  function LoadEvents(c: Config, s: nat, at: nat, load: Load): seq<Event>
    requires s < |c.sources|
  {
    var h := HeaderPart(c, s);
    match load
    case Short(count) => [Read(s, at, h, count)]
    case BadHeader(length) => [Read(s, at, h, h), HeaderChecked(s, length)]
    case TooBig(length) => [Read(s, at, h, h), HeaderChecked(s, length)]
    case Data(length, count, good) =>
      [Read(s, at, h, h), HeaderChecked(s, length), Read(s, at + h, RoundUp(length, Align(c, s)), count),
       DataChecked(s, good)]
  }

  function LoadResult(load: Load): int {
    match load
    case Short(_) => -EIO
    case BadHeader(length) => length
    case TooBig(_) => -ETOOBIG
    case Data(_, _, good) => if good then 0 else -EBADDATACRC
  }

  /** The offset on the device afterwards. */
  function LoadEnd(c: Config, s: nat, at: nat, load: Load): nat
    requires s < |c.sources|
  {
    match load
    case Short(_) => at
    case Data(length, _, _) => at + HeaderPart(c, s) + RoundUp(length, Align(c, s))
    case _ => at + HeaderPart(c, s)
  }

  // ---- how much memory loading may write ----

  /** Where in memory, from hdr on, the reads that are asked for end. */
  function WriteEnd(c: Config, s: nat, load: Load): nat
    requires s < |c.sources|
  {
    HeaderPart(c, s) + if load.Data? then RoundUp(load.length, Align(c, s)) else 0
  }

  /** The memory that holds whatever may be loaded from a source. */
  function Needed(c: Config, s: nat): nat
    requires s < |c.sources|
  {
    HeaderPart(c, s) + if c.maxsize < HEADER_SIZE then 0 else WholeUnits(c.maxsize - HEADER_SIZE, Align(c, s))
  }

  lemma BelowWhole(n: nat, value: nat, align: nat)
    requires Aligned(n, align) && n <= value
    ensures n <= WholeUnits(value, align)
  {
    if align != 0 {
      var p, q := n / align, value / align;
      assert n == align * p && value - value % align == align * q;
      Larger(align, q, p);
    }
  }

  lemma LoadFits(c: Config, s: nat, at: nat, load: Load)
    requires s < |c.sources| && CanLoad(c, s, at, load)
    ensures WriteEnd(c, s, load) <= Needed(c, s)
  {
    if load.Data? {
      RoundUpIsLeast(load.length, Align(c, s));
      BelowWhole(RoundUp(load.length, Align(c, s)), c.maxsize - HEADER_SIZE, Align(c, s));
    }
  }

  /** A load that uses all of it: of a media that holds a header there. */
  lemma LoadFills(c: Config, s: nat, at: nat) returns (load: Load)
    requires s < |c.sources| && at + HeaderPart(c, s) <= |c.sources[s].media|
    ensures CanLoad(c, s, at, load) && WriteEnd(c, s, load) == Needed(c, s)
  {
    load := Short(0);
    HeaderReadIsLeast(Align(c, s));
    if c.maxsize >= HEADER_SIZE {
      var length := WholeUnits(c.maxsize - HEADER_SIZE, Align(c, s));
      RoundUpIsLeast(length, Align(c, s));
      load := Data(length, 0, false);
    }
  }

  /** Everything that may be loaded stays inside maxsize exactly if the memory needed does. */
  lemma StaysInsideIff(c: Config, s: nat, at: nat)
    requires s < |c.sources| && at + HeaderPart(c, s) <= |c.sources[s].media|
    ensures (forall load :: CanLoad(c, s, at, load) ==> WriteEnd(c, s, load) <= c.maxsize)
       <==> Needed(c, s) <= c.maxsize
  {
    hide CanLoad, WriteEnd, Needed;
    var most := LoadFills(c, s, at);
    forall load | CanLoad(c, s, at, load) ensures WriteEnd(c, s, load) <= Needed(c, s) {
      LoadFits(c, s, at, load);
    }
  }

  /** It does without an alignment, and for room in whole units of the alignment, if it holds a header at all. */
  lemma WholeUnitsSuffice(c: Config, s: nat)
    requires s < |c.sources| && Aligned(c.maxsize, Align(c, s)) && HeaderPart(c, s) <= c.maxsize
    ensures Needed(c, s) <= c.maxsize
  {
    var align := Align(c, s);
    HeaderReadIsLeast(align);
    if align != 0 {
      var whole := WholeUnits(c.maxsize - HEADER_SIZE, align);
      assert whole % align == 0;
      MultipleMinus(c.maxsize, whole, align);
      assert Aligned(c.maxsize - whole, align);
    }
  }

  /** An alignment of 512, as SD cards have, and room for 600 bytes: an image of 512 bytes is not too big, and its reads
      end at 1024. */
  lemma NotAlwaysInside(c: Config)
    requires |c.sources| > 0 && Align(c, 0) == 512 && c.maxsize == 600 && |c.sources[0].media| >= 512
    ensures CanLoad(c, 0, 0, Data(512, 0, false)) && WriteEnd(c, 0, Data(512, 0, false)) == 1024 == Needed(c, 0)
  {
  }

  predicate IsGood(load: Load) {
    load.Data? && load.good
  }

  /** An image runs if and only if it was found good. */
  predicate CanAttempt(c: Config, s: nat, offset: nat, a: Attempt)
    requires s < |c.sources|
  {
    match a
    case NotEnabled => true
    case NotInitialised => true
    case Refused(load) => CanLoad(c, s, RoundUp(offset, Align(c, s)), load) && !IsGood(load)
    case Ran(load, _) => CanLoad(c, s, RoundUp(offset, Align(c, s)), load) && IsGood(load)
  }

  function Events(c: Config, s: nat, offset: nat, a: Attempt): seq<Event>
    requires s < |c.sources|
  {
    var at := RoundUp(offset, Align(c, s));
    match a
    case NotEnabled => [Enable(s, false), Disable(s)]
    case NotInitialised => [Enable(s, true), Init(s, false), Deinit(s), Disable(s)]
    case Refused(load) => [Enable(s, true), Init(s, true)] + LoadEvents(c, s, at, load) + [Deinit(s), Disable(s)]
    case Ran(load, _) =>
      [Enable(s, true), Init(s, true)] + LoadEvents(c, s, at, load) + [Deinit(s), Disable(s)] + [Execute(s)]
  }

  function Result(a: Attempt): int {
    match a
    case NotEnabled => -EBADSOURCE
    case NotInitialised => -EBADSOURCE
    case Refused(load) => LoadResult(load)
    case Ran(_, code) => code
  }

  function OffsetAfter(c: Config, s: nat, offset: nat, a: Attempt): nat
    requires s < |c.sources|
  {
    match a
    case NotEnabled => offset
    case NotInitialised => offset
    case Refused(load) => LoadEnd(c, s, RoundUp(offset, Align(c, s)), load)
    case Ran(load, _) => LoadEnd(c, s, RoundUp(offset, Align(c, s)), load)
  }

  /** A result of 0 is only possible after passing bytes that the media has. */
  lemma ZeroAdvances(c: Config, s: nat, offset: nat, a: Attempt)
    requires s < |c.sources| && CanAttempt(c, s, offset, a) && Result(a) == 0
    ensures a.Ran? && offset < |c.sources[s].media| && OffsetAfter(c, s, offset, a) > offset
  {
    RoundUpIsLeast(offset, Align(c, s));
    HeaderReadIsLeast(Align(c, s));
    hide RoundUp, HeaderRead;
  }

  /** Images are looked for one behind the other: after an image that ran, an attempt reads its header where the data of
      that image ended; after one that could not be loaded for its size or its header, right behind that header; and
      after a header that could not be read, or a source that was not there, at the same place again. */
  lemma NextImageBehind(c: Config, s: nat, offset: nat, a: Attempt, b: Attempt)
    requires s < |c.sources| && CanAttempt(c, s, offset, a) && CanAttempt(c, s, OffsetAfter(c, s, offset, a), b)
    requires b.Refused? || b.Ran?
    ensures |Events(c, s, OffsetAfter(c, s, offset, a), b)| >= 3
    ensures var first := Events(c, s, OffsetAfter(c, s, offset, a), b)[2];
            && first.Read?
            && match a
               case Ran(_, _) =>
                 |Events(c, s, offset, a)| >= 5 && var data := Events(c, s, offset, a)[4];
                 data.Read? && first.offset == data.offset + data.length
               case Refused(load) =>
                 |Events(c, s, offset, a)| >= 3 && var header := Events(c, s, offset, a)[2];
                 && header.Read?
                 && (load.Short? ==> first.offset == header.offset)
                 && (load.BadHeader? || load.TooBig? ==> first.offset == header.offset + header.count)
                 && (load.Data? ==>
                       |Events(c, s, offset, a)| >= 5 && var data := Events(c, s, offset, a)[4];
                       data.Read? && first.offset == data.offset + data.length)
               case _ => Aligned(first.offset, Align(c, s)) && first.offset >= offset
  {
    hide RoundUp, HeaderRead, CanRead, Aligned;
    RoundUpIsLeast(offset, Align(c, s));
    OffsetIsAligned(c, s, offset, a);
    AlignedStays(OffsetAfter(c, s, offset, a), Align(c, s));
  }

  /** An attempt that came to reading leaves the offset in whole units. */
  lemma OffsetIsAligned(c: Config, s: nat, offset: nat, a: Attempt)
    requires s < |c.sources|
    ensures Aligned(RoundUp(OffsetAfter(c, s, offset, a), Align(c, s)), Align(c, s))
    ensures RoundUp(OffsetAfter(c, s, offset, a), Align(c, s)) >= OffsetAfter(c, s, offset, a)
    ensures a.Refused? || a.Ran? ==> Aligned(OffsetAfter(c, s, offset, a), Align(c, s))
  {
    hide RoundUp, HeaderRead, Aligned;
    var align := Align(c, s);
    var at, h := RoundUp(offset, align), HeaderPart(c, s);
    RoundUpIsLeast(offset, align);
    RoundUpIsLeast(OffsetAfter(c, s, offset, a), align);
    HeaderReadIsLeast(align);
    SumAligned(at, h, align);
    if (a.Refused? || a.Ran?) && a.load.Data? {
      RoundUpIsLeast(a.load.length, align);
      SumAligned(at + h, RoundUp(a.load.length, align), align);
    }
  }

  lemma AlignedStays(n: nat, align: nat)
    ensures Aligned(n, align) ==> RoundUp(n, align) == n
  {
  }

  /** The codes in the numbers of include/rumboot/boot.h: no source, a header that cannot be read, an image too big, bad
      data; a header that is refused and an image that returns give their own. */
  lemma ResultIs(c: Config, s: nat, offset: nat, a: Attempt)
    requires s < |c.sources| && CanAttempt(c, s, offset, a)
    ensures a.NotEnabled? || a.NotInitialised? ==> Result(a) == -9
    ensures a.Refused? ==>
              && (Result(a) == -10 || Result(a) == -8 || Result(a) == -7 || a.load.BadHeader?)
              && (a.load.Short? <==> !a.load.BadHeader? && Result(a) == -10)
              && (a.load.TooBig? <==> !a.load.BadHeader? && Result(a) == -8)
              && (a.load.BadHeader? ==> Result(a) == a.load.code < 0)
    ensures a.Ran? ==> Result(a) == a.code && a.load.Data? && a.load.good
  {
    hide RoundUp, HeaderRead, CanRead;
  }

  /** An image whose header is sound is taken exactly if its length, in whole units, and the 64 bytes of the header are
      no more than maxsize. */
  lemma TakenIff(c: Config, s: nat, at: nat, length: nat)
    requires s < |c.sources| && CanLoad(c, s, at, BadHeader(-1))
    ensures CanLoad(c, s, at, TooBig(length)) <==>
              forall n: nat :: n >= length && Aligned(n, Align(c, s)) ==> n + 64 > c.maxsize
    ensures (exists count, good :: CanLoad(c, s, at, Data(length, count, good))) <==>
              !CanLoad(c, s, at, TooBig(length))
  {
    RoundUpIsLeast(length, Align(c, s));
    hide RoundUp, HeaderRead, Aligned;
    if !CanLoad(c, s, at, TooBig(length)) {
      assert CanLoad(c, s, at, Data(length, 0, false));
    }
  }
}
