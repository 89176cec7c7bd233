/** The bump allocator over several heaps of src/lib/malloc.c. Addresses and sizes are 32 bits wide and wrap around; a
    panic ends the run. */
module Heap {
  import opened Arithmetic

  const WORD: nat := 0x1_0000_0000
  const INT_MAX: nat := 0x7fff_ffff
  const INT_MIN: int := -0x8000_0000

  function Wrap(n: int): (r: nat)
    ensures r < WORD
  {
    n % WORD
  }

  /** struct rumboot_heap; a slot whose start is 0 is free. */
  datatype Slot = Slot(start: nat, end: nat, pos: nat, save: nat)

  datatype Request = Request(length: nat, align: int, misalign: int)

  predicate IsRequest(r: Request) {
    r.length < WORD && INT_MIN <= r.align <= INT_MAX && INT_MIN <= r.misalign <= INT_MAX
  }

  predicate IsSlot(h: Slot) {
    h.start <= h.save <= h.pos <= h.end < WORD
  }

  // ---- one allocation ----

  /** How far the position lies beyond a multiple of the alignment, which is taken as unsigned. */
  function Excess(pos: nat, align: int): nat
    requires INT_MIN <= align <= INT_MAX
  {
    if align == 0 then 0
    else
      UnsignedNotZero(align);
      pos % Wrap(align)
  }

  /** How far the position is moved to a multiple of the alignment. */
  function Padding(pos: nat, align: int): nat
    requires INT_MIN <= align <= INT_MAX
  {
    var pad := Excess(pos, align);
    if pad != 0 then Wrap(Wrap(align) - pad) else 0
  }

  lemma UnsignedNotZero(align: int)
    requires INT_MIN <= align <= INT_MAX && align != 0
    ensures Wrap(align) == if align > 0 then align else WORD + align
  {
  }

  function Address(pos: nat, r: Request): nat
    requires IsRequest(r)
  {
    Wrap(Wrap(pos + Padding(pos, r.align)) + r.misalign)
  }

  function Position(pos: nat, r: Request): nat
    requires IsRequest(r)
  {
    Wrap(Address(pos, r) + r.length)
  }

  /** The whole way that the position is asked to move does not leave the address space. */
  predicate Stays(pos: nat, r: Request)
    requires IsRequest(r)
  {
    pos + Wrap(Padding(pos, r.align) + r.misalign) + r.length < WORD
  }

  lemma WrapSum(a: int, b: int)
    ensures Wrap(Wrap(a) + b) == Wrap(a + b)
  {
    var q := a / WORD;
    assert a == q * WORD + Wrap(a);
    ShiftWrap(Wrap(a) + b, q);
  }

  lemma {:induction false} ShiftWrap(n: int, q: int)
    ensures Wrap(n + q * WORD) == Wrap(n)
    decreases if q < 0 then -q else q
  {
    if q > 0 {
      ShiftWrap(n, q - 1);
    } else if q < 0 {
      ShiftWrap(n, q + 1);
    }
  }

  /** Without a panic, the block lies between the old position and the new one exactly when the position stays in the
      address space: an offset back before the old position and a length that wraps around are not caught. */
  lemma BlockIsNewIff(h: Slot, r: Request)
    requires h.pos < WORD && IsRequest(r)
    ensures Stays(h.pos, r)
       <==> h.pos <= Address(h.pos, r) && Address(h.pos, r) + r.length <= Position(h.pos, r)
    ensures Stays(h.pos, r) ==> Address(h.pos, r) == h.pos + Wrap(Padding(h.pos, r.align) + r.misalign)
    ensures Stays(h.pos, r) ==> Position(h.pos, r) == Address(h.pos, r) + r.length
  {
    AddressIs(h.pos, r);
    var way := Wrap(Padding(h.pos, r.align) + r.misalign);
    OnceAround(h.pos, way);
    OnceAround(Address(h.pos, r), r.length);
    hide Padding, Address, Wrap;
  }

  lemma AddressIs(pos: nat, r: Request)
    requires IsRequest(r)
    ensures Address(pos, r) == Wrap(pos + Wrap(Padding(pos, r.align) + r.misalign))
  {
    hide Wrap, Padding;
    var p := Padding(pos, r.align);
    WrapSum(pos + p, r.misalign);
    WrapSum(p + r.misalign, pos);
  }

  lemma OnceAround(a: nat, b: nat)
    requires a < WORD && b < WORD
    ensures Wrap(a + b) == if a + b < WORD then a + b else a + b - WORD
  {
  }

  /** The padding leads to a multiple of the alignment, taken as unsigned. */
  lemma MultipleAfterPadding(pos: nat, align: int)
    requires INT_MIN <= align <= INT_MAX && align != 0
    ensures Wrap(align) > 0 && (pos + Padding(pos, align)) % Wrap(align) == 0 && Padding(pos, align) < Wrap(align)
  {
    UnsignedNotZero(align);
    var a := Wrap(align);
    var q, pad := pos / a, pos % a;
    var p := if pad != 0 then a - pad else 0;
    OnceAround(0, p);
    hide Wrap;
    assert a * (q + 1) == a * q + a;
    ModuloOf(pos + p, a, if pad != 0 then q + 1 else q, 0);
  }

  /** How often the way to a block's address leads around the address space; a step back across 0 counts as -1. */
  function TimesAround(pos: nat, r: Request): int
    requires IsRequest(r)
  {
    (pos + Padding(pos, r.align) + r.misalign) / WORD
  }

  lemma AddressBy(pos: nat, r: Request)
    requires IsRequest(r)
    ensures Address(pos, r) - r.misalign == pos + Padding(pos, r.align) - WORD * TimesAround(pos, r)
  {
    WrapSum(pos + Padding(pos, r.align), r.misalign);
    hide Padding;
  }

  /** The exact condition under which a block starts misalign behind a multiple of the alignment: going around the
      address space as often as the call does keeps multiples. It is so whenever the call does not go around at all, and
      for alignments that divide the address space. */
  lemma BlockIsAligned(h: Slot, r: Request)
    requires IsRequest(r) && r.align != 0
    ensures var a := Wrap(r.align);
      && a > 0
      && ((Address(h.pos, r) - r.misalign) % a == 0 <==> (WORD * TimesAround(h.pos, r)) % a == 0)
      && (0 <= h.pos + Padding(h.pos, r.align) + r.misalign < WORD ==> (Address(h.pos, r) - r.misalign) % a == 0)
      && (WORD % a == 0 ==> (Address(h.pos, r) - r.misalign) % a == 0)
    ensures r.align > 0 ==> Wrap(r.align) == r.align
  {
    hide Wrap, Padding, Address, TimesAround;
    UnsignedNotZero(r.align);
    MultipleAfterPadding(h.pos, r.align);
    AddressBy(h.pos, r);
    NotAround(h.pos, r);
    WordTimes(TimesAround(h.pos, r), Wrap(r.align));
    MultipleMinus(h.pos + Padding(h.pos, r.align), WORD * TimesAround(h.pos, r), Wrap(r.align));
  }

  lemma NotAround(pos: nat, r: Request)
    requires IsRequest(r)
    ensures 0 <= pos + Padding(pos, r.align) + r.misalign < WORD ==> TimesAround(pos, r) == 0
  {
    hide Padding;
  }

  lemma WordTimes(k: int, m: nat)
    requires m > 0
    ensures (k == 0 ==> (WORD * k) % m == 0) && (WORD % m == 0 ==> (WORD * k) % m == 0)
  {
    if k == 0 {
      ModuloOf(0, m, 0, 0);
    } else if WORD % m == 0 {
      MultipleTimes(WORD, k, m);
    }
  }

  lemma MultipleTimes(n: nat, k: int, m: nat)
    requires m > 0 && n % m == 0
    ensures (n * k) % m == 0
  {
    var q := n / m;
    assert n == m * q;
    assert n * k == m * (q * k);
    ModuloOf(n * k, m, q * k, 0);
  }

  /** For an alignment that divides the address space the difference taken in 32 bits is a multiple, too. */
  lemma BlockIsAlignedModulo(h: Slot, r: Request)
    requires IsRequest(r) && r.align > 0 && WORD % r.align == 0
    ensures Wrap(Address(h.pos, r) - r.misalign) % r.align == 0
  {
    BlockIsAligned(h, r);
    hide Padding, Address;
    WrappedMultiple(Address(h.pos, r) - r.misalign, r.align);
  }

  lemma WrappedMultiple(n: int, align: nat)
    requires 0 < align && n % align == 0 && WORD % align == 0
    ensures Wrap(n) % align == 0
  {
    MultipleTimes(WORD, n / WORD, align);
    MultipleMinus(n, WORD * (n / WORD), align);
  }

  /** A call that does not panic whose block is not aligned, and one that is pulled back and aligned all the same. */
  lemma NotAlwaysAligned()
    ensures var h, r := Slot(1, 0xffff_ffff, 1, 1), Request(4, 3, -100);
      && IsSlot(h) && IsRequest(r) && Position(h.pos, r) < h.end
      && (Address(h.pos, r) - r.misalign) % 3 == 1 && TimesAround(h.pos, r) == -1
    ensures var h, r := Slot(0x1000, 0x2000, 0x1100, 0x1000), Request(0x10, 12, -24);
      && IsSlot(h) && IsRequest(r) && Position(h.pos, r) < h.end
      && Address(h.pos, r) < h.pos && (Address(h.pos, r) - r.misalign) % 12 == 0
  {
    assert Padding(1, 3) == 2;
    assert Padding(0x1100, 12) == 4;
  }

  /** Two calls that do not panic: one takes back bytes below the position, the other goes once around the address space
      and leaves the position below where it was. */
  lemma NotAlwaysNew()
    ensures var h, back := Slot(0x1000, 0x2000, 0x1100, 0x1000), Request(0x10, 4, -0x100);
            var around := Request(0xffff_fff0, 4, 0);
      && IsSlot(h) && IsRequest(back) && IsRequest(around)
      && Address(h.pos, back) == 0x1000 && Position(h.pos, back) == 0x1010 < h.pos < h.end
      && Address(h.pos, around) == 0x1100 && Position(h.pos, around) == 0x10f0 < h.pos < h.end
  {
    assert Padding(0x1100, 4) == 0;
  }

  // ---- histories ----

  datatype Block = Block(heap: nat, address: nat, length: nat)

  datatype Op = Allocate(heap: nat, request: Request) | Save | Restore

  /** live are the blocks handed out and not taken back by a restore, in their order; saved those of the last save. */
  datatype State = State(heaps: seq<Slot>, live: seq<Block>, saved: seq<Block>)

  /** The call does not panic. */
  predicate Succeeds(s: State, op: Op) {
    op.Allocate? ==>
      && op.heap < |s.heaps| && IsRequest(op.request)
      && Position(s.heaps[op.heap].pos, op.request) < s.heaps[op.heap].end
  }

  /** And its block is new, by BlockIsNewIff. */
  predicate IsNew(s: State, op: Op)
    requires Succeeds(s, op)
  {
    op.Allocate? ==> Stays(s.heaps[op.heap].pos, op.request)
  }

  function Saved(h: Slot): Slot {
    h.(save := h.pos)
  }

  function Restored(h: Slot): Slot {
    h.(pos := h.save)
  }

  function Next(s: State, op: Op): State
    requires Succeeds(s, op)
  {
    match op
    case Allocate(heap, r) =>
      var h := s.heaps[heap];
      var block := Block(heap, Address(h.pos, r), r.length);
      State(s.heaps[heap := h.(pos := Position(h.pos, r))], s.live + [block], s.saved)
    case Save =>
      State(seq(|s.heaps|, i requires 0 <= i < |s.heaps| => Saved(s.heaps[i])), s.live, s.live)
    case Restore =>
      State(seq(|s.heaps|, i requires 0 <= i < |s.heaps| => Restored(s.heaps[i])), s.saved, s.saved)
  }

  predicate AllSucceed(s: State, ops: seq<Op>)
    decreases |ops|, 0
  {
    ops == [] || (AllSucceed(s, ops[..|ops| - 1]) && Succeeds(After(s, ops[..|ops| - 1]), ops[|ops| - 1]))
  }

  function After(s: State, ops: seq<Op>): State
    requires AllSucceed(s, ops)
    decreases |ops|, 1
  {
    if ops == [] then s else Next(After(s, ops[..|ops| - 1]), ops[|ops| - 1])
  }

  predicate AllNew(s: State, ops: seq<Op>)
    requires AllSucceed(s, ops)
    decreases |ops|
  {
    ops == [] || (AllNew(s, ops[..|ops| - 1]) && IsNew(After(s, ops[..|ops| - 1]), ops[|ops| - 1]))
  }

  predicate Inside(h: Slot, b: Block) {
    h.start <= b.address && b.address + b.length <= h.pos
  }

  predicate Kept(h: Slot, b: Block) {
    h.start <= b.address && b.address + b.length <= h.save
  }

  predicate Ordered(blocks: seq<Block>) {
    forall i, j :: 0 <= i < j < |blocks| && blocks[i].heap == blocks[j].heap ==>
      blocks[i].address + blocks[i].length <= blocks[j].address
  }

  predicate Inv(s: State) {
    && (forall i :: 0 <= i < |s.heaps| ==> IsSlot(s.heaps[i]))
    && (forall b :: b in s.live ==> b.heap < |s.heaps| && Inside(s.heaps[b.heap], b))
    && (forall b :: b in s.saved ==> b.heap < |s.heaps| && Kept(s.heaps[b.heap], b))
    && Ordered(s.live) && s.saved <= s.live
  }

  lemma AllocateKeeps(s: State, op: Op)
    requires Inv(s) && op.Allocate? && Succeeds(s, op) && IsNew(s, op)
    ensures Inv(Next(s, op))
  {
    var h, r := s.heaps[op.heap], op.request;
    BlockIsNewIff(h, r);
    hide Address, Position, Stays;
    var block, s' := Block(op.heap, Address(h.pos, r), r.length), Next(s, op);
    assert s'.live == s.live + [block];
    forall i, j | 0 <= i < j < |s'.live| && s'.live[i].heap == s'.live[j].heap
      ensures s'.live[i].address + s'.live[i].length <= s'.live[j].address
    {
      if j == |s.live| {
        assert s.live[i] in s.live;
      }
    }
  }

  lemma SaveKeeps(s: State)
    requires Inv(s)
    ensures Inv(Next(s, Save))
  {
  }

  lemma RestoreKeeps(s: State)
    requires Inv(s)
    ensures Inv(Next(s, Restore))
  {
  }

  /** Whatever is allocated anew, saved and restored: every live block lies in its heap between its start and its
      position, and later blocks of a heap lie behind earlier ones. */
  lemma {:induction false} HistoryKeeps(s: State, ops: seq<Op>)
    requires Inv(s) && AllSucceed(s, ops) && AllNew(s, ops)
    ensures Inv(After(s, ops)) && |After(s, ops).heaps| == |s.heaps|
    ensures forall i :: 0 <= i < |s.heaps| ==>
      After(s, ops).heaps[i].start == s.heaps[i].start && After(s, ops).heaps[i].end == s.heaps[i].end
    decreases |ops|
  {
    hide Inv, Stays, Address, Position;
    if ops != [] {
      var front, op := ops[..|ops| - 1], ops[|ops| - 1];
      HistoryKeeps(s, front);
      match op
      case Allocate(_, _) => AllocateKeeps(After(s, front), op);
      case Save => SaveKeeps(After(s, front));
      case Restore => RestoreKeeps(After(s, front));
    }
  }

  predicate Separate(heaps: seq<Slot>) {
    forall i, j :: 0 <= i < j < |heaps| ==> heaps[i].end <= heaps[j].start || heaps[j].end <= heaps[i].start
  }

  predicate Apart(a: Block, b: Block) {
    a.address + a.length <= b.address || b.address + b.length <= a.address
  }

  /** Live blocks are pairwise disjoint, over all heaps when these are. */
  lemma BlocksAreDisjoint(s: State, i: nat, j: nat)
    requires Inv(s) && i < j < |s.live|
    requires s.live[i].heap == s.live[j].heap || Separate(s.heaps)
    ensures Apart(s.live[i], s.live[j])
  {
    var a, b := s.live[i], s.live[j];
    assert a in s.live && b in s.live;
    if a.heap < b.heap {
      assert Inside(s.heaps[a.heap], a) && Inside(s.heaps[b.heap], b);
    } else if b.heap < a.heap {
      assert Inside(s.heaps[a.heap], a) && Inside(s.heaps[b.heap], b);
    }
  }

  /** heap_by_addr */
  ghost predicate Owns(heaps: seq<Slot>, count: nat, address: nat, r: int)
    requires count <= |heaps|
  {
    if r == -1 then forall i :: 0 <= i < count ==> !(heaps[i].start <= address < heaps[i].end)
    else 0 <= r < count && heaps[r].start <= address < heaps[r].end
  }

  /** The heap found for any byte of a live block is the one the block was taken from. */
  lemma OwnerOfBlock(s: State, i: nat, address: nat, r: int)
    requires Inv(s) && Separate(s.heaps) && i < |s.live|
    requires s.live[i].address <= address < s.live[i].address + s.live[i].length
    requires Owns(s.heaps, |s.heaps|, address, r)
    ensures r == s.live[i].heap
  {
    var b := s.live[i];
    assert b in s.live;
    assert Inside(s.heaps[b.heap], b);
  }

  /** Between a save and the last restore nothing was saved again. */
  predicate NoSave(ops: seq<Op>) {
    Save !in ops
  }

  predicate SameSaves(s: State, t: State) {
    && |t.heaps| == |s.heaps| && t.saved == s.saved
    && forall i :: 0 <= i < |s.heaps| ==>
         t.heaps[i].start == s.heaps[i].start && t.heaps[i].end == s.heaps[i].end && t.heaps[i].save == s.heaps[i].save
  }

  lemma {:induction false} SavesUntouched(s: State, ops: seq<Op>)
    requires AllSucceed(s, ops) && NoSave(ops)
    ensures SameSaves(s, After(s, ops))
    decreases |ops|
  {
    if ops != [] {
      var front, op := ops[..|ops| - 1], ops[|ops| - 1];
      assert ops == front + [op];
      SavesUntouched(s, front);
      hide Address, Position, Stays;
      assert op in ops;
    }
  }

  /** A test's allocations leave no trace: after a save and any calls that do not save, a restore brings back the very
      heaps and blocks of the save. */
  lemma RestoreUndoes(s: State, ops: seq<Op>)
    requires AllSucceed(Next(s, Save), ops) && NoSave(ops)
    ensures Next(After(Next(s, Save), ops), Restore) == Next(s, Save)
    ensures Next(s, Save).live == s.live
    ensures forall i :: 0 <= i < |s.heaps| ==> Next(s, Save).heaps[i].pos == s.heaps[i].pos
  {
    var saved := Next(s, Save);
    SavesUntouched(saved, ops);
    var t := After(saved, ops);
    var back := Next(t, Restore);
    forall i | 0 <= i < |saved.heaps| ensures back.heaps[i] == saved.heaps[i] {
      assert back.heaps[i] == Restored(t.heaps[i]);
    }
    assert back.heaps == saved.heaps;
  }

  /** Running two histories one after the other is running their concatenation. */
  lemma {:induction false} AfterBoth(s: State, a: seq<Op>, b: seq<Op>)
    ensures AllSucceed(s, a + b) <==> AllSucceed(s, a) && AllSucceed(After(s, a), b)
    ensures AllSucceed(s, a + b) ==> After(s, a + b) == After(After(s, a), b)
    decreases |b|
  {
    hide Succeeds, Next;
    if b == [] {
      assert a + b == a;
    } else {
      AfterBoth(s, a, b[..|b| - 1]);
      assert (a + b)[..|a + b| - 1] == a + b[..|b| - 1];
    }
  }

  lemma AfterSave(s: State)
    ensures AllSucceed(s, [Save]) && After(s, [Save]) == Next(s, Save)
  {
    assert [Save][..0] == [];
  }

  /** A restore brings back the very heaps and blocks of the last save, whatever was saved before it. */
  lemma RestoreIsLastSave(s: State, before: seq<Op>, after: seq<Op>)
    requires AllSucceed(s, before + ([Save] + after)) && NoSave(after)
    ensures AllSucceed(s, before)
    ensures Next(After(s, before + ([Save] + after)), Restore) == Next(After(s, before), Save)
  {
    AfterBoth(s, before, [Save] + after);
    var t := After(s, before);
    AfterBoth(t, [Save], after);
    AfterSave(t);
    RestoreUndoes(t, after);
  }

  /** The place of the last save in a history, 0 if there is none. */
  function LastSave(ops: seq<Op>): (k: nat)
    ensures k <= |ops|
  {
    if ops == [] then 0 else if ops[|ops| - 1] == Save then |ops| - 1 else LastSave(ops[..|ops| - 1])
  }

  lemma {:induction false} LastSaveIs(ops: seq<Op>)
    ensures var k := LastSave(ops);
      if Save in ops then k < |ops| && ops[k] == Save && NoSave(ops[k + 1..]) else k == 0
  {
    if ops != [] && ops[|ops| - 1] != Save {
      var front, last := ops[..|ops| - 1], ops[|ops| - 1];
      assert ops == front + [last];
      LastSaveIs(front);
      if Save in front {
        var k := LastSave(front);
        assert ops[k + 1..] == front[k + 1..] + [last];
      }
    }
  }

  lemma SplitAt(ops: seq<Op>, k: nat)
    requires k < |ops|
    ensures ops == ops[..k] + ([ops[k]] + ops[k + 1..])
  {
  }

  /** Saves do not nest: for every history between a save and its restore, with or without saves of its own, the restore
      brings a heap back to where it was at the outer save exactly if the heap was there, too, at the last inner one. */
  lemma OuterRestoreIff(s: State, ops: seq<Op>, i: nat)
    requires AllSucceed(Next(s, Save), ops) && i < |s.heaps|
    ensures AllSucceed(Next(s, Save), ops[..LastSave(ops)])
    ensures |After(Next(s, Save), ops[..LastSave(ops)]).heaps| == |After(Next(s, Save), ops).heaps| == |s.heaps|
    ensures Next(After(Next(s, Save), ops), Restore).heaps[i].pos
         == After(Next(s, Save), ops[..LastSave(ops)]).heaps[i].pos
    ensures Next(After(Next(s, Save), ops), Restore).heaps[i].pos == s.heaps[i].pos
       <==> After(Next(s, Save), ops[..LastSave(ops)]).heaps[i].pos == s.heaps[i].pos
  {
    hide Next, AllSucceed, After;
    var saved, k := Next(s, Save), LastSave(ops);
    LastSaveIs(ops);
    SaveMovesNothing(s, i);
    SameHeaps(saved, ops);
    if Save in ops {
      var before, after := ops[..k], ops[k + 1..];
      SplitAt(ops, k);
      RestoreIsLastSave(saved, before, after);
      SameHeaps(saved, before);
      SaveMovesNothing(After(saved, before), i);
    } else {
      RestoreUndoes(s, ops);
      assert ops[..k] == [];
      SaveMovesNothing(saved, i);
    }
  }

  lemma SaveMovesNothing(s: State, i: nat)
    requires i < |s.heaps|
    ensures |Next(s, Save).heaps| == |s.heaps| && Next(s, Save).heaps[i].pos == s.heaps[i].pos
    ensures AllSucceed(s, []) && After(s, []) == s
  {
  }

  lemma {:induction false} SameHeaps(s: State, ops: seq<Op>)
    requires AllSucceed(s, ops)
    ensures |After(s, ops).heaps| == |s.heaps|
    decreases |ops|
  {
    hide Succeeds, Next;
    if ops != [] {
      SameHeaps(s, ops[..|ops| - 1]);
      NextHeaps(After(s, ops[..|ops| - 1]), ops[|ops| - 1]);
    }
  }

  lemma NextHeaps(s: State, op: Op)
    requires Succeeds(s, op)
    ensures |Next(s, op).heaps| == |s.heaps|
  {
    hide Address, Position, Stays;
  }

  const FRESH := State([Slot(0x1000, 0x2000, 0x1000, 0x1000)], [], [])
  const FOUR_BYTES := Allocate(0, Request(4, 4, 0))

  /** An outer restore that does not go back to its save: four bytes are taken and saved in between. Without the four
      bytes it does go back, for all that was saved. */
  lemma SavesDoNotNest()
    ensures Inv(FRESH) && AllSucceed(Next(FRESH, Save), [FOUR_BYTES, Save]) && AllSucceed(Next(FRESH, Save), [Save])
    ensures |After(Next(FRESH, Save), [FOUR_BYTES, Save]).heaps| == 1
    ensures FRESH.heaps[0].pos == 0x1000
    ensures Next(After(Next(FRESH, Save), [FOUR_BYTES, Save]), Restore).heaps[0].pos == 0x1004
    ensures Next(After(Next(FRESH, Save), [Save]), Restore) == Next(FRESH, Save)
  {
    FreshSaved();
    TakesFour();
    hide Next, Inv, Address, Position, Stays;
    var saved := Next(FRESH, Save);
    var one := Next(saved, FOUR_BYTES);
    AfterBoth(saved, [FOUR_BYTES], [Save]);
    assert [FOUR_BYTES] + [Save] == [FOUR_BYTES, Save];
    assert [FOUR_BYTES][..0] == [];
    assert AllSucceed(saved, []) && After(saved, []) == saved;
    assert AllSucceed(saved, [FOUR_BYTES]) && After(saved, [FOUR_BYTES]) == one;
    AfterSave(one);
    AfterSave(saved);
  }

  lemma FreshSaved()
    ensures Inv(FRESH) && Next(FRESH, Save).heaps == FRESH.heaps && FRESH.heaps[0].pos == 0x1000
    ensures Next(Next(Next(FRESH, Save), Save), Restore) == Next(FRESH, Save)
  {
    var saved := Next(FRESH, Save);
    assert saved.heaps == FRESH.heaps;
    assert Next(saved, Save).heaps == saved.heaps;
    assert Next(Next(saved, Save), Restore).heaps == saved.heaps;
  }

  lemma TakesFour()
    ensures var saved := Next(FRESH, Save);
      && Succeeds(saved, FOUR_BYTES)
      && |Next(Next(Next(saved, FOUR_BYTES), Save), Restore).heaps| == 1
      && |Next(Next(saved, FOUR_BYTES), Save).heaps| == 1
      && Next(Next(Next(saved, FOUR_BYTES), Save), Restore).heaps[0].pos == 0x1004
  {
    FreshSaved();
    var r := FOUR_BYTES.request;
    assert Padding(0x1000, 4) == 0;
    assert Address(0x1000, r) == 0x1000 && Position(0x1000, r) == 0x1004 && Stays(0x1000, r);
    hide Address, Position, Stays, Padding;
  }

  /** The steps of the program lead to the address and the position. */
  lemma MoveIs(pos: nat, r: Request)
    requires pos < WORD && IsRequest(r)
    ensures var pad := Excess(pos, r.align);
            var moved := if pad != 0 then Wrap(pos + Wrap(r.align - pad)) else pos;
            Address(pos, r) == Wrap(moved + r.misalign) && Position(pos, r) == Wrap(Address(pos, r) + r.length)
  {
    PaddingIs(pos, r.align);
    OnceAround(pos, 0);
    hide Wrap, Padding, Excess;
  }

  lemma PaddingIs(pos: nat, align: int)
    requires INT_MIN <= align <= INT_MAX
    ensures var pad := Excess(pos, align);
            Padding(pos, align) == if pad != 0 then Wrap(align - pad) else 0
  {
    var pad: int := Excess(pos, align);
    WrapSum(align, -pad);
  }

  // ---- the program ----

  datatype Outcome = At(address: nat) | Panic

  /** The heaps of rumboot_platform_runtime_info. */
  class Runtime {
    const heaps: array<Slot>
    var numHeaps: nat

    constructor (slots: nat)
      ensures fresh(heaps) && heaps.Length == slots && numHeaps == 0 && Packed()
    {
      heaps := new Slot[slots](_ => Slot(0, 0, 0, 0));
      numHeaps := 0;
    }

    /** The registered heaps come first, and all other slots are free. */
    ghost predicate Packed()
      reads this`numHeaps, heaps
    {
      && numHeaps <= heaps.Length
      && (forall i :: 0 <= i < numHeaps ==> heaps[i].start > 0 && IsSlot(heaps[i]))
      && (forall i :: numHeaps <= i < heaps.Length ==> heaps[i].start == 0)
    }

    /** The position is moved before it is looked at, so it has moved on even when the call panics. */
    method MallocFromHeapMisaligned(heapId: nat, length: nat, align: int, misalign: int) returns (o: Outcome)
      requires heapId < heaps.Length && heaps[heapId].pos < WORD && IsRequest(Request(length, align, misalign))
      modifies heaps
      ensures var h, r := old(heaps[heapId]), Request(length, align, misalign);
        && heaps[..] == old(heaps[..])[heapId := h.(pos := Position(h.pos, r))]
        && o == (if Position(h.pos, r) >= h.end then Panic else At(Address(h.pos, r)))
    {
      hide Wrap, Excess, IsSlot, Address, Position;
      MoveIs(heaps[heapId].pos, Request(length, align, misalign));
      var pad := Excess(heaps[heapId].pos, align);
      if pad != 0 {
        heaps[heapId] := heaps[heapId].(pos := Wrap(heaps[heapId].pos + Wrap(align - pad)));
      }
      heaps[heapId] := heaps[heapId].(pos := Wrap(heaps[heapId].pos + misalign));
      var ret := heaps[heapId].pos;
      heaps[heapId] := heaps[heapId].(pos := Wrap(heaps[heapId].pos + length));
      if heaps[heapId].pos >= heaps[heapId].end {
        return Panic;
      }
      return At(ret);
    }

    method MallocHeapByAddr(address: nat) returns (r: int)
      requires numHeaps <= heaps.Length
      ensures Owns(heaps[..], numHeaps, address, r)
      ensures if r == -1 then forall i :: 0 <= i < numHeaps ==> !(heaps[i].start <= address < heaps[i].end)
          else 0 <= r < numHeaps && heaps[r].start <= address < heaps[r].end
      ensures r >= 0 ==> forall i :: 0 <= i < r ==> !(heaps[i].start <= address < heaps[i].end)
    {
      for i := 0 to numHeaps
        invariant forall j :: 0 <= j < i ==> !(heaps[j].start <= address < heaps[j].end)
      {
        if heaps[i].start <= address < heaps[i].end {
          return i;
        }
      }
      return -1;
    }

    /** A new heap takes the first free slot; one that starts at address 0 leaves its slot looking free. */
    method MallocRegisterHeap(start: nat, end: nat) returns (r: int, panicked: bool)
      requires Packed() && start < WORD && end < WORD
      modifies this`numHeaps, heaps
      ensures panicked <==> end < start || (start < end && old(numHeaps) == heaps.Length)
      ensures start == end ==> r == -1
      ensures panicked || start == end ==> numHeaps == old(numHeaps) && heaps[..] == old(heaps[..])
      ensures !panicked && start < end ==>
          && r == old(numHeaps) < heaps.Length && numHeaps == old(numHeaps) + 1
          && heaps[..] == old(heaps[..])[r := Slot(start, end, start, start)]
          && (Packed() <==> start != 0)
    {
      panicked := false;
      if start == end {
        return -1, false;
      }
      if end < start {
        return -1, true;
      }
      var i := 0;
      while i < heaps.Length && heaps[i].start != 0
        invariant 0 <= i <= heaps.Length && i <= numHeaps
      {
        i := i + 1;
      }
      if i == heaps.Length {
        return -1, true;
      }
      heaps[i] := Slot(start, end, start, start);
      numHeaps := numHeaps + 1;
      return i, false;
    }

    method MallocUpdateHeaps(save: bool)
      requires numHeaps <= heaps.Length
      modifies heaps
      ensures forall i :: 0 <= i < numHeaps ==>
        heaps[i] == if save then Saved(old(heaps[i])) else Restored(old(heaps[i]))
      ensures forall i :: numHeaps <= i < heaps.Length ==> heaps[i] == old(heaps[i])
    {
      for i := 0 to numHeaps
        invariant forall j :: 0 <= j < i ==> heaps[j] == if save then Saved(old(heaps[j])) else Restored(old(heaps[j]))
        invariant forall j :: i <= j < heaps.Length ==> heaps[j] == old(heaps[j])
      {
        heaps[i] := if save then heaps[i].(save := heaps[i].pos) else heaps[i].(pos := heaps[i].save);
      }
    }
  }
}
