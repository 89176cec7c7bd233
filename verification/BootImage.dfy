/** How rumboot_bootimage_execute of src/lib/bootimage.c moves an uncompressed image before it starts it.

    Memory is one array of bytes indexed by the 32-bit address; header fields are stored with the low byte first, as the
    processor reads them. */
module BootImage {
  import opened Sequences

  const HEADER_SIZE: nat := 64
  const EBADCLUSTERID := 12

  const COMPRESS: bv8 := 0x01
  const DATA: bv8 := 0x02
  const DECAPS: bv8 := 0x10
  const RELOCATE: bv8 := 0x20
  const SYNC: bv8 := 0x40

  /** What becomes of the image: refused, loaded only, or started with a header on the data at an address. */
  datatype Outcome =
    | Refused(code: int)
    | LoadedOnly(location: nat)
    | Started(header: seq<bv8>, location: nat, sync: bool)

  // ---- the header ----

  function Word32(m: seq<bv8>, at: nat): nat
    requires at + 4 <= |m|
  {
    m[at] as nat + 0x100 * m[at + 1] as nat + 0x1_0000 * m[at + 2] as nat + 0x100_0000 * m[at + 3] as nat
  }

  function Word64(m: seq<bv8>, at: nat): nat
    requires at + 8 <= |m|
  {
    Word32(m, at) + 0x1_0000_0000 * Word32(m, at + 4)
  }

  function Header(m: seq<bv8>, hdr: nat): (r: seq<bv8>)
    requires hdr + HEADER_SIZE <= |m|
    ensures |r| == HEADER_SIZE
  {
    m[hdr..hdr + HEADER_SIZE]
  }

  function DataLength(m: seq<bv8>, hdr: nat): nat
    requires hdr + HEADER_SIZE <= |m|
  {
    Word32(Header(m, hdr), 12)
  }

  function Relocation(m: seq<bv8>, hdr: nat): nat
    requires hdr + HEADER_SIZE <= |m|
  {
    Word64(Header(m, hdr), 24)
  }

  predicate Has(m: seq<bv8>, hdr: nat, flag: bv8)
    requires hdr + HEADER_SIZE <= |m|
  {
    Header(m, hdr)[5] & flag != 0
  }

  function Payload(m: seq<bv8>, hdr: nat): seq<bv8>
    requires hdr + HEADER_SIZE <= |m| && hdr + HEADER_SIZE + DataLength(m, hdr) <= |m|
  {
    m[hdr + HEADER_SIZE..hdr + HEADER_SIZE + DataLength(m, hdr)]
  }

  /** Where the image is to go; only the low 32 bits of the relocation count. */
  function Base(m: seq<bv8>, hdr: nat): nat
    requires hdr + HEADER_SIZE <= |m|
  {
    if Has(m, hdr, RELOCATE) then Relocation(m, hdr) % 0x1_0000_0000 else hdr
  }

  /** The image lies in memory, and so does the place it is to go to. */
  predicate Fits(m: seq<bv8>, hdr: nat) {
    && hdr + HEADER_SIZE <= |m|
    && hdr + HEADER_SIZE + DataLength(m, hdr) <= |m|
    && Base(m, hdr) + DataLength(m, hdr) + (if Has(m, hdr, DECAPS) then 0 else HEADER_SIZE) <= |m|
  }

  // ---- what the moves come to ----

  /** memmove */
  function Moved(m: seq<bv8>, dst: nat, src: nat, n: nat): (r: seq<bv8>)
    requires dst + n <= |m| && src + n <= |m|
    ensures |r| == |m|
  {
    m[..dst] + m[src..src + n] + m[dst + n..]
  }

  function Settled(m: seq<bv8>, hdr: nat): (r: seq<bv8>)
    requires Fits(m, hdr)
    ensures |r| == |m|
  {
    var n, base := DataLength(m, hdr), Base(m, hdr);
    if Has(m, hdr, DECAPS) then Moved(m, base, hdr + HEADER_SIZE, n)
    else if base == hdr then m
    else Moved(Moved(m, base, hdr, HEADER_SIZE), base + HEADER_SIZE, hdr + HEADER_SIZE, n)
  }

  /** image_final_data_location */
  function Location(m: seq<bv8>, hdr: nat): nat
    requires Fits(m, hdr)
  {
    var base := Base(m, hdr);
    if Has(m, hdr, DECAPS) then base
    else if !Has(m, hdr, RELOCATE) then hdr + HEADER_SIZE
    else if base == hdr then base
    else base + HEADER_SIZE
  }

  /** Whether relocation alone is asked for, to a place inside the loaded image. */
  predicate OntoItself(m: seq<bv8>, hdr: nat)
    requires hdr + HEADER_SIZE <= |m|
  {
    && Has(m, hdr, RELOCATE) && !Has(m, hdr, DECAPS)
    && hdr <= Base(m, hdr) < hdr + HEADER_SIZE + DataLength(m, hdr)
  }

  predicate Arrived(m: seq<bv8>, hdr: nat)
    requires Fits(m, hdr)
  {
    var at, n := Location(m, hdr), DataLength(m, hdr);
    at + n <= |m| && Settled(m, hdr)[at..at + n] == Payload(m, hdr)
  }

  lemma MovedAt(m: seq<bv8>, dst: nat, src: nat, n: nat, k: nat)
    requires dst + n <= |m| && src + n <= |m| && k < |m|
    ensures Moved(m, dst, src, n)[k] == if dst <= k < dst + n then m[src + k - dst] else m[k]
  {
  }

  lemma MovedBlock(m: seq<bv8>, dst: nat, src: nat, n: nat)
    requires dst + n <= |m| && src + n <= |m|
    ensures Moved(m, dst, src, n)[dst..dst + n] == m[src..src + n]
  {
  }

  lemma MovedElsewhere(m: seq<bv8>, dst: nat, src: nat, n: nat, a: nat, b: nat)
    requires dst + n <= |m| && src + n <= |m| && a <= b <= |m|
    requires b <= dst || dst + n <= a
    ensures Moved(m, dst, src, n)[a..b] == m[a..b]
  {
    var r := Moved(m, dst, src, n);
    forall k | 0 <= k < b - a ensures r[a..b][k] == m[a..b][k] {
      MovedAt(m, dst, src, n, a + k);
    }
  }

  lemma MovedNowhere(m: seq<bv8>, at: nat, n: nat)
    requires at + n <= |m|
    ensures Moved(m, at, at, n) == m
  {
  }

  /** Decapsulation brings the payload to its place for any overlap, relocation alone brings it there from outside. */
  lemma ArrivesUnlessOntoItself(m: seq<bv8>, hdr: nat)
    requires Fits(m, hdr) && !OntoItself(m, hdr)
    ensures Arrived(m, hdr)
  {
    hide Has, Word32, Word64, Moved;
    var n, base := DataLength(m, hdr), Base(m, hdr);
    if Has(m, hdr, DECAPS) {
      MovedBlock(m, base, hdr + HEADER_SIZE, n);
    } else if base != hdr {
      var m' := Moved(m, base, hdr, HEADER_SIZE);
      MovedBlock(m', base + HEADER_SIZE, hdr + HEADER_SIZE, n);
      MovedElsewhere(m, base, hdr, HEADER_SIZE, hdr + HEADER_SIZE, hdr + HEADER_SIZE + n);
    }
  }

  /** The same image with another payload. */
  function WithPayload(m: seq<bv8>, hdr: nat, p: seq<bv8>): (r: seq<bv8>)
    requires hdr + HEADER_SIZE + |p| <= |m|
    ensures |r| == |m|
  {
    m[..hdr + HEADER_SIZE] + p + m[hdr + HEADER_SIZE + |p|..]
  }

  lemma SameHeader(m: seq<bv8>, m': seq<bv8>, hdr: nat)
    requires |m'| == |m| && hdr + HEADER_SIZE <= |m| && Header(m', hdr) == Header(m, hdr)
    ensures DataLength(m', hdr) == DataLength(m, hdr) && Base(m', hdr) == Base(m, hdr)
    ensures forall flag :: Has(m', hdr, flag) == Has(m, hdr, flag)
    ensures Fits(m', hdr) == Fits(m, hdr) && OntoItself(m', hdr) == OntoItself(m, hdr)
  {
    hide Word32, Word64, Header;
  }

  /** The place in the payload that the header gets to first, and the address it gets there from. */
  function Lost(hdr: nat, base: nat): nat {
    if base < hdr + HEADER_SIZE then 0 else base - hdr - HEADER_SIZE
  }

  function Spoiler(hdr: nat, base: nat): (r: nat)
    requires hdr <= base
    ensures hdr <= r < hdr + HEADER_SIZE
  {
    if base == hdr then hdr else hdr + (hdr + HEADER_SIZE + Lost(hdr, base) - base)
  }

  lemma Overwritten(w: seq<bv8>, hdr: nat)
    requires Fits(w, hdr) && OntoItself(w, hdr) && DataLength(w, hdr) > 0
    ensures Lost(hdr, Base(w, hdr)) < DataLength(w, hdr)
    ensures Location(w, hdr) + DataLength(w, hdr) <= |w|
    ensures Settled(w, hdr)[Location(w, hdr) + Lost(hdr, Base(w, hdr))] == w[Spoiler(hdr, Base(w, hdr))]
  {
    hide Has, Word32, Word64, Moved, DataLength;
    var n, base, data := DataLength(w, hdr), Base(w, hdr), hdr + HEADER_SIZE;
    if base != hdr {
      var lost := data + Lost(hdr, base);
      MovedAt(w, base, hdr, HEADER_SIZE, lost);
      MovedAt(Moved(w, base, hdr, HEADER_SIZE), base + HEADER_SIZE, data, n, base + HEADER_SIZE + lost - data);
    }
  }

  /** Onto itself, some payload does not arrive: the header is moved first, over data that has not been moved yet. */
  lemma OntoItselfLoses(m: seq<bv8>, hdr: nat) returns (p: seq<bv8>)
    requires Fits(m, hdr) && OntoItself(m, hdr) && DataLength(m, hdr) > 0
    ensures |p| == DataLength(m, hdr)
    ensures Fits(WithPayload(m, hdr, p), hdr) && !Arrived(WithPayload(m, hdr, p), hdr)
  {
    hide Has, Word32, Word64, Settled, Location, DataLength, Spoiler, Lost;
    var base := Base(m, hdr);
    p := seq(DataLength(m, hdr), _ => m[Spoiler(hdr, base)] + 1);
    WithPayloadParts(m, hdr, p, Spoiler(hdr, base));
    var w := WithPayload(m, hdr, p);
    hide WithPayload, Header;
    SameHeader(m, w, hdr);
    hide Base, OntoItself;
    Overwritten(w, hdr);
    Misses(w, hdr, Lost(hdr, base));
  }

  lemma Misses(w: seq<bv8>, hdr: nat, j: nat)
    requires Fits(w, hdr) && j < DataLength(w, hdr) && Location(w, hdr) + DataLength(w, hdr) <= |w|
    requires Settled(w, hdr)[Location(w, hdr) + j] != Payload(w, hdr)[j]
    ensures !Arrived(w, hdr)
  {
    hide Settled, Location, Payload, DataLength;
    var at, n := Location(w, hdr), DataLength(w, hdr);
    assert Settled(w, hdr)[at..at + n][j] == Settled(w, hdr)[at + j];
  }

  /** The exact condition under which every payload behind that header arrives: there is none, or the image is not
      relocated, undecapsulated, into itself. */
  lemma EveryPayloadArrivesIff(m: seq<bv8>, hdr: nat)
    requires Fits(m, hdr)
    ensures (forall p: seq<bv8> :: |p| == DataLength(m, hdr) ==>
               Fits(WithPayload(m, hdr, p), hdr) && Arrived(WithPayload(m, hdr, p), hdr))
       <==> DataLength(m, hdr) == 0 || !OntoItself(m, hdr)
  {
    hide Has, Word32, Word64, Moved, Settled, Base, WithPayload, OntoItself;
    if DataLength(m, hdr) == 0 || !OntoItself(m, hdr) {
      forall p: seq<bv8> | |p| == DataLength(m, hdr)
        ensures Fits(WithPayload(m, hdr, p), hdr) && Arrived(WithPayload(m, hdr, p), hdr)
      {
        WithPayloadParts(m, hdr, p, hdr);
        var w := WithPayload(m, hdr, p);
        SameHeader(m, w, hdr);
        if DataLength(m, hdr) == 0 {
          NothingArrives(w, hdr);
        } else {
          ArrivesUnlessOntoItself(w, hdr);
        }
      }
    } else {
      var p := OntoItselfLoses(m, hdr);
    }
  }

  lemma WithPayloadParts(m: seq<bv8>, hdr: nat, p: seq<bv8>, k: nat)
    requires hdr + HEADER_SIZE + |p| <= |m| && k < hdr + HEADER_SIZE
    ensures Header(WithPayload(m, hdr, p), hdr) == Header(m, hdr) && WithPayload(m, hdr, p)[k] == m[k]
    ensures WithPayload(m, hdr, p)[hdr + HEADER_SIZE..hdr + HEADER_SIZE + |p|] == p
  {
  }

  lemma NothingArrives(m: seq<bv8>, hdr: nat)
    requires Fits(m, hdr) && DataLength(m, hdr) == 0
    ensures Arrived(m, hdr)
  {
    hide Has, Word32, Word64, Moved;
  }

  /** Moving writes nothing but the place the image goes to. */
  lemma OnlyTheTargetChanges(m: seq<bv8>, hdr: nat, k: nat)
    requires Fits(m, hdr) && k < |m|
    requires !(Base(m, hdr) <= k < Base(m, hdr) + HEADER_SIZE + DataLength(m, hdr))
    ensures Settled(m, hdr)[k] == m[k]
  {
    hide Has, Word32, Word64, Moved;
    var n, base, data := DataLength(m, hdr), Base(m, hdr), hdr + HEADER_SIZE;
    if Has(m, hdr, DECAPS) {
      MovedAt(m, base, data, n, k);
    } else if base != hdr {
      MovedAt(m, base, hdr, HEADER_SIZE, k);
      MovedAt(Moved(m, base, hdr, HEADER_SIZE), base + HEADER_SIZE, data, n, k);
    }
  }

  // ---- the program ----

  function MarkedHeader(h: seq<bv8>, device: seq<bv8>): (r: seq<bv8>)
    requires |h| == HEADER_SIZE && |device| == 4
    ensures |r| == HEADER_SIZE
  {
    [0, 0, 0, 0] + h[4..60] + device
  }

  /** The image with its magic wiped out and the source it came from stored in its last field. */
  function Marked(m: seq<bv8>, hdr: nat, device: seq<bv8>): (r: seq<bv8>)
    requires hdr + HEADER_SIZE <= |m| && |device| == 4
    ensures |r| == |m|
  {
    m[..hdr] + MarkedHeader(Header(m, hdr), device) + m[hdr + HEADER_SIZE..]
  }

  lemma MarkedKeeps(m: seq<bv8>, hdr: nat, device: seq<bv8>)
    requires hdr + HEADER_SIZE <= |m| && |device| == 4
    ensures var r := Marked(m, hdr, device);
      && DataLength(r, hdr) == DataLength(m, hdr) && Base(r, hdr) == Base(m, hdr)
      && (forall flag :: Has(r, hdr, flag) == Has(m, hdr, flag))
      && (Fits(m, hdr) ==> Fits(r, hdr) && Payload(r, hdr) == Payload(m, hdr))
  {
    hide Word32, Word64, Header, MarkedHeader, Marked, Payload;
    var r, h := Marked(m, hdr, device), Header(m, hdr);
    MarkedParts(m, hdr, device);
    SameFields(h, device);
    if Fits(m, hdr) {
      PayloadBehind(m, hdr);
      PayloadBehind(r, hdr);
    }
  }

  lemma MarkedParts(m: seq<bv8>, hdr: nat, device: seq<bv8>)
    requires hdr + HEADER_SIZE <= |m| && |device| == 4
    ensures Marked(m, hdr, device)[..hdr] == m[..hdr]
    ensures Header(Marked(m, hdr, device), hdr) == MarkedHeader(Header(m, hdr), device)
    ensures Marked(m, hdr, device)[hdr + HEADER_SIZE..] == m[hdr + HEADER_SIZE..]
  {
    hide MarkedHeader;
  }

  lemma PayloadBehind(m: seq<bv8>, hdr: nat)
    requires hdr + HEADER_SIZE <= |m| && hdr + HEADER_SIZE + DataLength(m, hdr) <= |m|
    ensures Payload(m, hdr) == m[hdr + HEADER_SIZE..][..DataLength(m, hdr)]
  {
    hide DataLength;
  }

  lemma SameFields(h: seq<bv8>, device: seq<bv8>)
    requires |h| == HEADER_SIZE && |device| == 4
    ensures var h' := MarkedHeader(h, device);
      h'[5] == h[5] && Word32(h', 12) == Word32(h, 12) && Word64(h', 24) == Word64(h, 24)
  {
    MarkedFields(h, device);
    hide MarkedHeader;
  }

  lemma MarkedFields(h: seq<bv8>, device: seq<bv8>)
    requires |h| == HEADER_SIZE && |device| == 4
    ensures forall k :: 4 <= k < 60 ==> MarkedHeader(h, device)[k] == h[k]
    ensures forall k :: 0 <= k < 4 ==> MarkedHeader(h, device)[k] == 0 && MarkedHeader(h, device)[60 + k] == device[k]
  {
  }

  method MemMove(mem: array<bv8>, dst: nat, src: nat, n: nat)
    requires dst + n <= mem.Length && src + n <= mem.Length
    modifies mem
    ensures mem[..] == Moved(old(mem[..]), dst, src, n)
  {
    ghost var m := mem[..];
    hide Moved;
    if dst <= src {
      for i := 0 to n
        invariant forall k :: 0 <= k < mem.Length && !(dst <= k < dst + i) ==> mem[k] == m[k]
        invariant forall k :: dst <= k < dst + i ==> mem[k] == m[src + k - dst]
      {
        mem[dst + i] := mem[src + i];
      }
    } else {
      for i := n downto 0
        invariant forall k :: 0 <= k < mem.Length && !(dst + i <= k < dst + n) ==> mem[k] == m[k]
        invariant forall k :: dst + i <= k < dst + n ==> mem[k] == m[src + k - dst]
      {
        mem[dst + i] := mem[src + i];
      }
    }
    forall k | 0 <= k < mem.Length ensures mem[..][k] == Moved(m, dst, src, n)[k] {
      MovedAt(m, dst, src, n, k);
    }
  }

  /** The part of the function that settles where the image goes and takes it there. */
  method Settle(mem: array<bv8>, hdr: nat) returns (location: nat, copy: seq<bv8>)
    requires Fits(mem[..], hdr) && !Has(mem[..], hdr, COMPRESS)
    modifies mem
    ensures mem[..] == Settled(old(mem[..]), hdr) && location == Location(old(mem[..]), hdr)
    ensures Has(old(mem[..]), hdr, DECAPS) ==> copy == Header(old(mem[..]), hdr)
  {
    ghost var m := mem[..];
    FitsMeans(m, hdr);
    hide Word32, Word64, Moved, Fits, DataLength, Relocation;
    FlagsAre(m, hdr);
    hide Has, Header;
    var flags := mem[hdr + 5];
    location, copy := hdr + HEADER_SIZE, [];
    FlagsOf(flags);
    if flags & (RELOCATE | DECAPS | COMPRESS) != 0 {
      var dest := if flags & RELOCATE != 0 then Relocation(mem[..], hdr) else hdr;
      var base := if flags & RELOCATE != 0 then dest % 0x1_0000_0000 else dest;
      location, copy := TakeTo(mem, hdr, base, flags & DECAPS != 0, DataLength(mem[..], hdr));
    }
  }

  method TakeTo(mem: array<bv8>, hdr: nat, base: nat, decaps: bool, datasize: nat)
    returns (location: nat, copy: seq<bv8>)
    requires hdr + HEADER_SIZE + datasize <= mem.Length
    requires base + datasize + (if decaps then 0 else HEADER_SIZE) <= mem.Length
    modifies mem
    ensures decaps ==> copy == Header(old(mem[..]), hdr) && location == base
    ensures decaps ==> mem[..] == Moved(old(mem[..]), base, hdr + HEADER_SIZE, datasize)
    ensures !decaps && base == hdr ==> mem[..] == old(mem[..]) && location == base
    ensures !decaps && base != hdr ==> location == base + HEADER_SIZE
    ensures !decaps && base != hdr ==>
        var moved := Moved(old(mem[..]), base, hdr, HEADER_SIZE);
        mem[..] == Moved(moved, base + HEADER_SIZE, hdr + HEADER_SIZE, datasize)
  {
    hide Moved, Header;
    var destOffset, sourceOffset, size := 0, 0, datasize + HEADER_SIZE;
    copy := [];
    if decaps {
      sourceOffset, size, copy := HEADER_SIZE, datasize, Header(mem[..], hdr);
    }
    if hdr != base && !decaps {
      MemMove(mem, base, hdr, HEADER_SIZE);
      sourceOffset, destOffset, size := HEADER_SIZE, HEADER_SIZE, datasize;
    }
    if hdr + sourceOffset != base + destOffset {
      MemMove(mem, base + destOffset, hdr + sourceOffset, size);
    } else if decaps {
      MovedNowhere(mem[..], base, size);
    }
    location := base + destOffset;
  }

  lemma FlagsOf(flags: bv8)
    ensures flags & COMPRESS == 0 ==>
      (flags & (RELOCATE | DECAPS | COMPRESS) != 0 <==> flags & RELOCATE != 0 || flags & DECAPS != 0)
  {
  }

  lemma FlagsAre(m: seq<bv8>, hdr: nat)
    requires hdr + HEADER_SIZE <= |m|
    ensures forall flag :: Has(m, hdr, flag) <==> m[hdr + 5] & flag != 0
  {
  }

  lemma FitsMeans(m: seq<bv8>, hdr: nat)
    requires Fits(m, hdr)
    ensures hdr + HEADER_SIZE + DataLength(m, hdr) <= |m|
    ensures Base(m, hdr) + DataLength(m, hdr) + (if Has(m, hdr, DECAPS) then 0 else HEADER_SIZE) <= |m|
  {
  }

  // ---- the whole function ----

  predicate IsSealed(m: seq<bv8>, hdr: nat)
    requires hdr + HEADER_SIZE <= |m|
  {
    Header(m, hdr)[33] > 0 && Header(m, hdr)[34] > 0
  }

  function Cluster(m: seq<bv8>, hdr: nat): nat
    requires hdr + HEADER_SIZE <= |m|
  {
    if Header(m, hdr)[4] == 3 then Header(m, hdr)[32] as nat else 0
  }

  /** What is moved: the marked image, unsealed if it was sealed. plain is what decryption makes of the payload. */
  function Opened(m: seq<bv8>, hdr: nat, device: seq<bv8>, plain: seq<bv8>): (r: seq<bv8>)
    requires hdr + HEADER_SIZE + |plain| <= |m| && |device| == 4
    ensures |r| == |m|
  {
    if IsSealed(m, hdr) then WithPayload(Marked(m, hdr, device), hdr, plain) else Marked(m, hdr, device)
  }

  lemma OpenedKeeps(m: seq<bv8>, hdr: nat, device: seq<bv8>, plain: seq<bv8>)
    requires Fits(m, hdr) && |device| == 4 && |plain| == DataLength(m, hdr)
    ensures var r := Opened(m, hdr, device, plain);
      && DataLength(r, hdr) == DataLength(m, hdr) && Base(r, hdr) == Base(m, hdr)
      && (forall flag :: Has(r, hdr, flag) == Has(m, hdr, flag))
      && OntoItself(r, hdr) == OntoItself(m, hdr)
      && Header(r, hdr) == MarkedHeader(Header(m, hdr), device)
      && Fits(r, hdr) && Payload(r, hdr) == if IsSealed(m, hdr) then plain else Payload(m, hdr)
  {
    var marked := Marked(m, hdr, device);
    MarkedKeeps(m, hdr, device);
    MarkedParts(m, hdr, device);
    hide Marked, MarkedHeader, Has, DataLength, Base, Header;
    if IsSealed(m, hdr) {
      WithPayloadParts(marked, hdr, plain, hdr);
      SameHeader(marked, WithPayload(marked, hdr, plain), hdr);
      hide WithPayload;
    }
  }

  lemma ClusterMarked(m: seq<bv8>, hdr: nat, device: seq<bv8>)
    requires hdr + HEADER_SIZE <= |m| && |device| == 4
    ensures Cluster(Marked(m, hdr, device), hdr) == Cluster(m, hdr)
    ensures IsSealed(Marked(m, hdr, device), hdr) == IsSealed(m, hdr)
  {
    MarkedParts(m, hdr, device);
    MarkedFields(Header(m, hdr), device);
    hide Marked, Header, MarkedHeader;
  }

  method Mark(mem: array<bv8>, hdr: nat, device: seq<bv8>)
    requires hdr + HEADER_SIZE <= mem.Length && |device| == 4
    modifies mem
    ensures mem[..] == Marked(old(mem[..]), hdr, device)
  {
    ghost var m := mem[..];
    for i := 0 to 4
      invariant forall k :: 0 <= k < mem.Length ==> mem[k] == if hdr <= k < hdr + i then 0 else m[k]
    {
      mem[hdr + i] := 0;
    }
    for i := 0 to 4
      invariant forall k :: 0 <= k < mem.Length ==>
        mem[k] == if hdr <= k < hdr + 4 then 0 else if hdr + 60 <= k < hdr + 60 + i then device[k - hdr - 60] else m[k]
    {
      mem[hdr + 60 + i] := device[i];
    }
    forall k | 0 <= k < mem.Length ensures mem[..][k] == Marked(m, hdr, device)[k] {
      MarkedAt(m, hdr, device, k);
    }
  }

  lemma MarkedAt(m: seq<bv8>, hdr: nat, device: seq<bv8>, k: nat)
    requires hdr + HEADER_SIZE <= |m| && |device| == 4 && k < |m|
    ensures Marked(m, hdr, device)[k] ==
      if hdr <= k < hdr + 4 then 0 else if hdr + 60 <= k < hdr + 64 then device[k - hdr - 60] else m[k]
  {
    MarkedParts(m, hdr, device);
    MarkedFields(Header(m, hdr), device);
    var r := Marked(m, hdr, device);
    hide Marked, MarkedHeader;
    if k < hdr {
      assert r[..hdr][k] == m[..hdr][k];
    } else if k < hdr + HEADER_SIZE {
      assert Header(r, hdr)[k - hdr] == MarkedHeader(Header(m, hdr), device)[k - hdr];
    } else {
      assert r[hdr + HEADER_SIZE..][k - hdr - HEADER_SIZE] == m[hdr + HEADER_SIZE..][k - hdr - HEADER_SIZE];
    }
  }

  method Unseal(mem: array<bv8>, hdr: nat, plain: seq<bv8>)
    requires hdr + HEADER_SIZE + |plain| <= mem.Length
    modifies mem
    ensures mem[..] == WithPayload(old(mem[..]), hdr, plain)
  {
    ghost var m := mem[..];
    for i := 0 to |plain|
      invariant forall k :: 0 <= k < mem.Length ==>
        mem[k] == if hdr + HEADER_SIZE <= k < hdr + HEADER_SIZE + i then plain[k - hdr - HEADER_SIZE] else m[k]
    {
      mem[hdr + HEADER_SIZE + i] := plain[i];
    }
  }

  method Launch(mem: array<bv8>, hdr: nat, cluster: nat) returns (o: Outcome)
    requires Fits(mem[..], hdr) && !Has(mem[..], hdr, COMPRESS)
    modifies mem
    ensures mem[..] == Settled(old(mem[..]), hdr)
    ensures !o.Refused? && o.location == Location(old(mem[..]), hdr)
    ensures o.LoadedOnly? == Has(old(mem[..]), hdr, DATA)
    ensures !OntoItself(old(mem[..]), hdr) ==> Arrived(old(mem[..]), hdr)
    ensures o.Started? ==> o.sync == (cluster == 0 || Has(old(mem[..]), hdr, SYNC))
    ensures o.Started? ==>
        o.header == if Has(old(mem[..]), hdr, DECAPS) then Header(old(mem[..]), hdr) else Header(mem[..], hdr)
  {
    ghost var ready := mem[..];
    FitsMeans(ready, hdr);
    hide Has, Header, Word32, Word64, Base, Settled, Location, Payload, DataLength, OntoItself, Fits;
    var decaps, sync, data := Has(mem[..], hdr, DECAPS), Has(mem[..], hdr, SYNC), Has(mem[..], hdr, DATA);
    var location, copy := Settle(mem, hdr);
    if !OntoItself(ready, hdr) {
      ArrivesUnlessOntoItself(ready, hdr);
    }
    if data {
      return LoadedOnly(location);
    }
    o := Started(if decaps then copy else Header(mem[..], hdr), location, cluster == 0 || sync);
  }

  /** What the call may be relied on for: m is the memory before, m' after. plain and verdict are what the platform's
      decryption makes of the payload and what it says of the signature; clusters is the number of processor clusters.
      The header is the one handed to the cluster's start function: the saved copy after decapsulation, otherwise
      whatever then lies where the image was loaded. */
  predicate Executes(m: seq<bv8>, m': seq<bv8>, hdr: nat, device: seq<bv8>, clusters: nat, plain: seq<bv8>,
    verdict: int, o: Outcome)
    requires Fits(m, hdr) && |device| == 4 && |plain| == DataLength(m, hdr) && |m'| == |m|
  {
    if Cluster(m, hdr) >= clusters then o == Refused(-EBADCLUSTERID) && m' == Marked(m, hdr, device)
    else if IsSealed(m, hdr) && verdict != 0 then o == Refused(verdict) && m' == Opened(m, hdr, device, plain)
    else
      OpenedKeeps(m, hdr, device, plain);
      && m' == Settled(Opened(m, hdr, device, plain), hdr)
      && !o.Refused? && o.location == Location(m, hdr) && o.LoadedOnly? == Has(m, hdr, DATA)
      && (!OntoItself(m, hdr) ==> At(m', o.location, if IsSealed(m, hdr) then plain else Payload(m, hdr)))
      && (o.Started? ==> o.sync == (Cluster(m, hdr) == 0 || Has(m, hdr, SYNC)))
      && (o.Started? ==>
            o.header == if Has(m, hdr, DECAPS) then MarkedHeader(Header(m, hdr), device) else Header(m', hdr))
  }

  predicate At(m: seq<bv8>, at: nat, bytes: seq<bv8>) {
    at + |bytes| <= |m| && m[at..at + |bytes|] == bytes
  }

  lemma SameLocation(m: seq<bv8>, r: seq<bv8>, hdr: nat)
    requires Fits(m, hdr) && Fits(r, hdr) && Base(r, hdr) == Base(m, hdr)
    requires forall flag :: Has(r, hdr, flag) == Has(m, hdr, flag)
    ensures Location(r, hdr) == Location(m, hdr)
  {
    hide Has, Base;
  }

  lemma Launched(m: seq<bv8>, hdr: nat, device: seq<bv8>, clusters: nat, plain: seq<bv8>, verdict: int, o: Outcome)
    requires Fits(m, hdr) && |device| == 4 && |plain| == DataLength(m, hdr)
    requires Cluster(m, hdr) < clusters && !(IsSealed(m, hdr) && verdict != 0)
    requires Fits(Opened(m, hdr, device, plain), hdr)
    requires var r := Opened(m, hdr, device, plain);
      && !o.Refused? && o.location == Location(r, hdr) && o.LoadedOnly? == Has(r, hdr, DATA)
      && (!OntoItself(r, hdr) ==> Arrived(r, hdr))
      && (o.Started? ==> o.sync == (Cluster(m, hdr) == 0 || Has(r, hdr, SYNC)))
      && (o.Started? ==> o.header == if Has(r, hdr, DECAPS) then Header(r, hdr) else Header(Settled(r, hdr), hdr))
    ensures var m' := Settled(Opened(m, hdr, device, plain), hdr);
      Executes(m, m', hdr, device, clusters, plain, verdict, o)
  {
    hide Has, Header, MarkedHeader, Base, Settled, Location, Payload, IsSealed, DataLength, OntoItself, Cluster,
      Fits, Opened;
    FitsMeans(m, hdr);
    OpenedKeeps(m, hdr, device, plain);
    SameLocation(m, Opened(m, hdr, device, plain), hdr);
  }

  // ---- the same, read off the bytes of the header ----

  /** Four bytes with the low one first. */
  function Little(m: seq<bv8>, at: nat): nat
    requires at + 4 <= |m|
  {
    m[at] as nat + 256 * (m[at + 1] as nat + 256 * (m[at + 2] as nat + 256 * m[at + 3] as nat))
  }

  /** Where the payload comes to lie: behind a header, or in its place. */
  function Place(relocated: bool, bare: bool, r: nat, hdr: nat): nat {
    if relocated then (if bare || r == hdr then r else r + 64)
    else if bare then hdr
    else hdr + 64
  }

  predicate Flag(m: seq<bv8>, hdr: nat, bit: bv8)
    requires hdr + 64 <= |m|
  {
    m[hdr + 5] & bit != 0
  }

  /** As the flags and the relocation field have it. */
  function Target(m: seq<bv8>, hdr: nat): nat
    requires hdr + 64 <= |m|
  {
    Place(Flag(m, hdr, 0x20), Flag(m, hdr, 0x10), Little(m, hdr + 24), hdr)
  }

  /** The header goes with the payload, to a place where one of them lies. */
  predicate Tangled(m: seq<bv8>, hdr: nat)
    requires hdr + 64 <= |m|
  {
    Flag(m, hdr, 0x20) && !Flag(m, hdr, 0x10) &&
    hdr <= Little(m, hdr + 24) < hdr + 64 + Little(m, hdr + 12)
  }

  function ClusterByte(m: seq<bv8>, hdr: nat): nat
    requires hdr + 64 <= |m|
  {
    if m[hdr + 4] == 3 then m[hdr + 32] as nat else 0
  }

  predicate SealedBytes(m: seq<bv8>, hdr: nat)
    requires hdr + 64 <= |m|
  {
    m[hdr + 33] > 0 && m[hdr + 34] > 0
  }

  /** The four bytes of the magic are zeros and the last four of the header the device; k may be one of them. */
  predicate MarkedByte(m: seq<bv8>, m': seq<bv8>, hdr: nat, device: seq<bv8>, k: nat)
    requires hdr + 64 <= |m| == |m'| && |device| == 4 && k < |m|
  {
    m'[k] == if hdr <= k < hdr + 4 then 0 else if hdr + 60 <= k < hdr + 64 then device[k - hdr - 60] else m[k]
  }

  /** The refusals, by the bytes for the version, the cluster and the two slots. */
  predicate RefusedByBytes(m: seq<bv8>, m': seq<bv8>, hdr: nat, device: seq<bv8>, clusters: nat, plain: seq<bv8>,
    verdict: int, o: Outcome)
    requires hdr + 64 + |plain| <= |m| == |m'| && |device| == 4
  {
    if ClusterByte(m, hdr) >= clusters then
      o == Refused(-12) && forall k :: 0 <= k < |m| ==> MarkedByte(m, m', hdr, device, k)
    else if SealedBytes(m, hdr) && verdict != 0 then
      o == Refused(verdict) && m'[hdr + 64..hdr + 64 + |plain|] == plain &&
      forall k :: 0 <= k < |m| && !(hdr + 64 <= k < hdr + 64 + |plain|) ==> MarkedByte(m, m', hdr, device, k)
    else !o.Refused?
  }

  /** What happens otherwise, by the flags, the length and the relocation: where the payload lies. */
  predicate PlacedByBytes(m: seq<bv8>, m': seq<bv8>, hdr: nat, plain: seq<bv8>, o: Outcome)
    requires hdr + 64 + |plain| <= |m| == |m'| && !o.Refused?
  {
    && |plain| == Little(m, hdr + 12)
    && o.location == Target(m, hdr)
    && (!Tangled(m, hdr) ==>
          At(m', Target(m, hdr), if SealedBytes(m, hdr) then plain else m[hdr + 64..hdr + 64 + |plain|]))
  }

  /** Whether and how it is started, and with which header. */
  predicate StartedByBytes(m: seq<bv8>, m': seq<bv8>, hdr: nat, device: seq<bv8>, o: Outcome)
    requires hdr + 64 <= |m| == |m'| && |device| == 4 && !o.Refused?
  {
    && (o.LoadedOnly? <==> Flag(m, hdr, 0x02))
    && (o.Started? ==> (o.sync <==> ClusterByte(m, hdr) == 0 || Flag(m, hdr, 0x40)))
    && (o.Started? && Flag(m, hdr, 0x10) ==> o.header == [0, 0, 0, 0] + m[hdr + 4..hdr + 60] + device)
    && (o.Started? && !Flag(m, hdr, 0x10) ==> o.header == m'[hdr..hdr + 64])
  }

  lemma LittleIs(m: seq<bv8>, hdr: nat)
    requires hdr + 64 <= |m|
    ensures DataLength(m, hdr) == Little(m, hdr + 12) && Relocation(m, hdr) % 0x1_0000_0000 == Little(m, hdr + 24)
  {
    LittleWord(m, hdr, 12);
    LittleWord(m, hdr, 24);
    LowWord(Word32(Header(m, hdr), 24), Word32(Header(m, hdr), 28));
    SmallLittle(m, hdr + 24);
    hide Word32, Little, Header;
  }

  lemma LittleWord(m: seq<bv8>, hdr: nat, at: nat)
    requires hdr + 64 <= |m| && at + 4 <= 64
    ensures Word32(Header(m, hdr), at) == Little(m, hdr + at)
  {
    var h := Header(m, hdr);
    assert h[at] == m[hdr + at] && h[at + 1] == m[hdr + at + 1];
    assert h[at + 2] == m[hdr + at + 2] && h[at + 3] == m[hdr + at + 3];
    hide Header;
  }

  lemma SmallLittle(m: seq<bv8>, at: nat)
    requires at + 4 <= |m|
    ensures Little(m, at) < 0x1_0000_0000
  {
  }

  lemma LowWord(low: nat, high: nat)
    ensures low < 0x1_0000_0000 ==> (low + 0x1_0000_0000 * high) % 0x1_0000_0000 == low
  {
  }

  lemma HasIs(m: seq<bv8>, hdr: nat)
    requires hdr + 64 <= |m|
    ensures Has(m, hdr, RELOCATE) <==> Flag(m, hdr, 0x20)
    ensures Has(m, hdr, DECAPS) <==> Flag(m, hdr, 0x10)
    ensures Has(m, hdr, DATA) <==> Flag(m, hdr, 0x02)
    ensures Has(m, hdr, SYNC) <==> Flag(m, hdr, 0x40)
  {
  }

  lemma SlotsAre(m: seq<bv8>, hdr: nat)
    requires hdr + 64 <= |m|
    ensures Cluster(m, hdr) == ClusterByte(m, hdr) && (IsSealed(m, hdr) <==> SealedBytes(m, hdr))
  {
  }

  lemma TargetIs(m: seq<bv8>, hdr: nat)
    requires Fits(m, hdr)
    ensures Location(m, hdr) == Target(m, hdr) && (OntoItself(m, hdr) <==> Tangled(m, hdr))
  {
    FitsMeans(m, hdr);
    hide Has, Flag, Little, DataLength, Relocation, Header, Fits;
    LittleIs(m, hdr);
    HasIs(m, hdr);
    PlaceIs(m, hdr);
    TangledIf(m, hdr, Flag(m, hdr, 0x20), Flag(m, hdr, 0x10));
  }

  lemma PlaceIs(m: seq<bv8>, hdr: nat)
    requires Fits(m, hdr)
    ensures hdr + 64 <= |m|
    ensures var r := Relocation(m, hdr) % 0x1_0000_0000;
            Location(m, hdr) == Place(Has(m, hdr, RELOCATE), Has(m, hdr, DECAPS), r, hdr)
  {
    hide Has, Relocation, DataLength;
  }

  lemma TangledIf(m: seq<bv8>, hdr: nat, relocated: bool, bare: bool)
    requires hdr + 64 <= |m| && (Has(m, hdr, RELOCATE) <==> relocated) && (Has(m, hdr, DECAPS) <==> bare)
    ensures OntoItself(m, hdr) <==>
              relocated && !bare &&
              hdr <= Relocation(m, hdr) % 0x1_0000_0000 < hdr + 64 + DataLength(m, hdr)
  {
    hide Has, Relocation, DataLength;
  }

  lemma RefusedBytes(m: seq<bv8>, m': seq<bv8>, hdr: nat, device: seq<bv8>, clusters: nat, plain: seq<bv8>,
                     verdict: int, o: Outcome)
    requires Fits(m, hdr) && |device| == 4 && |plain| == DataLength(m, hdr) && |m'| == |m|
    requires Executes(m, m', hdr, device, clusters, plain, verdict, o)
    ensures RefusedByBytes(m, m', hdr, device, clusters, plain, verdict, o)
  {
    FitsMeans(m, hdr);
    hide Has, DataLength, Marked, Settled, Location, Payload, OntoItself, Cluster, ClusterByte, IsSealed, SealedBytes,
      Header, MarkedHeader, Fits, WithPayload, At;
    SlotsAre(m, hdr);
    var marked := Marked(m, hdr, device);
    var w := WithPayload(marked, hdr, plain);
    PlainWritten(marked, hdr, plain);
    forall k | 0 <= k < |m|
      ensures MarkedByte(m, marked, hdr, device, k)
      ensures !(hdr + 64 <= k < hdr + 64 + |plain|) ==> MarkedByte(m, w, hdr, device, k)
    {
      MarkedAt(m, hdr, device, k);
    }
  }

  lemma PlainWritten(m: seq<bv8>, hdr: nat, plain: seq<bv8>)
    requires hdr + 64 + |plain| <= |m|
    ensures var w := WithPayload(m, hdr, plain);
            && w[hdr + 64..hdr + 64 + |plain|] == plain
            && forall k :: 0 <= k < |m| && !(hdr + 64 <= k < hdr + 64 + |plain|) ==> w[k] == m[k]
  {
  }

  lemma PlacedBytes(m: seq<bv8>, m': seq<bv8>, hdr: nat, device: seq<bv8>, clusters: nat, plain: seq<bv8>,
                    verdict: int, o: Outcome)
    requires Fits(m, hdr) && |device| == 4 && |plain| == DataLength(m, hdr) && |m'| == |m|
    requires Executes(m, m', hdr, device, clusters, plain, verdict, o) && !o.Refused?
    ensures hdr + 64 + |plain| <= |m|
    ensures PlacedByBytes(m, m', hdr, plain, o)
  {
    hide Has, DataLength, Marked, Settled, Location, OntoItself, Cluster, ClusterByte, IsSealed, SealedBytes,
      Little, Target, Tangled, MarkedHeader, Fits, WithPayload, At, Opened, Header, Base;
    FitsMeans(m, hdr);
    SlotsAre(m, hdr);
    LittleIs(m, hdr);
    TargetIs(m, hdr);
  }

  lemma StartedBytes(m: seq<bv8>, m': seq<bv8>, hdr: nat, device: seq<bv8>, clusters: nat, plain: seq<bv8>,
                     verdict: int, o: Outcome)
    requires Fits(m, hdr) && |device| == 4 && |plain| == DataLength(m, hdr) && |m'| == |m|
    requires Executes(m, m', hdr, device, clusters, plain, verdict, o) && !o.Refused?
    ensures StartedByBytes(m, m', hdr, device, o)
  {
    hide Has, DataLength, Marked, Settled, Location, OntoItself, Cluster, ClusterByte, IsSealed, SealedBytes,
      MarkedHeader, Fits, WithPayload, At, Opened, Header, Base, Payload, Flag;
    FitsMeans(m, hdr);
    HasIs(m, hdr);
    SlotsAre(m, hdr);
    HeaderIs(m, hdr, device);
    HeaderBytes(m', hdr);
  }

  lemma HeaderBytes(m: seq<bv8>, hdr: nat)
    requires hdr + 64 <= |m|
    ensures Header(m, hdr) == m[hdr..hdr + 64]
  {
  }

  lemma HeaderIs(m: seq<bv8>, hdr: nat, device: seq<bv8>)
    requires hdr + 64 <= |m| && |device| == 4
    ensures MarkedHeader(Header(m, hdr), device) == [0, 0, 0, 0] + m[hdr + 4..hdr + 60] + device
  {
    SliceOfSlice(m, hdr, hdr + 64, 4, 60);
  }

  method BootimageExecute(mem: array<bv8>, hdr: nat, device: seq<bv8>, clusters: nat, plain: seq<bv8>, verdict: int)
    returns (o: Outcome)
    requires Fits(mem[..], hdr) && !Has(mem[..], hdr, COMPRESS)
    requires |device| == 4 && |plain| == DataLength(mem[..], hdr)
    modifies mem
    ensures Executes(old(mem[..]), mem[..], hdr, device, clusters, plain, verdict, o)
    ensures hdr + 64 + |plain| <= mem.Length
    ensures RefusedByBytes(old(mem[..]), mem[..], hdr, device, clusters, plain, verdict, o)
    ensures !o.Refused? ==>
        PlacedByBytes(old(mem[..]), mem[..], hdr, plain, o) && StartedByBytes(old(mem[..]), mem[..], hdr, device, o)
  {
    ghost var m := mem[..];
    FitsMeans(m, hdr);
    Mark(mem, hdr, device);
    ClusterMarked(m, hdr, device);
    OpenedKeeps(m, hdr, device, plain);
    hide Has, Header, MarkedHeader, Marked, Base, Settled, Location, Payload, IsSealed, DataLength, OntoItself, Cluster,
      WithPayload, Fits, RefusedByBytes, PlacedByBytes, StartedByBytes;
    var cluster := Cluster(mem[..], hdr);
    if cluster >= clusters {
      o := Refused(-EBADCLUSTERID);
      RefusedBytes(m, mem[..], hdr, device, clusters, plain, verdict, o);
      return;
    }
    if IsSealed(mem[..], hdr) {
      Unseal(mem, hdr, plain);
      if verdict != 0 {
        o := Refused(verdict);
        RefusedBytes(m, mem[..], hdr, device, clusters, plain, verdict, o);
        return;
      }
    }
    assert mem[..] == Opened(m, hdr, device, plain);
    hide Executes, Arrived, Opened;
    o := Launch(mem, hdr, cluster);
    Launched(m, hdr, device, clusters, plain, verdict, o);
    RefusedBytes(m, mem[..], hdr, device, clusters, plain, verdict, o);
    PlacedBytes(m, mem[..], hdr, device, clusters, plain, verdict, o);
    StartedBytes(m, mem[..], hdr, device, clusters, plain, verdict, o);
  }
}
