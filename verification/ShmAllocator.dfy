/** The bump allocator on a region shared by many typed allocators and processes; every
    operation runs under the region's semaphore, so a history is a sequence of them. */
module ShmAllocator {
  const TWO64: int := 0x1_0000_0000_0000_0000

  /** Addresses are bytes. */
  datatype Block = Block(start: int, bytes: nat)

  /** `base` is where the free memory first began; `live` lists the blocks handed out. */
  datatype Region = Region(base: int, begin: int, end: int, live: seq<Block>)

  /** The guard of `allocate`: as coded it takes begin minus end, intended is end minus begin. */
  datatype Guard = Coded | Intended

  /** A pointer difference in elements, compared with an unsigned count. */
  function AsUnsigned(d: int): int {
    if d < 0 then d + TWO64 else d
  }

  /** Address arithmetic in 64 bits. */
  function Address(a: int): int { a % TWO64 }

  lemma AddressExact(a: int)
    requires 0 <= a < TWO64
    ensures Address(a) == a
  {
  }

  function Elements(bytes: int, size: nat): int
    requires size > 0
  {
    if bytes < 0 then -((-bytes) / size) else bytes / size
  }

  predicate Refuses(g: Guard, r: Region, n: nat, size: nat)
    requires size > 0
  {
    match g
    case Coded => AsUnsigned(Elements(r.begin - r.end, size)) < n
    case Intended => Elements(r.end - r.begin, size) < n
  }

  function Take(r: Region, bytes: nat): Region {
    r.(begin := Address(r.begin + bytes), live := r.live + [Block(r.begin, bytes)])
  }

  function Allocate(g: Guard, r: Region, n: nat, size: nat): Region
    requires size > 0
  {
    if Refuses(g, r, n, size) then r else Take(r, n * size)
  }

  function Without(s: seq<Block>, i: nat): seq<Block>
    requires i < |s|
  {
    s[..i] + s[i + 1..]
  }

  /** Giving block `i` back: `begin` moves only for a block that ends at the region's end. */
  function Deallocate(r: Region, i: nat): Region
    requires i < |r.live|
  {
    var b := r.live[i];
    r.(begin := if Address(r.end - b.bytes) == b.start then Address(r.begin - b.bytes) else r.begin,
       live := Without(r.live, i))
  }

  // ---- safety -----------------------------------------------------------------

  ghost predicate Apart(a: Block, b: Block) {
    a.start + a.bytes <= b.start || b.start + b.bytes <= a.start
  }

  /** Live blocks are pairwise disjoint and inside the used part of the region; a block
      of no bytes is nowhere. */
  ghost predicate Safe(r: Region) {
    && 0 <= r.base <= r.begin <= r.end < TWO64
    && (forall i :: 0 <= i < |r.live| && r.live[i].bytes > 0 ==>
          r.base <= r.live[i].start && r.live[i].start + r.live[i].bytes <= r.begin)
    && (forall i, j :: 0 <= i < j < |r.live| && r.live[i].bytes > 0 && r.live[j].bytes > 0 ==>
          Apart(r.live[i], r.live[j]))
  }

  lemma MulAdds(a: nat, b: nat, c: nat)
    ensures (a + b) * c == a * c + b * c && b * c >= 0
  {
  }

  lemma RoomForAll(room: nat, n: nat, size: nat)
    requires size > 0
    ensures n <= room / size <==> n * size <= room
  {
    var q := room / size;
    assert room == q * size + room % size;
    if n <= q {
      MulAdds(n, q - n, size);
    } else {
      MulAdds(q + 1, n - q - 1, size);
      MulAdds(q, 1, size);
    }
  }

  lemma AllocateSafe(r: Region, n: nat, size: nat)
    requires Safe(r) && size > 0
    ensures Safe(Allocate(Intended, r, n, size))
    ensures Allocate(Intended, r, n, size) == r <==> Refuses(Intended, r, n, size)
    ensures Refuses(Intended, r, n, size) <==> r.end - r.begin < n * size
    ensures n * size <= r.end - r.begin ==>
              Allocate(Intended, r, n, size)
              == Region(r.base, r.begin + n * size, r.end, r.live + [Block(r.begin, n * size)])
  {
    hide Address, Safe;
    SafeOrder(r);
    RoomForAll(r.end - r.begin, n, size);
    TakeSafe(r, n * size);
    if n * size <= r.end - r.begin {
      AddressExact(r.begin + n * size);
    }
  }

  lemma DeallocateAddress(r: Region, i: nat)
    requires Safe(r) && i < |r.live|
    ensures var b := r.live[i];
            var top := b.bytes > 0 && r.end - b.bytes == b.start;
            Deallocate(r, i) == r.(begin := if top then r.begin - b.bytes else r.begin, live := Without(r.live, i))
  {
    var b := r.live[i];
    AddressExact(r.begin);
    AddressExact(r.end);
    if b.bytes > 0 {
      AddressExact(r.end - b.bytes);
      AddressExact(r.begin - b.bytes);
    }
  }

  /** A block whose return moves `begin` is the topmost one: `begin` was at its end, and
      every other live block lies below the new `begin`. */
  lemma DeallocateSafe(r: Region, i: nat)
    requires Safe(r) && i < |r.live|
    ensures Safe(Deallocate(r, i))
    ensures Deallocate(r, i).begin != r.begin ==>
              && r.live[i].start + r.live[i].bytes == r.begin == r.end
              && Deallocate(r, i).begin == r.live[i].start
    ensures var b := r.live[i];
            Deallocate(r, i)
            == Region(r.base, if b.bytes > 0 && b.start + b.bytes == r.end then b.start else r.begin, r.end,
                      r.live[..i] + r.live[i + 1..])
  {
    hide Address;
    var b, d := r.live[i], Deallocate(r, i);
    DeallocateAddress(r, i);
    forall j | 0 <= j < |d.live|
      ensures var k := if j < i then j else j + 1;
              d.live[j] == r.live[k] && k != i && (d.live[j].bytes > 0 && b.bytes > 0 ==> Apart(d.live[j], b))
    {
    }
    forall j | 0 <= j < |d.live| && r.end - b.bytes == b.start && b.bytes > 0 && d.live[j].bytes > 0
      ensures d.live[j].start + d.live[j].bytes <= d.begin
    {
      var k := if j < i then j else j + 1;
      assert d.live[j] == r.live[k];
      assert r.live[k].start + r.live[k].bytes <= r.begin;
    }
  }

  // ---- histories ------------------------------------------------------------------

  /** Any process, any element type: the lock makes each call one step. */
  datatype Op = Alloc(n: nat, size: nat) | Free(index: nat)

  function Apply(g: Guard, r: Region, op: Op): Region {
    match op
    case Alloc(n, size) => if size == 0 then r else Allocate(g, r, n, size)
    case Free(i) => if i < |r.live| then Deallocate(r, i) else r
  }

  function Run(g: Guard, r: Region, ops: seq<Op>): Region {
    if ops == [] then r else Apply(g, Run(g, r, ops[..|ops| - 1]), ops[|ops| - 1])
  }

  /** Over every interleaving, with the guard read as free room, the region stays safe. */
  lemma {:induction false} RunSafe(r: Region, ops: seq<Op>)
    requires Safe(r)
    ensures Safe(Run(Intended, r, ops))
    decreases |ops|
  {
    if ops != [] {
      hide Safe, Allocate, Deallocate;
      RunSafe(r, ops[..|ops| - 1]);
      var m := Run(Intended, r, ops[..|ops| - 1]);
      match ops[|ops| - 1]
      case Alloc(n, size) => if size > 0 { AllocateSafe(m, n, size); }
      case Free(i) => if i < |m.live| { DeallocateSafe(m, i); }
    }
  }

  lemma TakeSafe(r: Region, bytes: nat)
    requires Safe(r)
    ensures Safe(Take(r, bytes)) <==> bytes <= r.end - r.begin
  {
    var t := Take(r, bytes);
    assert t.live[|r.live|] == Block(r.begin, bytes);
    if bytes <= r.end - r.begin {
      AddressExact(r.begin + bytes);
    }
  }

  /** As coded, a full region refuses every request but the empty one; while room is left
      only those are refused that, in unsigned elements, exceed the negated room. */
  lemma CodedRefuses(r: Region, n: nat, size: nat)
    requires r.begin <= r.end && size > 0
    requires r.end - r.begin < TWO64 / 2 && n < TWO64
    requires (r.end - r.begin) % size == 0
    ensures Refuses(Coded, r, n, size)
            <==> if r.begin == r.end then n > 0 else n > TWO64 - (r.end - r.begin) / size
  {
    var room := r.end - r.begin;
    var q := room / size;
    assert room == q * size;
    if room > 0 {
      QuotientBounds(room, q, size);
    } else {
      assert 0 / size == 0;
    }
  }

  lemma QuotientBounds(room: int, q: int, size: nat)
    requires room > 0 && size > 0 && room == q * size
    ensures 0 < q <= room
  {
    assert q > 0 ==> q * (size - 1) >= 0;
    assert q * size == q + q * (size - 1);
  }

  /** As coded, an allocation keeps a safe region safe exactly when it fits or is refused:
      on a full region, or for a count that exceeds the negated room. */
  lemma CodedAllocate(r: Region, n: nat, size: nat)
    requires Safe(r) && size > 0 && r.end - r.begin < TWO64 / 2 && n < TWO64
    requires (r.end - r.begin) % size == 0
    ensures Safe(Allocate(Coded, r, n, size))
            <==> || r.begin == r.end
                 || n * size <= r.end - r.begin
                 || n > TWO64 - (r.end - r.begin) / size
  {
    hide Safe, Refuses, Take;
    SafeOrder(r);
    CodedRefuses(r, n, size);
    TakeSafe(r, n * size);
    if n == 0 {
      assert n * size == 0;
    }
  }

  lemma SafeOrder(r: Region)
    requires Safe(r)
    ensures 0 <= r.begin <= r.end < TWO64
  {
  }

  // ---- the allocator objects ---------------------------------------------------------

  /** The header at the start of the shared mapping. */
  class SharedRegionView {
    const base: int
    const end: int
    var begin: int
    ghost var live: seq<Block>

    ghost function Value(): Region
      reads this
    {
      Region(base, begin, end, live)
    }

    constructor (start: int, end: int)
      ensures Value() == Region(start, start, end, [])
    {
      base, begin, this.end, live := start, start, end, [];
    }
  }

  /** Allocators of different element sizes share one region. */
  class TypedAllocator {
    const guard: Guard
    const size: nat
    const state: SharedRegionView

    constructor (guard: Guard, size: nat, region: SharedRegionView)
      requires size > 0
      ensures this.guard == guard && this.size == size && state == region
    {
      this.guard, this.size, state := guard, size, region;
    }

    method AllocateBlock(n: nat) returns (ok: bool, start: int)
      requires size > 0
      modifies state
      ensures state.Value() == Allocate(guard, old(state.Value()), n, size)
      ensures ok <==> !Refuses(guard, old(state.Value()), n, size)
      ensures ok ==> start == old(state.begin)
    {
      var refused :=
        match guard
        case Coded => AsUnsigned(Elements(state.begin - state.end, size)) < n
        case Intended => Elements(state.end - state.begin, size) < n;
      if refused {
        return false, 0;
      }
      start := state.begin;
      state.live := state.live + [Block(start, n * size)];
      state.begin := Address(state.begin + n * size);
      ok := true;
    }

    /** `p` and `n` must name a live block, as the allocator requirements demand. */
    method DeallocateBlock(p: int, n: nat, ghost i: nat)
      requires i < |state.live| && state.live[i] == Block(p, n * size)
      modifies state
      ensures state.Value() == Deallocate(old(state.Value()), i)
    {
      if Address(state.end - n * size) == p {
        state.begin := Address(state.begin - n * size);
      }
      state.live := Without(state.live, i);
    }
  }
}
