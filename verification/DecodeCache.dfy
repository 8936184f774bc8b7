/** The decoded-instruction cache in front of instruction fetch (cpu.c: cpu_step; decodecache.h),
    against a machine that fetches afresh every time. */
module DecodeCache {
  import opened Basics

  /** Where the upper half of an instruction lies: its own translation may fault. */
  datatype Upper = UpperFault(code: nat) | UpperAt(pa: nat)

  datatype Result = Insn(inst: nat, ilen: nat) | AccessFault(offset: nat) | PageFault(code: nat) | Illegal(half: U16)

  /** Plain memory by halfword, and the devices. */
  datatype Memory<D> = Memory(ram: map<nat, U16>, dev: D)

  /** How the devices answer a halfword read, which may change them, and what is given. */
  datatype Fetcher<!D> = Fetcher(
    devRead: (D, nat) -> (Option<U16>, D),
    expand: U16 -> Option<nat>,
    isDevice: nat -> bool)

  /** A halfword read, None outside mapped memory. */
  function ReadHalf<D>(f: Fetcher<D>, m: Memory<D>, pa: nat): (Option<U16>, Memory<D>) {
    if f.isDevice(pa) then var (h, d) := f.devRead(m.dev, pa); (h, m.(dev := d))
    else (if pa in m.ram then Some(m.ram[pa]) else None, m)
  }

  /** Fetch and expand, with no cache. */
  function Fresh<D>(f: Fetcher<D>, m: Memory<D>, lo: nat, hi: Upper): (Result, Memory<D>) {
    var (low, m1) := ReadHalf(f, m, lo);
    match low
    case None => (AccessFault(0), m1)
    case Some(v) =>
      if v % 4 != 3 then
        match f.expand(v)
        case None => (Illegal(v), m1)
        case Some(i) => (Insn(i, 2), m1)
      else
        match hi
        case UpperFault(code) => (PageFault(code), m1)
        case UpperAt(pa) =>
          var (high, m2) := ReadHalf(f, m1, pa);
          match high
          case None => (AccessFault(2), m2)
          case Some(w) => (Insn(v + 0x1_0000 * w, 4), m2)
  }

  predicate Cacheable<D>(f: Fetcher<D>, r: Result, lo: nat, hi: Upper) {
    r.Insn? && !f.isDevice(lo) && (r.ilen == 4 ==> hi.UpperAt? && !f.isDevice(hi.pa))
  }

  // ---- The cache --------------------------------------------------------------------------

  datatype Slot = Slot(gen: nat, pa: nat, inst: nat, ilen: nat)
  const Size: nat := 0x1_0000

  type Slots = s: seq<Slot> | |s| == 0x1_0000 witness seq(0x1_0000, _ => Slot(0, 0, 0, 0))

  function IndexOf(pa: nat): nat { pa / 2 % Size }

  datatype Cache = Cache(gen: nat, slots: Slots)

  predicate Hit(c: Cache, lo: nat) {
    var s := c.slots[IndexOf(lo)];
    s.gen == c.gen && s.pa == lo
  }

  /** The fetch of cpu_step. */
  function Cached<D>(f: Fetcher<D>, c: Cache, m: Memory<D>, lo: nat, hi: Upper): (Result, Memory<D>, Cache) {
    var s := c.slots[IndexOf(lo)];
    if Hit(c, lo) then (Insn(s.inst, s.ilen), m, c)
    else
      var (r, m') := Fresh(f, m, lo, hi);
      if Cacheable(f, r, lo, hi) then (r, m', c.(slots := c.slots[IndexOf(lo) := Slot(c.gen, lo, r.inst, r.ilen)]))
      else (r, m', c)
  }

  function Flush(c: Cache): Cache { c.(gen := c.gen + 1) }

  /** No slot is from the future. */
  predicate Aged(c: Cache) { forall k :: 0 <= k < Size ==> c.slots[k].gen <= c.gen }

  /** One generation bump retires every slot. */
  lemma FlushRetires(c: Cache, lo: nat)
    requires Aged(c)
    ensures !Hit(Flush(c), lo) && Aged(Flush(c))
  {
  }

  // ---- When one hit is right --------------------------------------------------------------

  /** The halfword is read as x, with no effect. */
  ghost predicate Reads<D>(f: Fetcher<D>, m: Memory<D>, pa: nat, x: nat) {
    var (h, m') := ReadHalf(f, m, pa);
    h.Some? && h.value == x && m' == m
  }

  /** Memory holds the instruction: a compressed encoding of it, or its two halves, the upper one where
      it is mapped now. */
  ghost predicate HoldsInsn<D>(f: Fetcher<D>, m: Memory<D>, lo: nat, hi: Upper, inst: nat, ilen: nat) {
    if ilen == 2 then exists v: U16 :: v % 4 != 3 && f.expand(v) == Some(inst) && Reads(f, m, lo, v)
    else inst % 4 == 3 && hi.UpperAt? && Reads(f, m, lo, inst % 0x1_0000) && Reads(f, m, hi.pa, inst / 0x1_0000)
  }

  /** A hit answers as a fresh fetch would exactly when memory still holds the remembered instruction,
      with its upper half where it is mapped now; a hit looks at neither. */
  lemma HitExact<D>(f: Fetcher<D>, c: Cache, m: Memory<D>, lo: nat, hi: Upper)
    requires Hit(c, lo) && !f.isDevice(lo)
    requires var s := c.slots[IndexOf(lo)]; s.ilen == 2 || s.ilen == 4
    ensures var s := c.slots[IndexOf(lo)];
      (Cached(f, c, m, lo, hi).0, Cached(f, c, m, lo, hi).1) == Fresh(f, m, lo, hi) <==> HoldsInsn(f, m, lo, hi, s.inst, s.ilen)
  {
    var s := c.slots[IndexOf(lo)];
    var low := ReadHalf(f, m, lo).0;
    if low.Some? {
      var v := low.value;
      if s.ilen == 2 {
        if v % 4 != 3 { assert Reads(f, m, lo, v); }
      } else if v % 4 == 3 && hi.UpperAt? {
        var high := ReadHalf(f, m, hi.pa).0;
        if high.Some? { Halves(v, high.value, s.inst); }
      }
    }
  }

  /** A 32-bit instruction is its two halves. */
  lemma Halves(v: U16, w: U16, inst: nat)
    ensures v + 0x1_0000 * w == inst <==> inst % 0x1_0000 == v && inst / 0x1_0000 == w
    ensures v + 0x1_0000 * w == inst ==> inst % 4 == v % 4
  {
    if v + 0x1_0000 * w == inst {
      LowHalf(v, w);
      LowBits(v, w);
    }
  }

  lemma LowHalf(v: U16, w: U16)
    ensures (v + 0x1_0000 * w) % 0x1_0000 == v && (v + 0x1_0000 * w) / 0x1_0000 == w
  {
  }

  lemma LowBits(v: nat, w: nat)
    ensures (v + 0x1_0000 * w) % 4 == v % 4
  {
    assert v == 4 * (v / 4) + v % 4;
    assert v + 0x1_0000 * w == 4 * (0x4000 * w + v / 4) + v % 4;
    Residue(0x4000 * w + v / 4, v % 4);
  }

  lemma Residue(q: nat, r: nat)
    requires r < 4
    ensures (4 * q + r) % 4 == r
  {
  }

  // ---- Runs -------------------------------------------------------------------------------

  /** A fetch; a store, of this hart or another or by DMA, replacing some halfwords of plain memory; a
      change of the devices; FENCE.I. */
  datatype Event<D> = Fetch(lo: nat, hi: Upper) | Store(halves: map<nat, U16>) | Devices(dev: D) | FenceI

  function RunFresh<D>(f: Fetcher<D>, m: Memory<D>, events: seq<Event<D>>): (seq<Result>, Memory<D>)
    decreases |events|
  {
    if events == [] then ([], m)
    else
      match events[0]
      case Fetch(lo, hi) =>
        var (r, m') := Fresh(f, m, lo, hi);
        var (rs, last) := RunFresh(f, m', events[1..]);
        ([r] + rs, last)
      case Store(halves) => RunFresh(f, m.(ram := m.ram + halves), events[1..])
      case Devices(dev) => RunFresh(f, m.(dev := dev), events[1..])
      case FenceI => RunFresh(f, m, events[1..])
  }

  function RunCached<D>(f: Fetcher<D>, c: Cache, m: Memory<D>, events: seq<Event<D>>): (seq<Result>, Memory<D>)
    decreases |events|
  {
    if events == [] then ([], m)
    else
      match events[0]
      case Fetch(lo, hi) =>
        var (r, m', c') := Cached(f, c, m, lo, hi);
        var (rs, last) := RunCached(f, c', m', events[1..]);
        ([r] + rs, last)
      case Store(halves) => RunCached(f, c, m.(ram := m.ram + halves), events[1..])
      case Devices(dev) => RunCached(f, c, m.(dev := dev), events[1..])
      case FenceI => RunCached(f, Flush(c), m, events[1..])
  }

  // ---- The FENCE.I contract ---------------------------------------------------------------

  /** An instruction that has been fetched since the last FENCE.I: what it was, where its upper half lay
      if it has one, and whether a half of it has been stored to since. */
  datatype Seen = Seen(insn: Result, upper: Option<nat>, spoilt: bool)
  type History = map<nat, Seen>

  function Noted<D>(f: Fetcher<D>, m: Memory<D>, h: History, lo: nat, hi: Upper): History {
    var r := Fresh(f, m, lo, hi).0;
    if !Cacheable(f, r, lo, hi) || lo in h then h
    else h[lo := Seen(r, if r.ilen == 4 then Some(hi.pa) else None, false)]
  }

  function Spoil(h: History, halves: map<nat, U16>): History {
    map lo | lo in h :: h[lo].(spoilt := h[lo].spoilt || lo in halves || (h[lo].upper.Some? && h[lo].upper.value in halves))
  }

  /** An instruction fetched before is not fetched again once one of its halves has been stored to, and
      its upper half is still mapped where it was. */
  predicate Refetch(h: History, lo: nat, hi: Upper) {
    lo in h ==> !h[lo].spoilt && (h[lo].upper.Some? ==> hi == UpperAt(h[lo].upper.value))
  }

  /** The contract over a run: about where fetches and stores go.  What is read decides no more than how
      long an instruction is and whether its fetch is remembered. */
  predicate Contract<D>(f: Fetcher<D>, m: Memory<D>, h: History, events: seq<Event<D>>)
    decreases |events|
  {
    events != [] ==>
      match events[0]
      case Fetch(lo, hi) => Refetch(h, lo, hi) && Contract(f, Fresh(f, m, lo, hi).1, Noted(f, m, h, lo, hi), events[1..])
      case Store(halves) => Contract(f, m.(ram := m.ram + halves), Spoil(h, halves), events[1..])
      case Devices(dev) => Contract(f, m.(dev := dev), h, events[1..])
      case FenceI => Contract(f, m, map[], events[1..])
  }

  /** The slots remember fetches since the last flush. */
  predicate Remembers(c: Cache, h: History) {
    Aged(c) && forall k :: 0 <= k < Size && c.slots[k].gen == c.gen ==>
      var s := c.slots[k]; s.pa in h && h[s.pa].insn == Insn(s.inst, s.ilen)
  }

  /** What has been fetched and not been stored to is in memory. */
  ghost predicate StillThere<D>(f: Fetcher<D>, m: Memory<D>, h: History) {
    forall lo :: lo in h ==> Intact(f, m, lo, h[lo])
  }

  ghost predicate Intact<D>(f: Fetcher<D>, m: Memory<D>, lo: nat, s: Seen) {
    && !f.isDevice(lo) && (s.upper.Some? ==> !f.isDevice(s.upper.value))
    && (!s.spoilt ==>
          && (s.upper.Some? ==> Fresh(f, m, lo, UpperAt(s.upper.value)) == (s.insn, m))
          && (s.upper.None? ==> s.insn.Insn? && s.insn.ilen == 2 && forall hi :: Fresh(f, m, lo, hi) == (s.insn, m)))
  }

  /** A fetch depends on the halfwords it reads from plain memory. */
  lemma FreshKept<D>(f: Fetcher<D>, m: Memory<D>, m': Memory<D>, lo: nat, hi: Upper)
    requires !f.isDevice(lo) && (hi.UpperAt? ==> !f.isDevice(hi.pa))
    requires ReadHalf(f, m', lo).0 == ReadHalf(f, m, lo).0
    requires hi.UpperAt? ==> ReadHalf(f, m', hi.pa).0 == ReadHalf(f, m, hi.pa).0
    ensures Fresh(f, m', lo, hi) == (Fresh(f, m, lo, hi).0, m')
  {
  }

  /** A 16-bit instruction depends on its own halfword. */
  lemma FreshShort<D>(f: Fetcher<D>, m: Memory<D>, m': Memory<D>, lo: nat, hi: Upper, other: Upper)
    requires !f.isDevice(lo) && ReadHalf(f, m', lo).0 == ReadHalf(f, m, lo).0
    requires Fresh(f, m, lo, other).0.Insn? && Fresh(f, m, lo, other).0.ilen == 2
    ensures Fresh(f, m', lo, hi) == (Fresh(f, m, lo, other).0, m')
  {
  }

  /** Whatever changes in memory besides the halves of an instruction leaves it intact. */
  lemma IntactKept<D>(f: Fetcher<D>, m: Memory<D>, m': Memory<D>, lo: nat, s: Seen, s': Seen)
    requires Intact(f, m, lo, s) && s' == s.(spoilt := s'.spoilt) && (s.spoilt ==> s'.spoilt)
    requires !s'.spoilt ==> ReadHalf(f, m', lo).0 == ReadHalf(f, m, lo).0
    requires !s'.spoilt && s.upper.Some? ==> ReadHalf(f, m', s.upper.value).0 == ReadHalf(f, m, s.upper.value).0
    ensures Intact(f, m', lo, s')
  {
    hide Fresh, ReadHalf;
    if !s'.spoilt {
      if s.upper.Some? {
        FreshKept(f, m, m', lo, UpperAt(s.upper.value));
      } else {
        forall hi ensures Fresh(f, m', lo, hi) == (s.insn, m') { FreshShort(f, m, m', lo, hi, hi); }
      }
    }
  }

  lemma StoreKeeps<D>(f: Fetcher<D>, m: Memory<D>, h: History, halves: map<nat, U16>)
    requires StillThere(f, m, h)
    ensures StillThere(f, m.(ram := m.ram + halves), Spoil(h, halves))
  {
    hide Intact;
    var m' := m.(ram := m.ram + halves);
    forall lo | lo in Spoil(h, halves) ensures Intact(f, m', lo, Spoil(h, halves)[lo]) {
      IntactPlain(f, m, lo, h[lo]);
      IntactKept(f, m, m', lo, h[lo], Spoil(h, halves)[lo]);
    }
  }

  lemma IntactPlain<D>(f: Fetcher<D>, m: Memory<D>, lo: nat, s: Seen)
    requires Intact(f, m, lo, s)
    ensures !f.isDevice(lo) && (s.upper.Some? ==> !f.isDevice(s.upper.value))
  {
  }

  lemma DevicesKeep<D>(f: Fetcher<D>, m: Memory<D>, h: History, dev: D)
    requires StillThere(f, m, h)
    ensures StillThere(f, m.(dev := dev), h)
  {
    hide Intact;
    forall lo | lo in h ensures Intact(f, m.(dev := dev), lo, h[lo]) {
      IntactPlain(f, m, lo, h[lo]);
      IntactKept(f, m, m.(dev := dev), lo, h[lo], h[lo]);
    }
  }

  /** Fetching changes devices at most. */
  lemma FreshRam<D>(f: Fetcher<D>, m: Memory<D>, lo: nat, hi: Upper)
    ensures var m' := Fresh(f, m, lo, hi).1; m' == m.(dev := m'.dev)
  {
  }

  /** What is noted is in memory. */
  lemma NotedIntact<D>(f: Fetcher<D>, m: Memory<D>, lo: nat, hi: Upper)
    requires Cacheable(f, Fresh(f, m, lo, hi).0, lo, hi)
    ensures var (r, m') := Fresh(f, m, lo, hi);
      m' == m && Intact(f, m, lo, Seen(r, if r.ilen == 4 then Some(hi.pa) else None, false))
  {
    var r := Fresh(f, m, lo, hi).0;
    if r.ilen != 4 { forall any ensures Fresh(f, m, lo, any) == (r, m) { FreshShort(f, m, m, lo, any, hi); } }
  }

  lemma FetchKeeps<D>(f: Fetcher<D>, m: Memory<D>, h: History, lo: nat, hi: Upper)
    requires StillThere(f, m, h)
    ensures StillThere(f, Fresh(f, m, lo, hi).1, Noted(f, m, h, lo, hi))
  {
    hide Intact, Fresh, Cacheable;
    FreshRam(f, m, lo, hi);
    var m' := Fresh(f, m, lo, hi).1;
    DevicesKeep(f, m, h, m'.dev);
    if Cacheable(f, Fresh(f, m, lo, hi).0, lo, hi) && lo !in h { NotedIntact(f, m, lo, hi); }
  }

  // ---- The theorem ------------------------------------------------------------------------

  /** Within the contract a fetch of an instruction seen before gives it again. */
  lemma RefetchSame<D>(f: Fetcher<D>, m: Memory<D>, h: History, lo: nat, hi: Upper)
    requires StillThere(f, m, h) && Refetch(h, lo, hi) && lo in h
    ensures Fresh(f, m, lo, hi) == (h[lo].insn, m)
  {
    hide Fresh;
    assert Intact(f, m, lo, h[lo]);
  }

  /** One fetch through the cache. */
  lemma CachedStep<D>(f: Fetcher<D>, c: Cache, m: Memory<D>, h: History, lo: nat, hi: Upper)
    requires Remembers(c, h) && StillThere(f, m, h) && Refetch(h, lo, hi)
    ensures var (r, m', c') := Cached(f, c, m, lo, hi); (r, m') == Fresh(f, m, lo, hi) && Remembers(c', Noted(f, m, h, lo, hi))
  {
    hide Fresh, StillThere;
    if lo in h { RefetchSame(f, m, h, lo, hi); }
    var (r, m', c') := Cached(f, c, m, lo, hi);
    var note := Noted(f, m, h, lo, hi);
    forall k | 0 <= k < Size && c'.slots[k].gen == c'.gen
      ensures c'.slots[k].pa in note && note[c'.slots[k].pa].insn == Insn(c'.slots[k].inst, c'.slots[k].ilen)
    {
      if !(k == IndexOf(lo) && !Hit(c, lo) && Cacheable(f, r, lo, hi)) { assert c'.slots[k] == c.slots[k]; }
    }
  }

  lemma SpoilRemembers(c: Cache, h: History, halves: map<nat, U16>)
    requires Remembers(c, h)
    ensures Remembers(c, Spoil(h, halves))
  {
  }

  lemma FlushForgets(c: Cache, h: History)
    requires Remembers(c, h)
    ensures Remembers(Flush(c), map[])
  {
  }

  /** In every run that keeps the FENCE.I contract the cached machine fetches what the uncached one
      fetches, faults where it faults, and ends with the same memory. */
  lemma {:induction false} CacheInvisible<D>(f: Fetcher<D>, c: Cache, m: Memory<D>, h: History, events: seq<Event<D>>)
    requires Remembers(c, h) && StillThere(f, m, h) && Contract(f, m, h, events)
    ensures RunCached(f, c, m, events) == RunFresh(f, m, events)
    decreases |events|
  {
    hide Fresh, Cached, Remembers, StillThere, Refetch, Noted, Spoil, Flush;
    if events != [] {
      match events[0] {
        case Fetch(lo, hi) =>
          CachedStep(f, c, m, h, lo, hi);
          FetchKeeps(f, m, h, lo, hi);
          var (r, m', c') := Cached(f, c, m, lo, hi);
          CacheInvisible(f, c', m', Noted(f, m, h, lo, hi), events[1..]);
        case Store(halves) =>
          StoreKeeps(f, m, h, halves);
          SpoilRemembers(c, h, halves);
          CacheInvisible(f, c, m.(ram := m.ram + halves), Spoil(h, halves), events[1..]);
        case Devices(dev) =>
          DevicesKeep(f, m, h, dev);
          CacheInvisible(f, c, m.(dev := dev), h, events[1..]);
        case FenceI =>
          FlushForgets(c, h);
          EmptyThere(f, m);
          CacheInvisible(f, Flush(c), m, map[], events[1..]);
      }
    }
  }

  lemma EmptyThere<D>(f: Fetcher<D>, m: Memory<D>)
    ensures StillThere(f, m, map[])
  {
  }

  function EmptyCache(): Cache { Cache(1, seq(Size, _ => Slot(0, 0, 0, 0))) }

  /** A machine attached to an empty cache. */
  lemma RunInvisible<D>(f: Fetcher<D>, m: Memory<D>, events: seq<Event<D>>)
    requires Contract(f, m, map[], events)
    ensures RunCached(f, EmptyCache(), m, events) == RunFresh(f, m, events)
  {
    hide Contract, RunCached, RunFresh;
    EmptyThere(f, m);
    CacheInvisible(f, EmptyCache(), m, map[], events);
  }

  // ---- The contract on the events alone ---------------------------------------------------

  /** Counting every fetch as one of a 32-bit instruction, the contract needs no memory at all. */
  predicate EventContract<D>(seen: map<nat, Upper>, spoilt: set<nat>, events: seq<Event<D>>)
    decreases |events|
  {
    events != [] ==>
      match events[0]
      case Fetch(lo, hi) =>
        && (lo in seen ==> lo !in spoilt && hi == seen[lo])
        && EventContract(if lo in seen then seen else seen[lo := hi], spoilt, events[1..])
      case Store(halves) => EventContract(seen, spoilt + Met(seen, halves), events[1..])
      case Devices(_) => EventContract(seen, spoilt, events[1..])
      case FenceI => EventContract(map[], {}, events[1..])
  }

  /** The instructions a store may have changed. */
  function Met(seen: map<nat, Upper>, halves: map<nat, U16>): set<nat> {
    set lo | lo in seen && (lo in halves || (seen[lo].UpperAt? && seen[lo].pa in halves))
  }

  predicate Covers(h: History, seen: map<nat, Upper>, spoilt: set<nat>) {
    forall lo :: lo in h ==>
      lo in seen && (h[lo].spoilt ==> lo in spoilt) && (h[lo].upper.Some? ==> seen[lo] == UpperAt(h[lo].upper.value))
  }

  lemma {:induction false} EventsSuffice<D>(f: Fetcher<D>, m: Memory<D>, h: History, seen: map<nat, Upper>, spoilt: set<nat>,
                                            events: seq<Event<D>>)
    requires Covers(h, seen, spoilt) && EventContract(seen, spoilt, events)
    ensures Contract(f, m, h, events)
    decreases |events|
  {
    hide Fresh, Cacheable;
    if events != [] {
      match events[0] {
        case Fetch(lo, hi) =>
          NotedCovers(f, m, h, seen, spoilt, lo, hi);
          EventsSuffice(f, Fresh(f, m, lo, hi).1, Noted(f, m, h, lo, hi), if lo in seen then seen else seen[lo := hi], spoilt, events[1..]);
        case Store(halves) =>
          EventsSuffice(f, m.(ram := m.ram + halves), Spoil(h, halves), seen, spoilt + Met(seen, halves), events[1..]);
        case Devices(dev) => EventsSuffice(f, m.(dev := dev), h, seen, spoilt, events[1..]);
        case FenceI => EventsSuffice(f, m, map[], map[], {}, events[1..]);
      }
    }
  }

  lemma NotedCovers<D>(f: Fetcher<D>, m: Memory<D>, h: History, seen: map<nat, Upper>, spoilt: set<nat>, lo: nat, hi: Upper)
    requires Covers(h, seen, spoilt) && (lo in seen ==> lo !in spoilt && hi == seen[lo])
    ensures Covers(Noted(f, m, h, lo, hi), if lo in seen then seen else seen[lo := hi], spoilt)
  {
    hide Fresh;
  }

  /** A run in which no instruction is fetched again after a store to either of its halves, or with its
      upper half elsewhere, unless a FENCE.I lies between: invisible in every memory. */
  lemma EventsInvisible<D>(f: Fetcher<D>, m: Memory<D>, events: seq<Event<D>>)
    requires EventContract(map[], {}, events)
    ensures RunCached(f, EmptyCache(), m, events) == RunFresh(f, m, events)
  {
    hide Contract, RunCached, RunFresh, EventContract;
    EventsSuffice(f, m, map[], map[], {}, events);
    RunInvisible(f, m, events);
  }

  // ---- Outside the contract ---------------------------------------------------------------

  /** No devices; compressed encodings stand for themselves. */
  function PlainFetcher(): Fetcher<int> { Fetcher((d: int, pa: nat) => (None, d), (x: U16) => Some(x), pa => false) }

  /** An instruction across two pages: memory never changes, but the second page is mapped elsewhere
      for the second fetch, and a hit does not look. */
  lemma StraddleShows()
    ensures var m := Memory(map[4094 := 3, 8192 := 2, 12288 := 3], 0);
      var events := [Fetch(4094, UpperAt(8192)), Fetch(4094, UpperAt(12288))];
      RunCached(PlainFetcher(), EmptyCache(), m, events) != RunFresh(PlainFetcher(), m, events)
  {
    var f, m, c := PlainFetcher(), Memory(map[4094 := 3, 8192 := 2, 12288 := 3], 0), EmptyCache();
    var first, second := Fetch(4094, UpperAt(8192)), Fetch(4094, UpperAt(12288));
    var (r, m', c') := Cached(f, c, m, 4094, UpperAt(8192));
    assert r == Insn(3 + 0x2_0000, 4) && m' == m && Hit(c', 4094);
    assert Cached(f, c', m, 4094, UpperAt(12288)).0 == r;
    assert Fresh(f, m, 4094, UpperAt(12288)).0 == Insn(3 + 0x3_0000, 4);
    TwoFetches(f, c, m, first, second);
  }

  lemma TwoFetches<D>(f: Fetcher<D>, c: Cache, m: Memory<D>, first: Event<D>, second: Event<D>)
    requires first.Fetch? && second.Fetch? && Cached(f, c, m, first.lo, first.hi).1 == m && Fresh(f, m, first.lo, first.hi).1 == m
    requires Cached(f, Cached(f, c, m, first.lo, first.hi).2, m, second.lo, second.hi).0 != Fresh(f, m, second.lo, second.hi).0
    ensures RunCached(f, c, m, [first, second]) != RunFresh(f, m, [first, second])
  {
    hide Fresh, Cached;
    var events := [first, second];
    assert events[1..] == [second] && [second][1..] == [];
    var c' := Cached(f, c, m, first.lo, first.hi).2;
    var a, b := RunCached(f, c', m, [second]).0, RunFresh(f, m, [second]).0;
    assert a[0] != b[0];
    assert RunCached(f, c, m, events).0[1] == a[0] && RunFresh(f, m, events).0[1] == b[0];
  }

  // ---- The cache, updated in place --------------------------------------------------------

  class Decoder {
    var gen: nat
    const slots: array<Slot>

    ghost function State(): Cache
      requires slots.Length == Size
      reads this, slots
    {
      Cache(gen, slots[..])
    }

    /** dcache_new: the generation starts at one, so that zeroed slots are stale. */
    constructor ()
      ensures slots.Length == Size && fresh(slots) && Remembers(State(), map[])
    {
      gen := 1;
      slots := new Slot[Size](_ => Slot(0, 0, 0, 0));
    }

    /** The fetch part of cpu_step; within the contract it gives what memory holds. */
    method FetchInsn<D>(f: Fetcher<D>, m: Memory<D>, lo: nat, hi: Upper, ghost h: History) returns (r: Result, m': Memory<D>)
      requires slots.Length == Size
      modifies slots
      ensures (r, m', State()) == Cached(f, old(State()), m, lo, hi)
      ensures old(Remembers(State(), h)) && StillThere(f, m, h) && Refetch(h, lo, hi) ==>
        (r, m') == Fresh(f, m, lo, hi) && Remembers(State(), Noted(f, m, h, lo, hi)) && StillThere(f, m', Noted(f, m, h, lo, hi))
    {
      hide Fresh, Remembers, StillThere, Refetch, Noted;
      if Remembers(State(), h) && StillThere(f, m, h) && Refetch(h, lo, hi) {
        CachedStep(f, State(), m, h, lo, hi);
        FetchKeeps(f, m, h, lo, hi);
      }
      ghost var before := slots[..];
      var k := IndexOf(lo);
      var slot := slots[k];
      if slot.gen == gen && slot.pa == lo {
        return Insn(slot.inst, slot.ilen), m;
      }
      var (x, y) := Fresh(f, m, lo, hi);
      r, m' := x, y;
      if Cacheable(f, r, lo, hi) {
        slots[k] := Slot(gen, lo, r.inst, r.ilen);
        assert slots[..] == before[k := Slot(gen, lo, r.inst, r.ilen)];
      }
    }

    /** dcache_flush. */
    method FlushAll(ghost h: History)
      requires slots.Length == Size && Remembers(State(), h)
      modifies this`gen
      ensures State() == Flush(old(State())) && Remembers(State(), map[]) && forall lo :: !Hit(State(), lo)
    {
      FlushForgets(State(), h);
      forall lo: nat ensures !Hit(Flush(State()), lo) { FlushRetires(State(), lo); }
      gen := gen + 1;
    }
  }
}
