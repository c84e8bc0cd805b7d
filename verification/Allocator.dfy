// The debugging allocator as a state machine on values (trxlib.c:420-635, trxclient.c:60-141):
// what every allocation, release and configuration change does to the tracker's state.
module Allocator {
  import opened Words
  import opened Slots
  import opened Options
  import M = Masks
  import P = Placement
  import Arith
  import L = IntrusiveList

  type Addr = P.Addr

  const MAXTAGS := 255
  const MAGIC1: Word := 0x1bad_c0de  // header of an untracked block, and every trailer
  const MAGIC2: Word := 0xc0de_fee0  // header of a tracked block

  /** What a block's header, payload and trailer hold.  `tag`, `callers` and `freers` exist only in
      tracked blocks; `tpsize` is what malloc was asked for and is not stored. */
  datatype Block = Block(tpsize: nat, offset: nat, size: nat, magic: Word, trailer: Word, data: seq<Byte>,
                         tag: nat, callers: Trace, freers: seq<Word>)

  datatype Config = Config(tracking: bool, validate: bool, poison: bool, alloctag: nat)

  /** `mem` holds every header still in memory, live or freed, by payload address. */
  datatype State = State(cfg: Config, mem: map<Addr, Block>, lists: seq<seq<Addr>>, totals: seq<int>, curalloc: int)

  function Initial(cfg: Config): State {
    State(cfg, map[], seq(MAXTAGS, i => []), seq(MAXTAGS, i => 0), 0)
  }

  // ---------------------------------------------------------------- headers

  predicate IsLive(b: Block) {
    b.magic == MAGIC1 || b.magic == MAGIC2
  }

  predicate IsTracked(b: Block) {
    b.magic == MAGIC2
  }

  /** The header after `magic |= 1`; both magic numbers are even. */
  function Freed(magic: Word): Word
    requires magic == MAGIC1 || magic == MAGIC2
  {
    magic + 1
  }

  /** Raw bytes of a block: from the address malloc returned, `tpsize` of them. */
  predicate Apart(p: Addr, b: Block, q: Addr, c: Block) {
    p - b.offset + b.tpsize <= q - c.offset || q - c.offset + c.tpsize <= p - b.offset
  }

  ghost predicate BlockOk(p: Addr, b: Block) {
    && (IsLive(b) || b.magic == Freed(MAGIC1) || b.magic == Freed(MAGIC2))
    && b.offset < p && p - b.offset + b.tpsize <= WORD_MODULUS
    && |b.data| == b.size && b.size % P.MINALLOC == 0
    && (IsLive(b) ==> P.InsideBlock(p - b.offset, b.tpsize, p, b.size, IsTracked(b)))
    && (IsTracked(b) ==> b.tag < MAXTAGS)
  }

  // ---------------------------------------------------------------- sums over blocks

  ghost function SumOf(mem: map<Addr, Block>, ps: set<Addr>): int
    requires ps <= mem.Keys
  {
    if ps == {} then 0
    else
      var p :| p in ps;
      mem[p].size + SumOf(mem, ps - {p})
  }

  function Live(mem: map<Addr, Block>): set<Addr> {
    set p | p in mem && IsLive(mem[p])
  }

  function Tagged(mem: map<Addr, Block>, t: nat): set<Addr> {
    set p | p in mem && IsTracked(mem[p]) && mem[p].tag == t
  }

  lemma {:induction false} SumRemove(mem: map<Addr, Block>, ps: set<Addr>, p: Addr)
    requires ps <= mem.Keys && p in ps
    ensures SumOf(mem, ps) == mem[p].size + SumOf(mem, ps - {p})
    decreases ps
  {
    var q :| q in ps && SumOf(mem, ps) == mem[q].size + SumOf(mem, ps - {q});
    if q != p {
      SumRemove(mem, ps - {q}, p);
      SumRemove(mem, ps - {p}, q);
      assert ps - {q} - {p} == ps - {p} - {q};
    }
  }

  lemma {:induction false} SumFrame(mem: map<Addr, Block>, mem': map<Addr, Block>, ps: set<Addr>)
    requires ps <= mem.Keys && ps <= mem'.Keys
    requires forall p :: p in ps ==> mem[p].size == mem'[p].size
    ensures SumOf(mem, ps) == SumOf(mem', ps)
    decreases ps
  {
    if ps != {} {
      var p :| p in ps;
      SumRemove(mem, ps, p);
      SumRemove(mem', ps, p);
      SumFrame(mem, mem', ps - {p});
    }
  }

  // ---------------------------------------------------------------- the invariant

  ghost predicate ListsOk(s: State) {
    && |s.lists| == MAXTAGS
    && (forall t :: 0 <= t < MAXTAGS ==> L.NoDuplicates(s.lists[t]))
    && (forall t, p :: 0 <= t < MAXTAGS ==>
          (p in s.lists[t] <==> p in s.mem && IsTracked(s.mem[p]) && s.mem[p].tag == t))
  }

  ghost predicate SumsOk(s: State) {
    && |s.totals| == MAXTAGS
    && s.curalloc == SumOf(s.mem, Live(s.mem))
    && forall t :: 0 <= t < MAXTAGS ==> s.totals[t] == SumOf(s.mem, Tagged(s.mem, t))
  }

  /** Live blocks do not overlap, and no header in memory is inside a live block of another. */
  ghost predicate PairOk(p: Addr, b: Block, q: Addr, c: Block) {
    IsLive(c) ==> (IsLive(b) ==> Apart(p, b, q, c)) && HeaderClear(p, q - c.offset, c.tpsize)
  }

  ghost predicate BlocksOk(mem: map<Addr, Block>) {
    && (forall p :: p in mem ==> BlockOk(p, mem[p]))
    && (forall p, q :: p in mem && q in mem && p != q ==> PairOk(p, mem[p], q, mem[q]))
  }

  /** No payload has been overrun: every live block still has its trailer. */
  ghost predicate TrailersOk(mem: map<Addr, Block>) {
    forall p :: p in mem && IsLive(mem[p]) ==> mem[p].trailer == MAGIC1
  }

  /** In every reachable state: headers are intact, blocks do not overlap, `curalloc` is the sum of
      all live sizes, each tag's total is the sum over the live blocks recorded with it, and every
      live tracked block is exactly once on exactly the list of its tag. */
  ghost predicate Inv(s: State) {
    BlocksOk(s.mem) && ListsOk(s) && SumsOk(s) && s.cfg.alloctag < MAXTAGS
  }

  lemma InitialState(cfg: Config)
    requires cfg.alloctag < MAXTAGS
    ensures Inv(Initial(cfg)) && TrailersOk(Initial(cfg).mem)
  {
    var s := Initial(cfg);
    assert Live(s.mem) == {};
    forall t | 0 <= t < MAXTAGS
      ensures s.totals[t] == SumOf(s.mem, Tagged(s.mem, t))
    {
      assert Tagged(s.mem, t) == {};
    }
  }

  // ---------------------------------------------------------------- tp_alloc

  /** No byte of the header words below `p` lies in the block of `tpsize` bytes at `raw`. */
  predicate HeaderClear(p: Addr, raw: int, tpsize: nat) {
    p <= raw || raw + tpsize <= p - P.PLAIN_HEADER
  }

  /** A header of which malloc hands no byte out again keeps its contents. */
  function Surviving(mem: map<Addr, Block>, raw: Addr, tpsize: nat): map<Addr, Block> {
    map p | p in mem && (IsLive(mem[p]) || HeaderClear(p, raw, tpsize)) :: mem[p]
  }

  /** A request as tp_alloc sees it, with what the environment supplies: the real malloc's answer,
      the bytes it happens to hand out, and the backtrace. */
  datatype Request = Request(size: Word, zero: bool, alignment: Word, raw: Addr, junk: seq<Byte>, callers: Trace)

  function Zeros(n: nat): seq<Byte> {
    seq(n, i => 0)
  }

  function NewBlock(cfg: Config, r: Request): Block
    requires r.alignment > 0
  {
    var ptr := P.PayloadAt(r.raw, r.alignment, cfg.tracking);
    var size := P.TrxAlign(r.size);
    Block(P.TpSize(r.size, r.alignment, cfg.tracking), if ptr >= r.raw then ptr - r.raw else 0, size,
          if cfg.tracking then MAGIC2 else MAGIC1, MAGIC1,
          if r.zero then Zeros(size) else r.junk,
          if cfg.tracking then cfg.alloctag else 0, r.callers, [])
  }

  /** What tp_alloc's callers and the contract of the real malloc promise about a request: the
      alignment is a word or more (any number: see Placement.AlignedExactly), the size computation does
      not wrap, the raw block is fresh memory inside the address space, and calloc is only used while
      tracking. */
  ghost predicate RequestOk(s: State, r: Request) {
    && P.MINALLOC <= r.alignment
    && P.Fits(r.size, r.alignment, s.cfg.tracking)
    && |r.junk| == P.TrxAlign(r.size)
    && (r.zero ==> s.cfg.tracking)
    && var tpsize := P.TpSize(r.size, r.alignment, s.cfg.tracking);
       r.raw != 0 ==>
         && r.raw + tpsize <= WORD_MODULUS
         && forall p :: p in s.mem && IsLive(s.mem[p]) ==>
              r.raw + tpsize <= p - s.mem[p].offset || p - s.mem[p].offset + s.mem[p].tpsize <= r.raw
  }

  function AllocResult(s: State, r: Request): Addr
    requires r.alignment > 0
  {
    if r.raw == 0 then 0 else P.PayloadAt(r.raw, r.alignment, s.cfg.tracking)
  }

  function Alloc(s: State, r: Request): State
    requires r.alignment > 0 && |s.lists| == |s.totals| == MAXTAGS && s.cfg.alloctag < MAXTAGS
  {
    if r.raw == 0 then s
    else
      var ptr, b, t := AllocResult(s, r), NewBlock(s.cfg, r), s.cfg.alloctag;
      var s1 := s.(mem := Surviving(s.mem, r.raw, b.tpsize)[ptr := b], curalloc := s.curalloc + b.size);
      if s.cfg.tracking
      then s1.(lists := s.lists[t := [ptr] + s.lists[t]], totals := s.totals[t := s.totals[t] + b.size])
      else s1
  }

  // ---------------------------------------------------------------- verify and free

  /** `verify` returns instead of dumping core. */
  predicate Verifies(s: State, p: Addr)
    requires p in s.mem
  {
    IsLive(s.mem[p]) && (s.cfg.validate ==> s.mem[p].trailer == MAGIC1)
  }

  /** The element after `p` on its list, or 0. */
  function ListNext(l: seq<Addr>, p: Addr): Addr {
    if |l| < 2 then 0 else if l[0] == p then l[1] else ListNext(l[1..], p)
  }

  function TraceBytes(ws: seq<Word>): (r: seq<Byte>)
    ensures |r| == 4 * |ws|
  {
    if ws == [] then [] else WordBytes(ws[0]) + TraceBytes(ws[1..])
  }

  /** What the poison loop repeats: the freers of a tracked block, all ones otherwise. */
  function PoisonPattern(b: Block, trace: seq<Word>): (r: seq<Byte>)
    ensures r != []
  {
    if IsTracked(b) && trace != [] then TraceBytes(trace) else WordBytes(0xffff_ffff)
  }

  function Poisoned(n: nat, pattern: seq<Byte>): (r: seq<Byte>)
    requires pattern != []
    ensures |r| == n && forall i :: 0 <= i < n ==> r[i] == pattern[i % |pattern|]
  {
    seq(n, i => pattern[i % |pattern|])
  }

  function FreedBlock(cfg: Config, b: Block, trace: seq<Word>): Block
    requires IsLive(b)
  {
    b.(magic := Freed(b.magic),
       freers := if IsTracked(b) then trace else b.freers,
       data := if cfg.poison then Poisoned(|b.data|, PoisonPattern(b, trace)) else b.data)
  }

  /** The list neighbours that free verifies: the next element, and what LIST_PREV yields, which is
      the element itself (IntrusiveList.PrevPointsBack). */
  predicate NeighboursVerify(s: State, p: Addr)
    requires p in s.mem && s.mem[p].tag < |s.lists|
  {
    var n := ListNext(s.lists[s.mem[p].tag], p);
    (n != 0 ==> n in s.mem && Verifies(s, n)) && Verifies(s, p)
  }

  /** None when the call dumps core. */
  function Free(s: State, p: Addr, trace: seq<Word>): Option<State>
    requires p == 0 || p in s.mem
    requires |s.lists| == |s.totals| == MAXTAGS
    requires p in s.mem && IsTracked(s.mem[p]) ==> s.mem[p].tag < MAXTAGS
  {
    if p == 0 then Some(s)
    else if !Verifies(s, p) then None
    else
      var b := s.mem[p];
      var s1 := s.(mem := s.mem[p := FreedBlock(s.cfg, b, trace)], curalloc := s.curalloc - b.size);
      if !IsTracked(b) then Some(s1)
      else if s.cfg.validate && !NeighboursVerify(s, p) then None
      else Some(s1.(lists := L.DeleteFromAll(s.lists, p), totals := s.totals[b.tag := s.totals[b.tag] - b.size]))
  }

  // ---------------------------------------------------------------- realloc

  function Min(a: int, b: int): int {
    if a < b then a else b
  }

  /** The bytes of `to` with the first `n` replaced by those of `from`. */
  function Copied(from: seq<Byte>, to: seq<Byte>, n: nat): (r: seq<Byte>)
    requires n <= |from| && n <= |to|
    ensures |r| == |to|
  {
    from[..n] + to[n..]
  }

  /** realloc of a live block to a non-zero size, once the new block `q` has been allocated in `s`. */
  function MoveData(s: State, p: Addr, q: Addr, size: nat): State
    requires p in s.mem && q in s.mem && p != q
    requires |s.mem[p].data| == s.mem[p].size && size <= |s.mem[q].data|
  {
    var n := Min(s.mem[p].size, size);
    WithData(s, q, Copied(s.mem[p].data, s.mem[q].data, n))
  }

  /** None when the call dumps core.  `r` describes the allocation, `trace` the freers. */
  function Realloc(s: State, p: Addr, r: Request, trace: seq<Word>): Option<(State, Addr)>
    requires Inv(s) && RequestOk(s, r) && (p == 0 || p in s.mem)
  {
    if p == 0 then Some((Alloc(s, r), AllocResult(s, r)))
    else if r.size == 0 then
      match Free(s, p, trace)
      case None => None
      case Some(s1) => Some((s1, 0))
    else if !Verifies(s, p) then None
    else if r.raw == 0 then Some((s, 0))
    else
      AllocPreserves(s, r);
      var q := AllocResult(s, r);
      match Free(MoveData(Alloc(s, r), p, q, r.size), p, trace)
      case None => None
      case Some(s1) => Some((s1, q))
  }

  // ---------------------------------------------------------------- every operation keeps the invariant

  lemma NewBlockOk(s: State, r: Request)
    requires Inv(s) && RequestOk(s, r) && r.raw != 0
    ensures var b, ptr := NewBlock(s.cfg, r), AllocResult(s, r);
            && BlockOk(ptr, b) && IsLive(b) && ptr - b.offset == r.raw && b.trailer == MAGIC1
            && (IsTracked(b) <==> s.cfg.tracking) && b.tag == (if s.cfg.tracking then s.cfg.alloctag else 0)
            && (forall p :: p in s.mem && IsLive(s.mem[p]) ==> p != ptr && Apart(p, s.mem[p], ptr, b))
            && ptr !in Surviving(s.mem, r.raw, b.tpsize)
            && (M.PowerOfTwo(r.alignment) ==> ptr % r.alignment == 0) && r.size <= b.size
  {
    P.PlacementIsSound(r.raw, r.size, r.alignment, s.cfg.tracking);
    P.NoWrap(r.size, r.alignment, s.cfg.tracking);
  }

  /** malloc, calloc, memalign and valloc. */
  lemma AllocPreserves(s: State, r: Request)
    requires Inv(s) && RequestOk(s, r)
    ensures Inv(Alloc(s, r)) && (TrailersOk(s.mem) ==> TrailersOk(Alloc(s, r).mem))
    ensures r.raw == 0 ==> Alloc(s, r) == s
    ensures r.raw != 0 ==>
              var ptr, s' := AllocResult(s, r), Alloc(s, r);
              && ptr in s'.mem && s'.mem[ptr] == NewBlock(s.cfg, r) && ptr - s'.mem[ptr].offset == r.raw
              && (forall p :: p in s.mem && IsLive(s.mem[p]) ==> p != ptr && p in s'.mem && s'.mem[p] == s.mem[p])
              && (M.PowerOfTwo(r.alignment) ==> ptr % r.alignment == 0) && r.size <= |s'.mem[ptr].data|
  {
    if r.raw != 0 {
      NewBlockOk(s, r);
      AllocBlocks(s, r);
      AllocLists(s, r);
      AllocSums(s, r);
    }
  }

  lemma AllocBlocks(s: State, r: Request)
    requires Inv(s) && RequestOk(s, r) && r.raw != 0
    ensures BlocksOk(Alloc(s, r).mem)
  {
    NewBlockOk(s, r);
    var mem', ptr, b := Alloc(s, r).mem, AllocResult(s, r), NewBlock(s.cfg, r);
    forall p, q | p in mem' && q in mem' && p != q
      ensures PairOk(p, mem'[p], q, mem'[q])
    {
      if p == ptr {
        NewBlockApart(s, r, q);
      } else if q == ptr {
        if IsLive(s.mem[p]) { NewBlockApart(s, r, p); }
      } else {
        assert PairOk(p, s.mem[p], q, s.mem[q]);
      }
    }
  }

  lemma NewBlockApart(s: State, r: Request, q: Addr)
    requires Inv(s) && RequestOk(s, r) && r.raw != 0 && q in s.mem
    ensures var b, ptr := NewBlock(s.cfg, r), AllocResult(s, r);
            PairOk(ptr, b, q, s.mem[q]) && (IsLive(s.mem[q]) ==> PairOk(q, s.mem[q], ptr, b))
  {
    NewBlockOk(s, r);
    assert BlockOk(q, s.mem[q]);
  }

  /** The block at `ptr` as an allocation leaves it: the header's fields, zeros for calloc and what malloc
      handed out otherwise. */
  ghost predicate NewContents(b: Block, cfg: Config, ptr: Addr, size: nat, zero: bool, raw: Addr, junk: seq<Byte>, callers: Trace) {
    && b.size == |b.data| && size <= b.size < size + P.MINALLOC && b.size % P.MINALLOC == 0
    && b.magic == (if cfg.tracking then MAGIC2 else MAGIC1) && b.trailer == MAGIC1
    && b.offset == ptr - raw && (cfg.tracking ==> b.tag == cfg.alloctag) && b.callers == callers
    && (zero ==> forall i :: 0 <= i < |b.data| ==> b.data[i] == 0)
    && (!zero ==> b.data == junk)
  }

  /** Everything an allocation changes. */
  lemma AllocContents(s: State, r: Request)
    requires Inv(s) && RequestOk(s, r) && r.raw != 0
    ensures AllocEffect(s, r, AllocResult(s, r), Alloc(s, r))
  {
    NewBlockOk(s, r);
    NewBlockIs(s, r);
  }

  ghost predicate AllocEffect(s: State, r: Request, ptr: Addr, s': State)
    requires |s.lists| == |s.totals| == MAXTAGS && s.cfg.alloctag < MAXTAGS
  {
    var t := s.cfg.alloctag;
    && ptr != 0 && ptr in s'.mem
    && NewContents(s'.mem[ptr], s.cfg, ptr, r.size, r.zero, r.raw, r.junk, r.callers)
    && s'.cfg == s.cfg && s'.curalloc == s.curalloc + s'.mem[ptr].size
    && s'.lists == (if s.cfg.tracking then s.lists[t := [ptr] + s.lists[t]] else s.lists)
    && s'.totals == (if s.cfg.tracking then s.totals[t := s.totals[t] + s'.mem[ptr].size] else s.totals)
  }

  lemma NewBlockIs(s: State, r: Request)
    requires Inv(s) && RequestOk(s, r) && r.raw != 0
    ensures NewContents(NewBlock(s.cfg, r), s.cfg, AllocResult(s, r), r.size, r.zero, r.raw, r.junk, r.callers)
  {
    NewBlockOk(s, r);
    P.NoWrap(r.size, r.alignment, s.cfg.tracking);
  }

  /** What tp_alloc does to memory: one new live block, every live block kept, nothing else added. */
  ghost predicate Added(mem: map<Addr, Block>, mem': map<Addr, Block>, ptr: Addr) {
    && ptr in mem' && IsLive(mem'[ptr]) && (ptr in mem ==> !IsLive(mem[ptr]))
    && (forall p :: p in mem && IsLive(mem[p]) ==> p in mem' && mem'[p] == mem[p])
    && (forall p :: p in mem' && p != ptr ==> p in mem && mem'[p] == mem[p])
  }

  lemma AllocAdds(s: State, r: Request)
    requires Inv(s) && RequestOk(s, r) && r.raw != 0
    ensures Added(s.mem, Alloc(s, r).mem, AllocResult(s, r))
    ensures Alloc(s, r).mem[AllocResult(s, r)] == NewBlock(s.cfg, r)
  {
    NewBlockOk(s, r);
  }

  lemma AllocLists(s: State, r: Request)
    requires Inv(s) && RequestOk(s, r) && r.raw != 0
    ensures ListsOk(Alloc(s, r))
  {
    NewBlockOk(s, r);
    AllocAdds(s, r);
    var s', ptr := Alloc(s, r), AllocResult(s, r);
    forall t | 0 <= t < MAXTAGS
      ensures L.NoDuplicates(s'.lists[t])
      ensures forall p :: p in s'.lists[t] <==> p in s'.mem && IsTracked(s'.mem[p]) && s'.mem[p].tag == t
    {
      assert ptr !in s.lists[t];
    }
  }

  lemma AllocSums(s: State, r: Request)
    requires Inv(s) && RequestOk(s, r) && r.raw != 0
    ensures SumsOk(Alloc(s, r))
  {
    NewBlockOk(s, r);
    AllocAdds(s, r);
    var s', ptr := Alloc(s, r), AllocResult(s, r);
    AddedLive(s.mem, s'.mem, ptr);
    forall t | 0 <= t < MAXTAGS
      ensures s'.totals[t] == SumOf(s'.mem, Tagged(s'.mem, t))
    {
      AddedTotal(s.mem, s'.mem, ptr, t);
    }
  }

  lemma {:induction false} AddedLive(mem: map<Addr, Block>, mem': map<Addr, Block>, ptr: Addr)
    requires Added(mem, mem', ptr)
    ensures SumOf(mem', Live(mem')) == SumOf(mem, Live(mem)) + mem'[ptr].size
  {
    assert Live(mem') == Live(mem) + {ptr};
    SumInsert(mem, mem', Live(mem), ptr);
  }

  lemma {:induction false} AddedTotal(mem: map<Addr, Block>, mem': map<Addr, Block>, ptr: Addr, t: nat)
    requires Added(mem, mem', ptr)
    ensures SumOf(mem', Tagged(mem', t))
            == SumOf(mem, Tagged(mem, t)) + if IsTracked(mem'[ptr]) && mem'[ptr].tag == t then mem'[ptr].size else 0
  {
    if IsTracked(mem'[ptr]) && mem'[ptr].tag == t {
      assert Tagged(mem', t) == Tagged(mem, t) + {ptr};
      SumInsert(mem, mem', Tagged(mem, t), ptr);
    } else {
      assert Tagged(mem', t) == Tagged(mem, t);
      SumFrame(mem, mem', Tagged(mem, t));
    }
  }

  lemma {:induction false} SumInsert(mem: map<Addr, Block>, mem': map<Addr, Block>, ps: set<Addr>, p: Addr)
    requires ps <= mem.Keys && ps <= mem'.Keys && p !in ps && p in mem'
    requires forall q :: q in ps ==> mem[q].size == mem'[q].size
    ensures SumOf(mem', ps + {p}) == SumOf(mem, ps) + mem'[p].size
  {
    SumRemove(mem', ps + {p}, p);
    assert ps + {p} - {p} == ps;
    SumFrame(mem, mem', ps);
  }

  lemma {:induction false} ListNextMember(l: seq<Addr>, p: Addr)
    ensures ListNext(l, p) == 0 || ListNext(l, p) in l
  {
    if |l| >= 2 && l[0] != p { ListNextMember(l[1..], p); }
  }

  /** `n` comes right after `p` on the list. */
  ghost predicate Follows(l: seq<Addr>, p: Addr, n: Addr) {
    exists k :: 0 <= k && k + 1 < |l| && l[k] == p && l[k + 1] == n
  }

  lemma {:induction false} ListNextFollows(l: seq<Addr>, p: Addr)
    requires L.NoDuplicates(l) && 0 !in l
    ensures ListNext(l, p) != 0 ==> Follows(l, p, ListNext(l, p))
    ensures forall n :: Follows(l, p, n) ==> ListNext(l, p) == n
  {
    if |l| >= 2 && l[0] != p {
      ListNextFollows(l[1..], p);
      var n := ListNext(l[1..], p);
      if n != 0 {
        var k :| 0 <= k && k + 1 < |l[1..]| && l[1..][k] == p && l[1..][k + 1] == n;
        assert l[k + 1] == p && l[k + 2] == n;
      }
      forall n | Follows(l, p, n)
        ensures ListNext(l, p) == n
      {
        var k :| 0 <= k && k + 1 < |l| && l[k] == p && l[k + 1] == n;
        assert l[1..][k - 1] == p && l[1..][k] == n;
        assert Follows(l[1..], p, n);
      }
    } else if |l| >= 2 {
      assert l[0] == p && l[1] == ListNext(l, p);
    }
  }

  /** What makes free go through: a live header, and while validating the trailers of the block and, if
      it is on a list, of the block after it. */
  ghost predicate Checks(s: State, p: Addr)
    requires p in s.mem && |s.lists| == MAXTAGS
  {
    var b := s.mem[p];
    && (b.magic == MAGIC1 || b.magic == MAGIC2)
    && (s.cfg.validate ==> b.trailer == MAGIC1)
    && (s.cfg.validate && b.magic == MAGIC2 && b.tag < MAXTAGS ==>
          forall n :: n in s.mem && Follows(s.lists[b.tag], p, n) ==> s.mem[n].trailer == MAGIC1)
  }

  /** free dumps core exactly when a check fails. */
  lemma FreeExactly(s: State, p: Addr, trace: seq<Word>)
    requires Inv(s) && p in s.mem && p != 0
    ensures IsTracked(s.mem[p]) ==> s.mem[p].tag < MAXTAGS
    ensures Free(s, p, trace).Some? <==> Checks(s, p)
  {
    assert BlockOk(p, s.mem[p]);
    if IsTracked(s.mem[p]) {
      var l := s.lists[s.mem[p].tag];
      assert forall a :: a in l ==> BlockOk(a, s.mem[a]);
      ListNextFollows(l, p);
      ListNextMember(l, p);
      assert forall n :: Follows(l, p, n) ==> n in l;
    }
  }

  /** As long as no payload has been overrun, releasing a live block never dumps core. */
  lemma FreeSucceeds(s: State, p: Addr, trace: seq<Word>)
    requires Inv(s) && p in s.mem && IsLive(s.mem[p]) && TrailersOk(s.mem)
    ensures Checks(s, p) && Free(s, p, trace).Some?
  {
    assert BlockOk(p, s.mem[p]);
    if IsTracked(s.mem[p]) {
      assert forall n :: Follows(s.lists[s.mem[p].tag], p, n) ==> n in s.lists[s.mem[p].tag];
    }
    FreeExactly(s, p, trace);
  }

  /** Releasing a block keeps the invariant, and makes exactly that block dead. */
  lemma FreePreserves(s: State, p: Addr, trace: seq<Word>)
    requires Inv(s) && p in s.mem && Checks(s, p)
    ensures Free(s, p, trace).Some?
    ensures var s' := Free(s, p, trace).value;
            && Inv(s') && s'.mem == s.mem[p := FreedBlock(s.cfg, s.mem[p], trace)] && s'.cfg == s.cfg
            && Live(s'.mem) == Live(s.mem) - {p} && (TrailersOk(s.mem) ==> TrailersOk(s'.mem))
  {
    assert BlockOk(p, s.mem[p]);
    FreeExactly(s, p, trace);
    FreeBlocks(s, p, trace);
    FreeLists(s, p, trace);
    FreeLive(s, p, trace);
    FreeSums(s, p, trace);
  }

  lemma {:induction false} TraceByteAt(ws: seq<Word>, i: nat)
    requires i < 4 * |ws|
    ensures TraceBytes(ws)[i] == WordBytes(ws[i / 4])[i % 4]
  {
    if i >= 4 {
      TraceByteAt(ws[1..], i - 4);
      assert (i - 4) / 4 == i / 4 - 1 && (i - 4) % 4 == i % 4;
    }
  }

  lemma RemainderInWords(i: nat, n: nat)
    requires n > 0
    ensures i % (4 * n) / 4 == i / 4 % n && i % (4 * n) % 4 == i % 4
  {
    var q, w := i / 4 / n, i / 4 % n;
    assert i == 4 * (i / 4) + i % 4 && i / 4 == q * n + w;
    assert 4 * (q * n) == q * (4 * n);
    Arith.DivModUnique(i, 4 * n, q, 4 * w + i % 4);
  }

  /** The payload of a freed block: untouched, or while poisoning the freers over and over in a tracked
      block that has any, and all ones in every other. */
  ghost predicate Scrubbed(b: Block, cfg: Config, trace: seq<Word>, data: seq<Byte>) {
    && (!cfg.poison ==> data == b.data)
    && (cfg.poison ==>
          && |data| == |b.data|
          && forall i :: 0 <= i < |data| ==>
               data[i] == if b.magic == MAGIC2 && trace != [] then WordBytes(trace[i / 4 % |trace|])[i % 4] else 255)
  }

  lemma PoisonedBytes(b: Block, cfg: Config, trace: seq<Word>)
    requires IsLive(b)
    ensures Scrubbed(b, cfg, trace, FreedBlock(cfg, b, trace).data)
  {
    if cfg.poison {
      var data, pattern := FreedBlock(cfg, b, trace).data, PoisonPattern(b, trace);
      forall i | 0 <= i < |data|
        ensures data[i] == if b.magic == MAGIC2 && trace != [] then WordBytes(trace[i / 4 % |trace|])[i % 4] else 255
      {
        if b.magic == MAGIC2 && trace != [] {
          TraceByteAt(trace, i % |pattern|);
          RemainderInWords(i, |trace|);
        } else {
          assert WordBytes(0xffff_ffff) == [255, 255, 255, 255];
        }
      }
    }
  }

  /** The header that free leaves behind: the magic marked, the freers of a tracked block recorded, the
      payload scrubbed, and nothing else touched. */
  ghost predicate FreedContents(b: Block, b': Block, cfg: Config, trace: seq<Word>) {
    && b'.magic == b.magic + 1 && Scrubbed(b, cfg, trace, b'.data)
    && (b.magic == MAGIC2 ==> b'.freers == trace)
    && b'.size == b.size && b'.offset == b.offset && b'.tpsize == b.tpsize && b'.trailer == b.trailer
    && b'.tag == b.tag && b'.callers == b.callers
  }

  /** Everything a release changes. */
  lemma {:induction false} FreeContents(s: State, p: Addr, trace: seq<Word>)
    requires Inv(s) && p in s.mem && Checks(s, p)
    ensures Free(s, p, trace).Some? && FreeEffect(s, p, trace, Free(s, p, trace).value)
  {
    assert BlockOk(p, s.mem[p]);
    FreeExactly(s, p, trace);
    FreedIs(s.cfg, s.mem[p], trace);
    if IsTracked(s.mem[p]) { DeletedIsTakenOff(s, p); }
  }

  ghost predicate FreeEffect(s: State, p: Addr, trace: seq<Word>, s': State)
    requires p in s.mem && |s.totals| == MAXTAGS
  {
    var b := s.mem[p];
    && s'.mem.Keys == s.mem.Keys && FreedContents(b, s'.mem[p], s.cfg, trace)
    && (forall q :: q in s.mem && q != p ==> s'.mem[q] == s.mem[q])
    && s'.cfg == s.cfg && s'.curalloc == s.curalloc - b.size
    && (b.magic == MAGIC1 ==> s'.lists == s.lists && s'.totals == s.totals)
    && (b.magic == MAGIC2 ==>
          && b.tag < MAXTAGS && s'.totals == s.totals[b.tag := s.totals[b.tag] - b.size]
          && TakenOff(s.lists, s'.lists, b.tag, p))
  }

  lemma FreedIs(cfg: Config, b: Block, trace: seq<Word>)
    requires IsLive(b)
    ensures FreedContents(b, FreedBlock(cfg, b, trace), cfg, trace)
  {
    PoisonedBytes(b, cfg, trace);
  }

  /** `p` leaves the list of `tag`, which keeps its order, and no other list changes. */
  ghost predicate TakenOff(lists: seq<seq<Addr>>, lists': seq<seq<Addr>>, tag: nat, p: Addr) {
    && |lists'| == |lists| && tag < |lists|
    && (forall t :: 0 <= t < |lists| && t != tag ==> lists'[t] == lists[t])
    && exists k :: 0 <= k < |lists[tag]| && lists[tag][k] == p && lists'[tag] == lists[tag][..k] + lists[tag][k + 1..]
  }

  lemma {:induction false} DeletedIsTakenOff(s: State, p: Addr)
    requires ListsOk(s) && p in s.mem && IsTracked(s.mem[p]) && s.mem[p].tag < MAXTAGS
    ensures TakenOff(s.lists, L.DeleteFromAll(s.lists, p), s.mem[p].tag, p)
  {
    var tag := s.mem[p].tag;
    var k :| 0 <= k < |s.lists[tag]| && s.lists[tag][k] == p;
    L.DeleteAt(s.lists[tag], p, k);
    forall t | 0 <= t < MAXTAGS && t != tag
      ensures L.Delete(s.lists[t], p) == s.lists[t]
    {
      L.DeleteAbsent(s.lists[t], p);
    }
  }

  lemma FreeBlocks(s: State, p: Addr, trace: seq<Word>)
    requires Inv(s) && p in s.mem && IsLive(s.mem[p])
    ensures BlocksOk(s.mem[p := FreedBlock(s.cfg, s.mem[p], trace)])
  {
    var mem' := s.mem[p := FreedBlock(s.cfg, s.mem[p], trace)];
    assert BlockOk(p, s.mem[p]) && BlockOk(p, mem'[p]);
    forall q, u | q in mem' && u in mem' && q != u
      ensures PairOk(q, mem'[q], u, mem'[u])
    {
      assert PairOk(q, s.mem[q], u, s.mem[u]);
    }
  }

  lemma FreeLists(s: State, p: Addr, trace: seq<Word>)
    requires Inv(s) && p in s.mem && IsLive(s.mem[p]) && Free(s, p, trace).Some?
    ensures ListsOk(Free(s, p, trace).value)
  {
    var s' := Free(s, p, trace).value;
    forall t | 0 <= t < MAXTAGS
      ensures L.NoDuplicates(s'.lists[t])
      ensures forall q :: q in s'.lists[t] <==> q in s.lists[t] && q != p
    {
      if IsTracked(s.mem[p]) { L.DeleteKeeps(s.lists[t], p); }
    }
  }

  lemma FreeLive(s: State, p: Addr, trace: seq<Word>)
    requires Inv(s) && p in s.mem && IsLive(s.mem[p]) && Free(s, p, trace).Some?
    ensures var s' := Free(s, p, trace).value;
            Live(s'.mem) == Live(s.mem) - {p} && s'.curalloc == SumOf(s'.mem, Live(s'.mem))
  {
    var mem' := s.mem[p := FreedBlock(s.cfg, s.mem[p], trace)];
    assert BlockOk(p, s.mem[p]);
    OneLess(s.mem, mem', p);
    SumTakeOut(s.mem, mem', Live(s.mem), p);
  }

  lemma OneLess(mem: map<Addr, Block>, mem': map<Addr, Block>, p: Addr)
    requires p in mem && p in mem' && mem' == mem[p := mem'[p]] && !IsLive(mem'[p])
    ensures Live(mem') == Live(mem) - {p}
  {
  }

  lemma FreeSums(s: State, p: Addr, trace: seq<Word>)
    requires Inv(s) && p in s.mem && IsLive(s.mem[p]) && Free(s, p, trace).Some?
    ensures SumsOk(Free(s, p, trace).value)
  {
    var s', b := Free(s, p, trace).value, s.mem[p];
    FreeLive(s, p, trace);
    forall t | 0 <= t < MAXTAGS
      ensures s'.totals[t] == SumOf(s'.mem, Tagged(s'.mem, t))
    {
      FreeTotal(s, s'.mem, p, t);
      assert s'.totals[t] == s.totals[t] - if IsTracked(b) && b.tag == t then b.size else 0;
    }
  }

  lemma {:induction false} FreeTotal(s: State, mem': map<Addr, Block>, p: Addr, t: nat)
    requires p in s.mem && p in mem' && !IsLive(mem'[p]) && mem'[p].size == s.mem[p].size
    requires mem' == s.mem[p := mem'[p]]
    ensures SumOf(mem', Tagged(mem', t))
            == SumOf(s.mem, Tagged(s.mem, t)) - if IsTracked(s.mem[p]) && s.mem[p].tag == t then s.mem[p].size else 0
  {
    var ps, ps' := Tagged(s.mem, t), Tagged(mem', t);
    assert ps' == ps - {p};
    if p in ps {
      SumTakeOut(s.mem, mem', ps, p);
    } else {
      assert ps' == ps;
      SumFrame(s.mem, mem', ps);
    }
  }

  lemma {:induction false} SumTakeOut(mem: map<Addr, Block>, mem': map<Addr, Block>, ps: set<Addr>, p: Addr)
    requires ps <= mem.Keys && ps <= mem'.Keys && p in ps
    requires forall q :: q in ps ==> mem[q].size == mem'[q].size
    ensures SumOf(mem', ps - {p}) == SumOf(mem, ps) - mem[p].size
  {
    SumRemove(mem, ps, p);
    SumFrame(mem, mem', ps - {p});
  }

  function WithData(s: State, p: Addr, data: seq<Byte>): State
    requires p in s.mem
  {
    s.(mem := s.mem[p := s.mem[p].(data := data)])
  }

  /** Replacing payload bytes, by the program or by realloc, keeps the invariant. */
  lemma DataPreserves(s: State, p: Addr, data: seq<Byte>)
    requires Inv(s) && p in s.mem && |data| == |s.mem[p].data|
    ensures Inv(WithData(s, p, data)) && (TrailersOk(s.mem) ==> TrailersOk(WithData(s, p, data).mem))
  {
    DataBlocks(s, p, data);
    DataSums(s, p, data);
  }

  lemma DataSums(s: State, p: Addr, data: seq<Byte>)
    requires SumsOk(s) && p in s.mem
    ensures SumsOk(WithData(s, p, data))
  {
    var mem' := WithData(s, p, data).mem;
    assert Live(mem') == Live(s.mem);
    SumFrame(s.mem, mem', Live(s.mem));
    forall t | 0 <= t < MAXTAGS
      ensures s.totals[t] == SumOf(mem', Tagged(mem', t))
    {
      assert Tagged(mem', t) == Tagged(s.mem, t);
      SumFrame(s.mem, mem', Tagged(s.mem, t));
    }
  }

  lemma DataBlocks(s: State, p: Addr, data: seq<Byte>)
    requires Inv(s) && p in s.mem && |data| == |s.mem[p].data|
    ensures BlocksOk(WithData(s, p, data).mem)
  {
    var mem' := WithData(s, p, data).mem;
    assert BlockOk(p, s.mem[p]) && BlockOk(p, mem'[p]);
    forall q, u | q in mem' && u in mem' && q != u
      ensures PairOk(q, mem'[q], u, mem'[u])
    {
      assert PairOk(q, s.mem[q], u, s.mem[u]);
    }
  }
}
