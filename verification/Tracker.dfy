// The allocator itself (trxlib.c): the globals of the tracked process and the overloaded calls,
// each proved against its function in module Allocator.
module Tracker {
  import opened Words
  import opened Slots
  import opened Options
  import opened Allocator
  import Arith
  import P = Placement
  import L = IntrusiveList
  import Runs = AllocatorRuns

  /** The forward link of a listed element is the element after it on its list. */
  lemma {:induction false} NextIsListNext(h: L.ListHeap, t: nat, p: Addr)
    requires h.Valid() && t < |h.lists| && p in h.lists[t]
    ensures p in h.next && h.next[p] == ListNext(h.lists[t], p)
  {
    assert L.Threaded(h.heads, h.next, h.prev, t, h.lists[t]);
    var k :| 0 <= k < |h.lists[t]| && h.lists[t][k] == p;
    assert L.Linked(h.next, h.prev, t, h.lists[t], k);
    ListNextAt(h.lists[t], p, k);
  }

  lemma {:induction false} ListNextAt(l: seq<Addr>, p: Addr, k: nat)
    requires L.NoDuplicates(l) && k < |l| && l[k] == p
    ensures ListNext(l, p) == if k + 1 < |l| then l[k + 1] else 0
  {
    if k > 0 { ListNextAt(l[1..], p, k - 1); }
  }

  /** The poison loop: copy the pattern over the payload, truncating the last copy at its end. */
  method PoisonFill(payload: seq<Byte>, pattern: seq<Byte>) returns (data: seq<Byte>)
    requires pattern != []
    ensures data == Poisoned(|payload|, pattern)
  {
    data := payload;
    var pp, n := 0, |pattern|;
    ghost var copies := 0;
    while pp < |data|
      invariant pp <= |data| == |payload|
      invariant pp < |data| ==> n == |pattern| && pp == copies * |pattern|
      invariant forall i :: 0 <= i < pp ==> data[i] == pattern[i % |pattern|]
    {
      if |data| - pp < n { n := |data| - pp; }
      ghost var before := data;
      data := data[..pp] + pattern[..n] + data[pp + n..];
      OneCopy(before, data, pattern, copies, pp, n);
      pp := pp + n;
      copies := copies + 1;
    }
  }

  /** The bytes of one more copy of the pattern are where the period puts them. */
  lemma OneCopy(before: seq<Byte>, data: seq<Byte>, pattern: seq<Byte>, copies: nat, pp: nat, n: nat)
    requires pattern != [] && pp == copies * |pattern| && n <= |pattern| && pp + n <= |before|
    requires data == before[..pp] + pattern[..n] + before[pp + n..]
    requires forall i :: 0 <= i < pp ==> before[i] == pattern[i % |pattern|]
    ensures forall i :: 0 <= i < pp + n ==> data[i] == pattern[i % |pattern|]
  {
    forall i | 0 <= i < pp + n
      ensures data[i] == pattern[i % |pattern|]
    {
      if i < pp {
        assert data[i] == before[i];
      } else {
        assert data[i] == pattern[i - pp];
        Arith.DivModUnique(i, |pattern|, copies, i - pp);
      }
    }
  }

  lemma NewBlockUnlisted(s: State, r: Request)
    requires Inv(s) && RequestOk(s, r) && r.raw != 0
    ensures AllocResult(s, r) != 0 && !L.Listed(s.lists, AllocResult(s, r))
  {
    NewBlockOk(s, r);
  }

  /** The variables the manager can set; ENABLE, which bypasses the library, is not modelled. */
  datatype Variable = POISON | VALIDATE | TRACK | TAG | OTHER

  function AsInt(b: bool): int {
    if b then 1 else 0
  }

  /** Setting a variable, as a step of a run. */
  function SetEvent(cfg: Config, v: Variable, value: nat): Runs.Event
    requires v != OTHER
  {
    match v
    case POISON => Runs.SetFlags(cfg.tracking, cfg.validate, value != 0)
    case VALIDATE => Runs.SetFlags(cfg.tracking, value != 0, cfg.poison)
    case TRACK => Runs.SetFlags(value != 0, cfg.validate, cfg.poison)
    case TAG => Runs.SetTag(value)
  }

  /** The globals of the library. */
  class Tracker {
    var tracking: bool
    var validate: bool
    var poison: bool
    var alloctag: nat
    var mem: map<Addr, Block>
    var totals: seq<int>
    var curalloc: int
    const links: L.ListHeap

    ghost function St(): State
      reads this, links
    {
      State(Config(tracking, validate, poison, alloctag), mem, links.lists, totals, curalloc)
    }

    ghost predicate Valid()
      reads this, links
    {
      links.Valid() && Inv(St())
    }

    constructor ()
      ensures Valid() && St() == Initial(Config(false, false, false, 0)) && fresh(links)
    {
      tracking, validate, poison, alloctag := false, false, false, 0;
      mem, totals, curalloc := map[], seq(MAXTAGS, i => 0), 0;
      links := new L.ListHeap(MAXTAGS);
      new;
      InitialState(Config(false, false, false, 0));
    }

    /** clientSet: the old value is returned, and nothing else changes.  The tag is not checked: the
        state stays valid exactly when the new one has a list. */
    method ClientSet(v: Variable, value: nat) returns (ret: int)
      requires Valid()
      modifies this
      ensures links.Valid()
      ensures v == POISON ==> ret == AsInt(old(poison)) && St() == old(St()).(cfg := old(St()).cfg.(poison := value != 0))
      ensures v == VALIDATE ==> ret == AsInt(old(validate)) && St() == old(St()).(cfg := old(St()).cfg.(validate := value != 0))
      ensures v == TRACK ==> ret == AsInt(old(tracking)) && St() == old(St()).(cfg := old(St()).cfg.(tracking := value != 0))
      ensures Valid() <==> (v == TAG ==> value < MAXTAGS)
      ensures v == OTHER ==> ret == -1 && St() == old(St())
      ensures v == TAG ==> ret == old(alloctag) && St() == old(St()).(cfg := old(St()).cfg.(alloctag := value))
      ensures v != OTHER && Valid() ==>
                && Runs.Proper(old(St()), SetEvent(old(St()).cfg, v, value))
                && Runs.Step(old(St()), SetEvent(old(St()).cfg, v, value)) == Some(St())
    {
      ret := -1;
      match v
      case POISON => ret := AsInt(poison); poison := value != 0;
      case VALIDATE => ret := AsInt(validate); validate := value != 0;
      case TRACK => ret := AsInt(tracking); tracking := value != 0;
      case TAG => ret := alloctag; alloctag := value;
      case OTHER =>
    }

    /** changeTag, for the push and pop commands; see AllocatorRuns.ChangedTagInRange. */
    method ChangeTag(inc: int) returns (ret: nat)
      requires Valid() && (inc == 1 || inc == -1)
      modifies this
      ensures ret == alloctag && St() == old(St()).(cfg := old(St()).cfg.(alloctag := ret)) && links.Valid()
      ensures ret == if old(alloctag) == 0 && inc == -1 then 0 else old(alloctag) + inc
      ensures Valid() <==> !(old(alloctag) == 254 && inc == 1)
      ensures Valid() ==>
                && Runs.Proper(old(St()), Runs.ChangeTag(inc)) && Runs.Step(old(St()), Runs.ChangeTag(inc)) == Some(St())
    {
      if (alloctag != 0 || inc != -1) && (alloctag != 255 || inc != 1) { alloctag := alloctag + inc; }
      ret := alloctag;
    }

    /** The first half of tp_alloc: where the payload goes and what the header says. */
    method Place(r: Request) returns (ph: Addr, b: Block)
      requires Valid() && RequestOk(St(), r) && r.raw != 0
      ensures ph == AllocResult(St(), r) && b == NewBlock(St().cfg, r)
      ensures NewContents(b, St().cfg, ph, r.size, r.zero, r.raw, r.junk, r.callers)
    {
      NewBlockOk(St(), r);
      NewBlockIs(St(), r);
      var n := P.TrxAlign(r.size);
      var overhead := P.Overhead(tracking);
      var tpsize: nat;
      tpsize, ph := Sizes(r, n, overhead);
      var data := if r.zero then Zeros(n) else r.junk;
      if tracking {
        b := Block(tpsize, ph - r.raw, n, MAGIC2, MAGIC1, data, alloctag, r.callers, []);
      } else {
        b := Block(tpsize, ph - r.raw, n, MAGIC1, MAGIC1, data, 0, r.callers, []);
      }
    }

    /** Its arithmetic: the size asked of the real malloc, and the payload address. */
    method Sizes(r: Request, n: Word, overhead: nat) returns (tpsize: Word, ph: Addr)
      requires n == P.TrxAlign(r.size) && overhead == P.Overhead(tracking) && r.alignment > 0
      ensures tpsize == P.TpSize(r.size, r.alignment, tracking) && ph == P.PayloadAt(r.raw, r.alignment, tracking)
    {
      tpsize := Uint32(Uint32((r.alignment + overhead) * 2) + n);
      ph := P.Mask(Uint32(r.raw + overhead + r.alignment), r.alignment);
    }

    /** The second half of tp_alloc: write the header and account for the block. */
    method Record(ptr: Addr, b: Block, r: Request)
      requires links.Valid() && ptr != 0 && !L.Listed(links.lists, ptr)
      requires |links.lists| == |totals| == MAXTAGS && alloctag < MAXTAGS && r.alignment > 0 && r.raw != 0
      requires ptr == AllocResult(St(), r) && b == NewBlock(St().cfg, r)
      modifies this, links
      ensures links.Valid() && St() == Alloc(old(St()), r)
    {
      mem := Surviving(mem, r.raw, b.tpsize)[ptr := b];
      if tracking {
        links.InsertHead(b.tag, ptr);
        totals := totals[b.tag := totals[b.tag] + b.size];
      }
      curalloc := curalloc + b.size;
    }

    /** tp_alloc.  `raw` is what the real malloc answers, `junk` the bytes it hands out.  AllocEffect says
        what the new header and payload hold and how lists and counters change. */
    method TpAlloc(size: Word, zero: bool, alignment: Word, raw: Addr, junk: seq<Byte>, callers: Trace) returns (ptr: Addr)
      requires Valid()
      requires RequestOk(St(), Request(size, zero, P.EffectiveAlignment(alignment), raw, junk, callers))
      modifies this, links
      ensures Valid()
      ensures var r := Request(size, zero, P.EffectiveAlignment(alignment), raw, junk, callers);
              && St() == Alloc(old(St()), r) && ptr == AllocResult(old(St()), r)
              && (raw != 0 ==> AllocEffect(old(St()), r, ptr, St()))
      ensures raw == 0 ==> ptr == 0 && St() == old(St())
      ensures raw != 0 ==> ptr in mem && |mem[ptr].data| >= size && mem[ptr].callers == callers
      ensures raw != 0 && zero ==> forall i :: 0 <= i < |mem[ptr].data| ==> mem[ptr].data[i] == 0
      ensures raw != 0 && !zero ==> mem[ptr].data == junk
      ensures forall p :: p in old(mem) && IsLive(old(mem)[p]) ==> (raw != 0 ==> p != ptr) && p in mem && mem[p] == old(mem)[p]
    {
      var r := Request(size, zero, P.EffectiveAlignment(alignment), raw, junk, callers);
      ghost var s := St();
      AllocPreserves(s, r);
      if raw == 0 { return 0; }
      AllocContents(s, r);
      NewBlockUnlisted(s, r);
      var b;
      ptr, b := Place(r);
      Record(ptr, b, r);
    }

    /** verify: false stands for the core dump. */
    method Verify(ptr: Addr) returns (ok: bool)
      requires ptr in mem
      ensures ok <==> Verifies(St(), ptr)
      ensures ok <==> (mem[ptr].magic == MAGIC1 || mem[ptr].magic == MAGIC2) && (validate ==> mem[ptr].trailer == MAGIC1)
    {
      var b := mem[ptr];
      if b.magic != MAGIC1 && b.magic != MAGIC2 { return false; }
      if validate {
        if b.trailer != MAGIC1 { return false; }
      }
      return true;
    }

    /** The checks free makes before it changes anything; false stands for the core dump. */
    method CheckBlock(ptr: Addr) returns (ok: bool)
      requires Valid() && ptr in mem
      ensures ok <==> Free(St(), ptr, []).Some? || ptr == 0
    {
      TagsInRange(St());
      ok := Verify(ptr);
      if !ok { return; }
      if mem[ptr].magic == MAGIC2 && validate {
        assert ptr in links.lists[mem[ptr].tag];
        NextIsListNext(links, mem[ptr].tag, ptr);
        ListNextMember(links.lists[mem[ptr].tag], ptr);
        var next := links.next[ptr];
        if next != 0 {
          ok := Verify(next);
          if !ok { return; }
        }
        assert L.Listed(links.lists, ptr);
        var prev := links.ListPrev(ptr);
        ok := Verify(prev);
      }
    }

    /** Mark the header free, record the freers, poison the payload. */
    method Scrub(b: Block, trace: seq<Word>) returns (r: Block)
      requires IsLive(b)
      ensures r == FreedBlock(St().cfg, b, trace)
      ensures FreedContents(b, r, St().cfg, trace)
    {
      FreedIs(St().cfg, b, trace);
      var pattern := PoisonPattern(b, trace);
      r := b;
      if b.magic == MAGIC2 { r := r.(freers := trace); }
      r := r.(magic := Freed(b.magic));
      if poison {
        var data := PoisonFill(b.data, pattern);
        r := r.(data := data);
      }
    }

    /** What free does once the checks have passed. */
    method Release(ptr: Addr, trace: seq<Word>)
      requires links.Valid() && ptr != 0 && ptr in mem && |links.lists| == |totals| == MAXTAGS
      requires IsTracked(mem[ptr]) ==> mem[ptr].tag < MAXTAGS && L.Listed(links.lists, ptr)
      requires Free(St(), ptr, trace).Some?
      modifies this, links
      ensures links.Valid() && St() == Free(old(St()), ptr, trace).value
    {
      var b := mem[ptr];
      if b.magic == MAGIC2 {
        totals := totals[b.tag := totals[b.tag] - b.size];
        links.Remove(ptr);
      }
      curalloc := curalloc - b.size;
      b := Scrub(b, trace);
      mem := mem[ptr := b];
    }

    /** free.  `trace` holds the freers; `freed` is the address handed to the real free.  FreeEffect says
        what the header and payload are left with and how lists and counters change. */
    method FreePtr(ptr: Addr, trace: seq<Word>) returns (ok: bool, freed: int)
      requires Valid() && (ptr == 0 || ptr in mem)
      modifies this, links
      ensures ptr in old(mem) ==> old(mem)[ptr].tag < MAXTAGS || !IsTracked(old(mem)[ptr])
      ensures ok <==> ptr == 0 || Checks(old(St()), ptr)
      ensures ok <==> Free(old(St()), ptr, trace).Some?
      ensures ok ==> Valid() && St() == Free(old(St()), ptr, trace).value
      ensures !ok || ptr == 0 ==> St() == old(St())
      ensures ok && ptr != 0 ==> freed == ptr - old(mem)[ptr].offset && FreeEffect(old(St()), ptr, trace, St())
      ensures ok && ptr != 0 && !poison ==> mem[ptr].data == old(mem)[ptr].data
      ensures ok && ptr != 0 && poison ==>
                && |mem[ptr].data| == |old(mem)[ptr].data|
                && forall i :: 0 <= i < |mem[ptr].data| ==>
                     mem[ptr].data[i] == if old(mem)[ptr].magic == MAGIC2 && trace != []
                                         then WordBytes(trace[i / 4 % |trace|])[i % 4] else 255
    {
      ok, freed := true, 0;
      TagsInRange(St());
      if ptr == 0 { return; }
      ok := CheckBlock(ptr);
      FreeExactly(St(), ptr, trace);
      FreeExactly(St(), ptr, []);
      if !ok { return; }
      FreePreserves(St(), ptr, trace);
      FreeContents(St(), ptr, trace);
      TrackedIsListed(St(), ptr);
      freed := ptr - mem[ptr].offset;
      Release(ptr, trace);
    }

    /** The memmove of realloc. */
    method CopyOver(ptr: Addr, new_: Addr, size: Word)
      requires ptr in mem && new_ in mem && ptr != new_
      requires |mem[ptr].data| == mem[ptr].size && size <= |mem[new_].data|
      modifies `mem
      ensures St() == MoveData(old(St()), ptr, new_, size)
    {
      var oldsize := mem[ptr].size;
      var ncopy := if oldsize > size then size else oldsize;
      mem := mem[new_ := mem[new_].(data := Copied(mem[ptr].data, mem[new_].data, ncopy))];
    }

    /** realloc: always a new block, a copy and a free. */
    method ReallocPtr(ptr: Addr, size: Word, raw: Addr, junk: seq<Byte>, callers: Trace, trace: seq<Word>)
      returns (ok: bool, new_: Addr)
      requires Valid() && (ptr == 0 || ptr in mem)
      requires RequestOk(St(), Request(size, false, P.MINALLOC, raw, junk, callers))
      modifies this, links
      ensures var r := Request(size, false, P.MINALLOC, raw, junk, callers);
              var o := Realloc(old(St()), ptr, r, trace);
              (ok <==> o.Some?) && (ok ==> Valid() && St() == o.value.0 && new_ == o.value.1)
    {
      ok, new_ := true, 0;
      TagsInRange(St());
      if ptr == 0 {
        new_ := TpAlloc(size, false, 0, raw, junk, callers);
      } else if size == 0 {
        var freed;
        ok, freed := FreePtr(ptr, trace);
      } else {
        ok := Verify(ptr);
        if ok { ok, new_ := MoveBlock(ptr, size, raw, junk, callers, trace); }
      }
    }

    /** The last branch of realloc, once the old block has been verified. */
    method MoveBlock(ptr: Addr, size: Word, raw: Addr, junk: seq<Byte>, callers: Trace, trace: seq<Word>)
      returns (ok: bool, new_: Addr)
      requires Valid() && ptr in mem && size > 0 && Verifies(St(), ptr)
      requires RequestOk(St(), Request(size, false, P.MINALLOC, raw, junk, callers))
      modifies this, links
      ensures var r := Request(size, false, P.MINALLOC, raw, junk, callers);
              var o := Realloc(old(St()), ptr, r, trace);
              (ok <==> o.Some?) && (ok ==> Valid() && St() == o.value.0 && new_ == o.value.1)
    {
      ok := true;
      ghost var s, r := St(), Request(size, false, P.MINALLOC, raw, junk, callers);
      NotNull(s, ptr);
      ghost var s1, s2 := Stages(s, ptr, r, trace);
      new_ := TpAlloc(size, false, 0, raw, junk, callers);
      if new_ != 0 {
        CopyOver(ptr, new_, size);
        var freed;
        ok, freed := FreePtr(ptr, trace);
      }
    }

    /** memalign refuses alignments below a word; valloc passes the page size. */
    method Memalign(alignment: Word, size: Word, raw: Addr, junk: seq<Byte>, callers: Trace) returns (ptr: Addr)
      requires Valid()
      requires alignment >= P.MINALLOC ==> RequestOk(St(), Request(size, false, alignment, raw, junk, callers))
      modifies this, links
      ensures Valid()
      ensures alignment < P.MINALLOC ==> St() == old(St()) && ptr == 0
      ensures alignment >= P.MINALLOC ==>
                var r := Request(size, false, alignment, raw, junk, callers);
                St() == Alloc(old(St()), r) && ptr == AllocResult(old(St()), r)
    {
      if alignment < 4 { return 0; }
      ptr := TpAlloc(size, false, alignment, raw, junk, callers);
    }
  }

  lemma TagsInRange(s: State)
    requires Inv(s)
    ensures forall p :: p in s.mem ==> |s.mem[p].data| == s.mem[p].size && (IsTracked(s.mem[p]) ==> s.mem[p].tag < MAXTAGS)
  {
    forall p | p in s.mem
      ensures |s.mem[p].data| == s.mem[p].size && (IsTracked(s.mem[p]) ==> s.mem[p].tag < MAXTAGS)
    {
      assert BlockOk(p, s.mem[p]);
    }
  }

  lemma TrackedIsListed(s: State, p: Addr)
    requires Inv(s) && p in s.mem
    ensures IsTracked(s.mem[p]) ==> s.mem[p].tag < MAXTAGS && L.Listed(s.lists, p)
  {
    assert BlockOk(p, s.mem[p]);
    if IsTracked(s.mem[p]) { assert p in s.lists[s.mem[p].tag]; }
  }

  lemma NotNull(s: State, p: Addr)
    requires Inv(s) && p in s.mem
    ensures p != 0
  {
    assert BlockOk(p, s.mem[p]);
  }

  /** The states inside realloc: after the allocation and after the copy, and the outcome of the release. */
  lemma Stages(s: State, p: Addr, r: Request, trace: seq<Word>) returns (s1: State, s2: State)
    requires Inv(s) && RequestOk(s, r) && p in s.mem && p != 0 && Verifies(s, p) && r.size > 0
    ensures s1 == Alloc(s, r) && Inv(s1)
    ensures r.raw == 0 ==> s1 == s && Realloc(s, p, r, trace) == Some((s, 0)) && AllocResult(s, r) == 0
    ensures r.raw != 0 ==>
              var q := AllocResult(s, r);
              && q != 0 && p in s1.mem && q in s1.mem && p != q
              && |s1.mem[p].data| == s1.mem[p].size && r.size <= |s1.mem[q].data|
              && s2 == MoveData(s1, p, q, r.size) && Inv(s2) && p in s2.mem
              && FreedAs(s2, p, trace, Realloc(s, p, r, trace), q)
  {
    s1, s2 := Alloc(s, r), s;
    AllocPreserves(s, r);
    if r.raw == 0 {
      Runs.ReallocFailure(s, p, r, trace);
    } else {
      NewBlockOk(s, r);
      var q;
      s1, s2, q := Runs.ReallocStages(s, p, r);
      assert BlockOk(p, s2.mem[p]);
    }
  }

  /** `o` is what the release leaves, together with the new block. */
  ghost predicate FreedAs(s: State, p: Addr, trace: seq<Word>, o: Option<(State, Addr)>, q: Addr)
    requires p in s.mem
  {
    && |s.lists| == |s.totals| == MAXTAGS && (IsTracked(s.mem[p]) ==> s.mem[p].tag < MAXTAGS)
    && match Free(s, p, trace)
       case None => o == None
       case Some(s3) => o == Some((s3, q))
  }
}
