// From the tracked process to the printed total: the file descriptor table, the slots that
// libSendReport writes for a tag (trxlib.c:144-219, 637-713), and what the manager makes of them.
module ProcessReport {
  import opened Words
  import opened Slots
  import opened Options
  import opened Allocator
  import AllocatorRuns
  import CallTree
  import Report
  import Tracker
  import L = IntrusiveList

  const MAXFDS := 1024
  const MAXOPENERS := 6

  type Opener = t: seq<Word> | |t| == MAXOPENERS witness [0, 0, 0, 0, 0, 0]

  datatype Fd = Fd(opener: Opener, tag: nat, inUse: bool)

  /** A tracked process: the allocator's state and the descriptor table. */
  datatype Process = Process(s: State, fds: seq<Fd>)

  // ---------------------------------------------------------------- descriptors

  predicate FdIsValid(fd: int) {
    0 <= fd < MAXFDS
  }

  /** newFd: a descriptor already believed open keeps the tag it was opened under. */
  function NewFd(fds: seq<Fd>, fd: int, alloctag: nat, trace: Opener): seq<Fd>
    requires |fds| == MAXFDS
  {
    if !FdIsValid(fd) then fds
    else if fds[fd].inUse then fds[fd := fds[fd].(opener := trace)]
    else fds[fd := Fd(trace, alloctag, true)]
  }

  /** closeFd; `ret` is the result of the real close. */
  function CloseFd(fds: seq<Fd>, fd: int, ret: int): seq<Fd>
    requires |fds| == MAXFDS
  {
    if ret == 0 && FdIsValid(fd) then fds[fd := fds[fd].(inUse := false)] else fds
  }

  predicate OpenUnder(f: Fd, tag: nat) {
    f.inUse && f.tag == tag
  }

  /** Six openers fit in a slot of ten; the rest of a fresh segment is zero. */
  function FdSlot(f: Fd): Slot {
    Slot(1, ResType.File, f.opener + [0, 0, 0, 0])
  }

  function FdSlots(fds: seq<Fd>, tag: nat): seq<Slot> {
    if fds == [] then []
    else
      var n := |fds| - 1;
      FdSlots(fds[..n], tag) + if OpenUnder(fds[n], tag) then [FdSlot(fds[n])] else []
  }

  function OpenFds(fds: seq<Fd>, tag: nat): set<nat> {
    set i: nat | i < |fds| && OpenUnder(fds[i], tag)
  }

  // ---------------------------------------------------------------- blocks

  function BlockSlot(b: Block): Slot {
    Slot(b.size, ResType.Memory, b.callers)
  }

  function BlockSlots(mem: map<Addr, Block>, l: seq<Addr>): (r: seq<Slot>)
    requires forall p :: p in l ==> p in mem
    ensures |r| == |l|
  {
    if l == [] then []
    else
      var n := |l| - 1;
      BlockSlots(mem, l[..n]) + [BlockSlot(mem[l[n]])]
  }

  /** Everything a report on `tag` carries. */
  ghost function TagSlots(p: Process, tag: nat): seq<Slot>
    requires Inv(p.s) && tag < MAXTAGS
  {
    BlockSlots(p.s.mem, p.s.lists[tag]) + FdSlots(p.fds, tag)
  }

  /** A slot tells of a live block: its size, its callers and type memory. */
  ghost predicate TellsOfBlock(p: Process, tag: nat, s: Slot) {
    && s.kind == Memory
    && exists a :: a in Tagged(p.s.mem, tag) && s.size == p.s.mem[a].size && s.callers == p.s.mem[a].callers
  }

  /** Or of an open descriptor: size 1, its openers followed by zeros, and type file. */
  ghost predicate TellsOfFd(p: Process, tag: nat, s: Slot) {
    && s.kind == File && s.size == 1
    && exists i :: i in OpenFds(p.fds, tag) && s.callers == p.fds[i].opener + [0, 0, 0, 0]
  }

  lemma {:induction false} BlockSlotsTell(mem: map<Addr, Block>, l: seq<Addr>)
    requires forall p :: p in l ==> p in mem
    ensures forall k :: 0 <= k < |l| ==>
              BlockSlots(mem, l)[k] == Slot(mem[l[k]].size, Memory, mem[l[k]].callers)
  {
    if l != [] {
      var n := |l| - 1;
      BlockSlotsTell(mem, l[..n]);
      assert forall k :: 0 <= k < n ==> l[..n][k] == l[k];
    }
  }

  lemma {:induction false} FdSlotsTell(fds: seq<Fd>, tag: nat, s: Slot)
    requires s in FdSlots(fds, tag)
    ensures s.kind == File && s.size == 1 && exists i :: i in OpenFds(fds, tag) && s.callers == fds[i].opener + [0, 0, 0, 0]
  {
    var n := |fds| - 1;
    if s in FdSlots(fds[..n], tag) {
      FdSlotsTell(fds[..n], tag, s);
      var i :| i in OpenFds(fds[..n], tag) && s.callers == fds[..n][i].opener + [0, 0, 0, 0];
      assert i in OpenFds(fds, tag) && fds[i] == fds[..n][i];
    } else {
      assert n in OpenFds(fds, tag);
    }
  }

  /** Each slot of a report tells of something held. */
  lemma SlotsTell(p: Process, tag: nat, s: Slot)
    requires Inv(p.s) && tag < MAXTAGS && s in TagSlots(p, tag)
    ensures TellsOfBlock(p, tag, s) || TellsOfFd(p, tag, s)
  {
    var l := p.s.lists[tag];
    BlockSlotsTell(p.s.mem, l);
    if s in BlockSlots(p.s.mem, l) {
      var k :| 0 <= k < |l| && BlockSlots(p.s.mem, l)[k] == s;
      assert l[k] in Tagged(p.s.mem, tag);
    } else {
      FdSlotsTell(p.fds, tag, s);
    }
  }

  // ---------------------------------------------------------------- what is held

  function BlocksUnder(mem: map<Addr, Block>, ps: set<Addr>, path: seq<Word>): set<Addr> {
    set a | a in ps && a in mem && path <= mem[a].callers
  }

  function FdsUnder(fds: seq<Fd>, tag: nat, path: seq<Word>): set<nat> {
    set i: nat | i < |fds| && OpenUnder(fds[i], tag) && path <= FdSlot(fds[i]).callers
  }

  /** Bytes in live blocks of `tag` allocated under `path`, and descriptors open under the tag that
      were opened there, one apiece. */
  ghost function Held(p: Process, tag: nat, path: seq<Word>): int
    requires Inv(p.s) && tag < MAXTAGS
  {
    SumOf(p.s.mem, BlocksUnder(p.s.mem, Tagged(p.s.mem, tag), path)) + |FdsUnder(p.fds, tag, path)|
  }

  lemma {:induction false} BlockSlotsSum(mem: map<Addr, Block>, l: seq<Addr>, ps: set<Addr>, path: seq<Word>)
    requires L.NoDuplicates(l) && ps <= mem.Keys && forall p :: p in l <==> p in ps
    ensures CallTree.SumUnder(BlockSlots(mem, l), path) == SumOf(mem, BlocksUnder(mem, ps, path))
  {
    if l == [] {
      assert BlocksUnder(mem, ps, path) == {};
    } else {
      var n := |l| - 1;
      assert l[n] in ps;
      BlockSlotsSum(mem, l[..n], ps - {l[n]}, path);
      Report.SumUnderSnoc(BlockSlots(mem, l[..n]), BlockSlot(mem[l[n]]), path);
      OneBlockLess(mem, ps, l[n], path);
    }
  }

  lemma {:induction false} OneBlockLess(mem: map<Addr, Block>, ps: set<Addr>, a: Addr, path: seq<Word>)
    requires a in ps && ps <= mem.Keys
    ensures SumOf(mem, BlocksUnder(mem, ps, path))
            == SumOf(mem, BlocksUnder(mem, ps - {a}, path)) + Report.SizeIf(BlockSlot(mem[a]), path)
  {
    var under := BlocksUnder(mem, ps, path);
    assert BlocksUnder(mem, ps - {a}, path) == under - {a};
    if a in under {
      SumRemove(mem, under, a);
    } else {
      assert under - {a} == under;
    }
  }

  lemma {:induction false} FdSlotsSum(fds: seq<Fd>, tag: nat, path: seq<Word>)
    ensures CallTree.SumUnder(FdSlots(fds, tag), path) == |FdsUnder(fds, tag, path)|
  {
    if fds == [] {
      assert FdsUnder(fds, tag, path) == {};
    } else {
      var n := |fds| - 1;
      FdSlotsSum(fds[..n], tag, path);
      LastFd(fds, tag, path);
      if OpenUnder(fds[n], tag) {
        Report.SumUnderSnoc(FdSlots(fds[..n], tag), FdSlot(fds[n]), path);
      } else {
        assert FdSlots(fds[..n], tag) + [] == FdSlots(fds[..n], tag);
      }
    }
  }

  lemma LastFd(fds: seq<Fd>, tag: nat, path: seq<Word>)
    requires fds != []
    ensures var f := fds[|fds| - 1];
            |FdsUnder(fds, tag, path)|
            == |FdsUnder(fds[..|fds| - 1], tag, path)| + if OpenUnder(f, tag) then Report.SizeIf(FdSlot(f), path) else 0
  {
    var n := |fds| - 1;
    var before := FdsUnder(fds[..n], tag, path);
    if OpenUnder(fds[n], tag) && path <= FdSlot(fds[n]).callers {
      assert FdsUnder(fds, tag, path) == before + {n};
    } else {
      assert FdsUnder(fds, tag, path) == before;
    }
  }

  /** Under every call-stack prefix the slots of a report add up to what is held there. */
  lemma {:induction false} SlotsUnderAreHeld(p: Process, tag: nat, path: seq<Word>)
    requires Inv(p.s) && tag < MAXTAGS
    ensures CallTree.SumUnder(TagSlots(p, tag), path) == Held(p, tag, path)
  {
    var l := p.s.lists[tag];
    BlockSlotsSum(p.s.mem, l, Tagged(p.s.mem, tag), path);
    FdSlotsSum(p.fds, tag, path);
    Report.SumUnderAppend(BlockSlots(p.s.mem, l), FdSlots(p.fds, tag), path);
  }

  lemma {:induction false} FdSlotsCount(fds: seq<Fd>, tag: nat)
    ensures |FdSlots(fds, tag)| == |OpenFds(fds, tag)|
  {
    if fds == [] {
      assert OpenFds(fds, tag) == {};
    } else {
      var n := |fds| - 1;
      FdSlotsCount(fds[..n], tag);
      if OpenUnder(fds[n], tag) {
        assert OpenFds(fds, tag) == OpenFds(fds[..n], tag) + {n};
      } else {
        assert OpenFds(fds, tag) == OpenFds(fds[..n], tag);
      }
    }
  }

  // ---------------------------------------------------------------- the report is exactly what is live

  /** A report on a tag has one slot for each live tracked block recorded with it, and one for each
      descriptor open under it; its sizes add up to the tag's total plus those descriptors. */
  lemma SlotsAreLiveResources(p: Process, tag: nat)
    requires Inv(p.s) && tag < MAXTAGS
    ensures L.NoDuplicates(p.s.lists[tag])
    ensures forall a :: a in p.s.lists[tag] <==> a in Tagged(p.s.mem, tag)
    ensures |TagSlots(p, tag)| == |p.s.lists[tag]| + |OpenFds(p.fds, tag)|
    ensures CallTree.SumUnder(TagSlots(p, tag), []) == p.s.totals[tag] + |OpenFds(p.fds, tag)|
  {
    FdSlotsCount(p.fds, tag);
    SlotsUnderAreHeld(p, tag, []);
    assert BlocksUnder(p.s.mem, Tagged(p.s.mem, tag), []) == Tagged(p.s.mem, tag);
    assert FdsUnder(p.fds, tag, []) == OpenFds(p.fds, tag);
  }

  datatype Event =
    | Heap(e: AllocatorRuns.Event)
    | Open(fd: int, trace: Opener)
    | Close(fd: int, ret: int)

  /** One step.  What follows a process outside the invariant is left open; RunKeepsInv shows that no
      run reaches one. */
  ghost predicate Next(p: Process, e: Event, p': Process) {
    match e
    case Heap(m) =>
      && p'.fds == p.fds
      && (AllocatorRuns.Intact(p.s) ==> AllocatorRuns.Proper(p.s, m) && AllocatorRuns.Step(p.s, m) == Some(p'.s))
    case Open(fd, trace) =>
      p'.s == p.s && |p.fds| == MAXFDS && p'.fds == NewFd(p.fds, fd, p.s.cfg.alloctag, trace)
    case Close(fd, ret) =>
      p'.s == p.s && |p.fds| == MAXFDS && p'.fds == CloseFd(p.fds, fd, ret)
  }

  /** A run from the start of the process, when nothing is allocated and no descriptor is tracked. */
  ghost predicate Run(ps: seq<Process>, events: seq<Event>) {
    && |ps| == |events| + 1
    && ps[0].s == Initial(ps[0].s.cfg) && ps[0].s.cfg.alloctag < MAXTAGS
    && |ps[0].fds| == MAXFDS && (forall fd :: 0 <= fd < MAXFDS ==> !ps[0].fds[fd].inUse)
    && forall i :: 0 <= i < |events| ==> Next(ps[i], events[i], ps[i + 1])
  }

  lemma {:induction false} RunKeepsInv(ps: seq<Process>, events: seq<Event>, i: nat)
    requires Run(ps, events) && i < |ps|
    ensures AllocatorRuns.Intact(ps[i].s) && |ps[i].fds| == MAXFDS
    decreases i
  {
    if i == 0 {
      InitialState(ps[0].s.cfg);
    } else {
      RunKeepsInv(ps, events, i - 1);
      assert Next(ps[i - 1], events[i - 1], ps[i]);
      if events[i - 1].Heap? { AllocatorRuns.StepIsSafe(ps[i - 1].s, events[i - 1].e); }
    }
  }

  /** End to end: after any run the slots reported for a tag are its live blocks and open descriptors;
      if there are any and each has a first caller, then in whatever order qsort leaves equal stacks the
      tagged total printed is the list's total plus the number of descriptors open under the tag. */
  lemma {:induction false} PrintedTotal(ps: seq<Process>, events: seq<Event>, i: nat, tag: nat)
    requires Run(ps, events) && i < |ps| && tag < MAXTAGS
    ensures Inv(ps[i].s)
    ensures |TagSlots(ps[i], tag)| == |Tagged(ps[i].s.mem, tag)| + |OpenFds(ps[i].fds, tag)|
    ensures PrintsTotal(ps[i], tag)
  {
    RunKeepsInv(ps, events, i);
    TotalOfTag(ps[i], tag);
  }

  /** The tagged total printed for a sorted vector. */
  function PrintedFor(v: seq<Slot>): Word
    requires v != []
  {
    Uint32(CallTree.TopSum(CallTree.Visit(v, 0, 0, |v|)))
  }

  /** In whatever order the slots are sorted, if there are any and each has a caller, the tagged total
      printed is the list's total plus the number of open descriptors. */
  ghost predicate PrintsTotal(p: Process, tag: nat)
    requires Inv(p.s) && tag < MAXTAGS
  {
    forall v :: Report.SortedPermutation(v, TagSlots(p, tag)) && v != [] && Report.AllTraced(v) ==>
      PrintedFor(v) == Uint32(p.s.totals[tag] + |OpenFds(p.fds, tag)|)
  }

  lemma {:induction false} TotalOfTag(p: Process, tag: nat)
    requires Inv(p.s) && tag < MAXTAGS
    ensures |TagSlots(p, tag)| == |Tagged(p.s.mem, tag)| + |OpenFds(p.fds, tag)|
    ensures PrintsTotal(p, tag)
  {
    SlotsAreLiveResources(p, tag);
    ListSize(p.s.lists[tag], Tagged(p.s.mem, tag));
    forall v | Report.SortedPermutation(v, TagSlots(p, tag)) && v != [] && Report.AllTraced(v)
      ensures PrintedFor(v) == Uint32(p.s.totals[tag] + |OpenFds(p.fds, tag)|)
    {
      Report.SameLength(v, TagSlots(p, tag));
      TracedPermutes(v, TagSlots(p, tag));
      Report.TaggedTotal(TagSlots(p, tag), v);
    }
  }

  lemma TracedPermutes(v: seq<Slot>, slots: seq<Slot>)
    requires multiset(v) == multiset(slots) && Report.AllTraced(v)
    ensures Report.AllTraced(slots)
  {
    forall k | 0 <= k < |slots|
      ensures slots[k].callers[0] != 0
    {
      assert slots[k] in multiset(v);
    }
  }

  lemma {:induction false} ListSize(l: seq<Addr>, ps: set<Addr>)
    requires L.NoDuplicates(l) && forall p :: p in l <==> p in ps
    ensures |l| == |ps|
  {
    if l == [] {
      assert ps == {};
    } else {
      ListSize(l[..|l| - 1], ps - {l[|l| - 1]});
    }
  }

  // ---------------------------------------------------------------- what the descriptor calls do

  /** A descriptor that was not tracked is now open under the current tag, and only there; one believed
      open keeps its tag.  A descriptor out of range changes nothing. */
  lemma OpenFdsAfterOpen(fds: seq<Fd>, fd: int, alloctag: nat, trace: Opener, tag: nat)
    requires |fds| == MAXFDS
    ensures |NewFd(fds, fd, alloctag, trace)| == MAXFDS
    ensures OpenFds(NewFd(fds, fd, alloctag, trace), tag)
            == OpenFds(fds, tag) + if FdIsValid(fd) && !fds[fd].inUse && tag == alloctag then {fd as nat} else {}
    ensures FdIsValid(fd) ==> NewFd(fds, fd, alloctag, trace)[fd].opener == trace
    ensures forall i :: 0 <= i < MAXFDS && i != fd ==> NewFd(fds, fd, alloctag, trace)[i] == fds[i]
  {
  }

  /** After a successful close a descriptor is open under no tag, and all others are as before. */
  lemma OpenFdsAfterClose(fds: seq<Fd>, fd: int, ret: int, tag: nat)
    requires |fds| == MAXFDS
    ensures |CloseFd(fds, fd, ret)| == MAXFDS
    ensures OpenFds(CloseFd(fds, fd, ret), tag)
            == OpenFds(fds, tag) - if ret == 0 && FdIsValid(fd) then {fd as nat} else {}
    ensures forall i :: 0 <= i < MAXFDS && i != fd ==> CloseFd(fds, fd, ret)[i] == fds[i]
  {
  }

  const TAGCUR := 100

  // ---------------------------------------------------------------- the code

  class ReportingProcess {
    const alloc: Tracker.Tracker
    var fds: seq<Fd>

    ghost predicate Valid()
      reads this, alloc, alloc.links
    {
      alloc.Valid() && |fds| == MAXFDS
    }

    ghost function Proc(): Process
      reads this, alloc, alloc.links
    {
      Process(alloc.St(), fds)
    }

    constructor (alloc: Tracker.Tracker)
      requires alloc.Valid()
      ensures Valid() && this.alloc == alloc && forall i :: 0 <= i < MAXFDS ==> !fds[i].inUse
    {
      this.alloc := alloc;
      fds := seq(MAXFDS, i => Fd([0, 0, 0, 0, 0, 0], 0, false));
    }

    method RecordOpen(fd: int, trace: Opener)
      requires Valid()
      modifies `fds
      ensures Valid() && Next(old(Proc()), Open(fd, trace), Proc())
      ensures forall tag: nat ::
                OpenFds(fds, tag) == OpenFds(old(fds), tag)
                                     + if FdIsValid(fd) && !old(fds)[fd].inUse && tag == alloc.alloctag then {fd as nat} else {}
      ensures FdIsValid(fd) ==> fds[fd].opener == trace
      ensures forall i :: 0 <= i < MAXFDS && i != fd ==> fds[i] == old(fds)[i]
    {
      forall tag: nat {
        OpenFdsAfterOpen(fds, fd, alloc.alloctag, trace, tag);
      }
      if 0 <= fd < MAXFDS {
        fds := fds[fd := fds[fd].(opener := trace)];
        if !fds[fd].inUse {
          fds := fds[fd := fds[fd].(inUse := true, tag := alloc.alloctag)];
        }
      }
    }

    method RecordClose(fd: int, ret: int)
      requires Valid()
      modifies `fds
      ensures Valid() && Next(old(Proc()), Close(fd, ret), Proc())
      ensures forall tag: nat ::
                OpenFds(fds, tag) == OpenFds(old(fds), tag) - if ret == 0 && FdIsValid(fd) then {fd as nat} else {}
      ensures forall i :: 0 <= i < MAXFDS && i != fd ==> fds[i] == old(fds)[i]
    {
      forall tag: nat {
        OpenFdsAfterClose(fds, fd, ret, tag);
      }
      if ret == 0 && 0 <= fd < MAXFDS {
        if fds[fd].inUse { fds := fds[fd := fds[fd].(inUse := false)]; }
      }
    }

    method CountFds(tag: nat) returns (tot: nat)
      requires Valid()
      ensures tot == |FdSlots(fds, tag)|
    {
      tot := 0;
      for i := 0 to MAXFDS
        invariant tot == |FdSlots(fds[..i], tag)|
      {
        assert fds[..i + 1][..i] == fds[..i];
        if fds[i].inUse && fds[i].tag == tag { tot := tot + 1; }
      }
      assert fds[..MAXFDS] == fds;
    }

    /** addFds: fill slots `curpos` to `maxpos`. */
    method AddFds(slots: seq<Slot>, maxpos: nat, tag: nat) returns (r: seq<Slot>)
      requires Valid() && maxpos == |slots| + |FdSlots(fds, tag)|
      ensures r == slots + FdSlots(fds, tag)
    {
      r := slots;
      var i := 0;
      while i < MAXFDS && |r| < maxpos
        invariant i <= MAXFDS && r == slots + FdSlots(fds[..i], tag)
      {
        assert fds[..i + 1][..i] == fds[..i];
        if fds[i].inUse && fds[i].tag == tag { r := r + [FdSlot(fds[i])]; }
        i := i + 1;
      }
      FdSlotsPrefix(fds, tag, i);
      assert i == MAXFDS ==> fds[..i] == fds;
      assert FdSlots(fds[..i], tag) == FdSlots(fds, tag);
    }

    /** The loop that writes one slot for each block of the list. */
    method AddBlocks(blocks: seq<Addr>) returns (slots: seq<Slot>)
      requires forall p :: p in blocks ==> p in alloc.mem
      ensures slots == BlockSlots(alloc.mem, blocks)
    {
      slots := [];
      for k := 0 to |blocks|
        invariant slots == BlockSlots(alloc.mem, blocks[..k])
      {
        assert blocks[..k + 1][..k] == blocks[..k];
        slots := slots + [BlockSlot(alloc.mem[blocks[k]])];
      }
      assert blocks[..|blocks|] == blocks;
    }

    /** libSendReport under its lock; an empty result stands for "nothing to report". */
    method LibSendReport(tag: nat) returns (slots: seq<Slot>)
      requires Valid() && tag < MAXTAGS
      ensures slots == TagSlots(Proc(), tag)
    {
      var blocks := alloc.links.Walk(tag);
      var total := |blocks|;
      var nfds := CountFds(tag);
      total := total + nfds;
      slots := [];
      if total > 0 {
        slots := AddBlocks(blocks);
        slots := AddFds(slots, total, tag);
      }
    }

    /** report: 100 stands for the tag in force, so what tag 100 holds is reported only while it is. */
    method SendReport(asked: nat) returns (slots: seq<Slot>)
      requires Valid() && asked < MAXTAGS && alloc.alloctag < MAXTAGS
      ensures slots == TagSlots(Proc(), if asked == 100 then alloc.alloctag else asked)
    {
      var tag := asked;
      if tag == TAGCUR { tag := alloc.alloctag; }
      slots := LibSendReport(tag);
    }
  }

  lemma {:induction false} FdSlotsPrefix(fds: seq<Fd>, tag: nat, i: nat)
    requires i <= |fds|
    ensures |FdSlots(fds[..i], tag)| <= |FdSlots(fds, tag)|
    ensures FdSlots(fds[..i], tag) <= FdSlots(fds, tag)
    decreases |fds|
  {
    if i < |fds| {
      var n := |fds| - 1;
      FdSlotsPrefix(fds[..n], tag, i);
      assert fds[..n][..i] == fds[..i];
      assert FdSlots(fds[..n], tag) <= FdSlots(fds, tag);
    } else {
      assert fds[..i] == fds;
    }
  }
}
