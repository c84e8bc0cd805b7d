// Whole runs of a tracked program: any sequence of allocator calls, payload writes and
// configuration commands from the manager.
module AllocatorRuns {
  import opened Words
  import opened Slots
  import opened Options
  import opened Allocator
  import P = Placement
  import L = IntrusiveList

  // ---------------------------------------------------------------- realloc

  /** realloc of a block that passes its checks to a non-zero size, as its two callees see it. */
  ghost predicate Moves(s: State, p: Addr, r: Request) {
    Inv(s) && RequestOk(s, r) && p in s.mem && Checks(s, p) && r.size > 0 && r.raw != 0
  }

  /** The new block is no list neighbour that is checked. */
  lemma {:induction false} ChecksAfterAlloc(s: State, p: Addr, r: Request)
    requires Inv(s) && RequestOk(s, r) && r.raw != 0 && p in s.mem && IsLive(s.mem[p])
    ensures p in Alloc(s, r).mem && (Checks(Alloc(s, r), p) <==> Checks(s, p))
  {
    AllocKeeps(s, r, p);
    AllocPuts(s, r, 0);
    if IsTracked(s.mem[p]) { FollowersKept(s, p, r); }
  }

  lemma {:induction false} FollowersKept(s: State, p: Addr, r: Request)
    requires Inv(s) && RequestOk(s, r) && r.raw != 0 && p in s.mem && IsTracked(s.mem[p])
    ensures s.mem[p].tag < MAXTAGS && |Alloc(s, r).lists| == MAXTAGS
    ensures forall n :: Follows(Alloc(s, r).lists[s.mem[p].tag], p, n) <==> Follows(s.lists[s.mem[p].tag], p, n)
    ensures forall n :: Follows(s.lists[s.mem[p].tag], p, n) ==>
              n in s.mem && n in Alloc(s, r).mem && Alloc(s, r).mem[n] == s.mem[n]
  {
    assert BlockOk(p, s.mem[p]);
    var q, l := AllocResult(s, r), s.lists[s.mem[p].tag];
    AllocPuts(s, r, s.mem[p].tag);
    AllocKeeps(s, r, p);
    forall n
      ensures Follows([q] + l, p, n) <==> Follows(l, p, n)
    {
      FollowsBehind(l, q, p, n);
    }
    forall n | Follows(l, p, n)
      ensures n in s.mem && n in Alloc(s, r).mem && Alloc(s, r).mem[n] == s.mem[n]
    {
      assert n in l;
      AllocKeeps(s, r, n);
    }
  }

  lemma AllocPuts(s: State, r: Request, tag: nat)
    requires Inv(s) && RequestOk(s, r) && r.raw != 0 && tag < MAXTAGS
    ensures |Alloc(s, r).lists| == MAXTAGS
    ensures Alloc(s, r).lists[tag] == s.lists[tag] || Alloc(s, r).lists[tag] == [AllocResult(s, r)] + s.lists[tag]
  {
  }

  lemma AllocKeeps(s: State, r: Request, n: Addr)
    requires Inv(s) && RequestOk(s, r) && r.raw != 0 && n in s.mem && IsLive(s.mem[n])
    ensures n != AllocResult(s, r) && n in Alloc(s, r).mem && Alloc(s, r).mem[n] == s.mem[n]
    ensures Alloc(s, r).cfg == s.cfg
  {
    NewBlockOk(s, r);
  }

  lemma FollowsBehind(l: seq<Addr>, q: Addr, p: Addr, n: Addr)
    requires p != q
    ensures Follows([q] + l, p, n) <==> Follows(l, p, n)
  {
    var l' := [q] + l;
    if Follows(l, p, n) {
      var k :| 0 <= k && k + 1 < |l| && l[k] == p && l[k + 1] == n;
      assert l'[k + 1] == p && l'[k + 2] == n;
    }
    if Follows(l', p, n) {
      var k :| 0 <= k && k + 1 < |l'| && l'[k] == p && l'[k + 1] == n;
      assert l[k - 1] == p && l[k] == n;
    }
  }

  /** The two states inside a successful realloc: after the allocation, and after the copy. */
  lemma ReallocStages(s: State, p: Addr, r: Request) returns (s1: State, s2: State, q: Addr)
    requires Inv(s) && RequestOk(s, r) && p in s.mem && IsLive(s.mem[p]) && r.size > 0 && r.raw != 0
    ensures q == AllocResult(s, r) && s1 == Alloc(s, r) && Inv(s1) && Inv(s2)
    ensures Added(s.mem, s1.mem, q) && q != p && s1.mem[q] == NewBlock(s.cfg, r)
    ensures IsTracked(s1.mem[q]) <==> s.cfg.tracking
    ensures |s1.mem[p].data| == s1.mem[p].size && r.size <= |s1.mem[q].data|
    ensures s2 == MoveData(s1, p, q, r.size) && s2.mem[p] == s.mem[p]
  {
    AllocPreserves(s, r);
    AllocAdds(s, r);
    NewBlockOk(s, r);
    q, s1 := AllocResult(s, r), Alloc(s, r);
    assert BlockOk(p, s1.mem[p]);
    s2 := MoveData(s1, p, q, r.size);
    DataPreserves(s1, q, s2.mem[q].data);
  }

  /** The outcome of a successful realloc: the copy made in `s1`, and the old block freed. */
  lemma ReallocOutcome(s: State, p: Addr, r: Request, trace: seq<Word>) returns (s1: State, s2: State, s3: State, q: Addr)
    requires Moves(s, p, r)
    ensures q == AllocResult(s, r) && s1 == Alloc(s, r) && Added(s.mem, s1.mem, q) && q != p
    ensures s1.mem[q] == NewBlock(s.cfg, r) && (IsTracked(s1.mem[q]) <==> s.cfg.tracking)
    ensures |s1.mem[p].data| == s1.mem[p].size && r.size <= |s1.mem[q].data|
    ensures s2 == MoveData(s1, p, q, r.size) && Inv(s2) && s2.mem[p] == s.mem[p]
    ensures Free(s2, p, trace) == Some(s3) && Inv(s3)
    ensures s3.mem == s2.mem[p := FreedBlock(s2.cfg, s2.mem[p], trace)]
    ensures Realloc(s, p, r, trace) == Some((s3, q))
    ensures Live(s3.mem) == Live(s2.mem) - {p}
  {
    s1, s2, q := StillChecks(s, p, r);
    FreePreserves(s2, p, trace);
    s3 := Free(s2, p, trace).value;
    assert BlockOk(p, s.mem[p]);
  }

  lemma StillChecks(s: State, p: Addr, r: Request) returns (s1: State, s2: State, q: Addr)
    requires Moves(s, p, r)
    ensures q == AllocResult(s, r) && s1 == Alloc(s, r) && Added(s.mem, s1.mem, q) && q != p
    ensures s1.mem[q] == NewBlock(s.cfg, r) && (IsTracked(s1.mem[q]) <==> s.cfg.tracking)
    ensures |s1.mem[p].data| == s1.mem[p].size && r.size <= |s1.mem[q].data|
    ensures s2 == MoveData(s1, p, q, r.size) && Inv(s2) && s2.mem[p] == s.mem[p] && Checks(s2, p)
  {
    s1, s2, q := ReallocStages(s, p, r);
    ChecksAfterAlloc(s, p, r);
    ChecksAfterCopy(s1, q, s2.mem[q].data, p);
  }

  lemma ChecksAfterCopy(s: State, q: Addr, data: seq<Byte>, p: Addr)
    requires q in s.mem && p in s.mem && |s.lists| == MAXTAGS
    ensures Checks(WithData(s, q, data), p) <==> Checks(s, p)
  {
  }

  /** A realloc whose allocation fails changes nothing. */
  lemma ReallocFailure(s: State, p: Addr, r: Request, trace: seq<Word>)
    requires Inv(s) && RequestOk(s, r) && p in s.mem && IsLive(s.mem[p]) && r.size > 0 && r.raw == 0
    requires s.cfg.validate ==> s.mem[p].trailer == MAGIC1
    ensures Realloc(s, p, r, trace) == Some((s, 0))
  {
    assert BlockOk(p, s.mem[p]);
  }

  /** Otherwise the old block is released, a new one takes its place, and the invariant holds. */
  lemma ReallocPreserves(s: State, p: Addr, r: Request, trace: seq<Word>)
    requires Moves(s, p, r)
    ensures Realloc(s, p, r, trace).Some?
    ensures Inv(Realloc(s, p, r, trace).value.0)
    ensures Live(Realloc(s, p, r, trace).value.0.mem) == Live(s.mem) + {AllocResult(s, r)} - {p}
    ensures Realloc(s, p, r, trace).value.1 == AllocResult(s, r)
    ensures TrailersOk(s.mem) ==> TrailersOk(Realloc(s, p, r, trace).value.0.mem)
  {
    var s1, s2, s3, q := ReallocOutcome(s, p, r, trace);
    LiveAfterCopy(s.mem, s1.mem, s2.mem, q);
    if TrailersOk(s.mem) {
      AllocPreserves(s, r);
      TrailersAfter(s1.mem, s2.mem, s3.mem, p, q);
    }
  }

  lemma TrailersAfter(mem1: map<Addr, Block>, mem2: map<Addr, Block>, mem3: map<Addr, Block>, p: Addr, q: Addr)
    requires TrailersOk(mem1) && q in mem1 && q in mem2 && mem2 == mem1[q := mem1[q].(data := mem2[q].data)]
    requires p in mem2 && p in mem3 && mem3 == mem2[p := mem3[p]] && !IsLive(mem3[p])
    ensures TrailersOk(mem3)
  {
  }

  lemma LiveAfterCopy(mem: map<Addr, Block>, mem1: map<Addr, Block>, mem2: map<Addr, Block>, q: Addr)
    requires Added(mem, mem1, q)
    requires q in mem2 && mem2 == mem1[q := mem2[q]] && mem2[q].magic == mem1[q].magic
    ensures Live(mem2) == Live(mem) + {q}
  {
  }

  /** The new block: its first min(old, new) bytes are those of the old one, the others what malloc handed
      out, and its header that of any new block. */
  lemma ReallocData(s: State, p: Addr, r: Request, trace: seq<Word>)
    requires Moves(s, p, r)
    ensures Realloc(s, p, r, trace).Some?
    ensures var (s', q), n := Realloc(s, p, r, trace).value, Min(s.mem[p].size, r.size);
            && q != p && q in s'.mem && |s.mem[p].data| == s.mem[p].size && n <= |s'.mem[q].data|
            && s'.mem[q].data[..n] == s.mem[p].data[..n]
            && (forall i :: n <= i < |s'.mem[q].data| ==> s'.mem[q].data[i] == if r.zero then 0 else r.junk[i])
            && exists b :: NewContents(b, s.cfg, q, r.size, r.zero, r.raw, r.junk, r.callers)
                        && s'.mem[q] == b.(data := s'.mem[q].data)
  {
    var b, n := NewBlock(s.cfg, r), Min(s.mem[p].size, r.size);
    var s', q := MovedBlock(s, p, r, trace);
    NewBlockIs(s, r);
    CopiedBytes(s.mem[p].data, b.data, n);
    assert s'.mem[q] == b.(data := s'.mem[q].data);
  }

  /** The new block is the one allocated, with the bytes copied. */
  lemma MovedBlock(s: State, p: Addr, r: Request, trace: seq<Word>) returns (s': State, q: Addr)
    requires Moves(s, p, r)
    ensures Realloc(s, p, r, trace) == Some((s', q)) && q != p && q in s'.mem && q == AllocResult(s, r)
    ensures var b, n := NewBlock(s.cfg, r), Min(s.mem[p].size, r.size);
            && n <= |s.mem[p].data| == s.mem[p].size && n <= |b.data|
            && s'.mem[q] == b.(data := Copied(s.mem[p].data, b.data, n))
  {
    var s1, s2;
    s1, s2, s', q := ReallocOutcome(s, p, r, trace);
    assert BlockOk(p, s.mem[p]);
  }

  lemma CopiedBytes(from: seq<Byte>, to: seq<Byte>, n: nat)
    requires n <= |from| && n <= |to|
    ensures Copied(from, to, n)[..n] == from[..n]
    ensures forall i :: n <= i < |to| ==> Copied(from, to, n)[i] == to[i]
  {
  }

  /** The old block is left as free leaves it, and every other live block as it was. */
  lemma ReallocOld(s: State, p: Addr, r: Request, trace: seq<Word>)
    requires Moves(s, p, r)
    ensures Realloc(s, p, r, trace).Some?
    ensures var s' := Realloc(s, p, r, trace).value.0;
            && s'.cfg == s.cfg && p in s'.mem && FreedContents(s.mem[p], s'.mem[p], s.cfg, trace)
            && forall a :: a in s.mem && IsLive(s.mem[a]) && a != p ==> a in s'.mem && s'.mem[a] == s.mem[a]
  {
    var s1, s2, s3, q := ReallocOutcome(s, p, r, trace);
    FreedIs(s.cfg, s.mem[p], trace);
    OthersKept(s.mem, s1.mem, s2.mem, s3.mem, p, q);
  }

  lemma OthersKept(mem: map<Addr, Block>, mem1: map<Addr, Block>, mem2: map<Addr, Block>, mem3: map<Addr, Block>,
                   p: Addr, q: Addr)
    requires Added(mem, mem1, q) && q in mem2 && mem2 == mem1[q := mem2[q]]
    requires p in mem3 && mem3 == mem2[p := mem3[p]]
    ensures forall a :: a in mem && IsLive(mem[a]) && a != p ==> a in mem3 && mem3[a] == mem[a]
  {
  }

  /** When realloc dumps core: a check of the old block fails, or once it is to be freed that of its
      neighbour. */
  lemma {:induction false} ReallocExactly(s: State, p: Addr, r: Request, trace: seq<Word>)
    requires Inv(s) && RequestOk(s, r) && p in s.mem && p != 0
    ensures r.size == 0 || r.raw != 0 ==> (Realloc(s, p, r, trace).Some? <==> Checks(s, p))
    ensures r.size > 0 && r.raw == 0 ==>
              (Realloc(s, p, r, trace).Some? <==>
               IsLive(s.mem[p]) && (s.cfg.validate ==> s.mem[p].trailer == MAGIC1))
  {
    assert BlockOk(p, s.mem[p]);
    FreeExactly(s, p, trace);
    if r.size > 0 && r.raw != 0 && Verifies(s, p) {
      ReallocNeedsChecks(s, p, r, trace);
    }
  }

  lemma {:induction false} ReallocNeedsChecks(s: State, p: Addr, r: Request, trace: seq<Word>)
    requires Inv(s) && RequestOk(s, r) && p in s.mem && Verifies(s, p) && r.size > 0 && r.raw != 0 && p != 0
    ensures Realloc(s, p, r, trace).Some? <==> Checks(s, p)
  {
    AllocPreserves(s, r);
    AllocAdds(s, r);
    NewBlockOk(s, r);
    ChecksAfterAlloc(s, p, r);
    var q, s1 := AllocResult(s, r), Alloc(s, r);
    assert BlockOk(p, s1.mem[p]);
    var s2 := MoveData(s1, p, q, r.size);
    ChecksAfterCopy(s1, q, s2.mem[q].data, p);
    DataPreserves(s1, q, s2.mem[q].data);
    FreeExactly(s2, p, trace);
  }

  /** realloc of NULL is malloc, and realloc to nothing is free and answers NULL. */
  lemma ReallocEdges(s: State, p: Addr, r: Request, trace: seq<Word>)
    requires Inv(s) && RequestOk(s, r) && (p == 0 || p in s.mem)
    ensures p == 0 ==> Realloc(s, p, r, trace) == Some((Alloc(s, r), if r.raw == 0 then 0 else AllocResult(s, r)))
    ensures p != 0 && r.size == 0 && Checks(s, p) ==>
              && Realloc(s, p, r, trace).Some? && Realloc(s, p, r, trace).value.1 == 0
              && Free(s, p, trace).Some? && Realloc(s, p, r, trace).value.0 == Free(s, p, trace).value
              && Live(Realloc(s, p, r, trace).value.0.mem) == Live(s.mem) - {p}
  {
    if p != 0 && r.size == 0 && Checks(s, p) { FreePreserves(s, p, trace); }
  }

  /** The old size leaves the old tag's total, the new size enters the current tag's. */
  lemma ReallocTotals(s: State, p: Addr, r: Request, trace: seq<Word>)
    requires Moves(s, p, r)
    ensures Realloc(s, p, r, trace).Some?
    ensures var s', b, size := Realloc(s, p, r, trace).value.0, s.mem[p], P.TrxAlign(r.size);
            && s'.curalloc == s.curalloc - b.size + size
            && |s'.totals| == |s.totals| == MAXTAGS
            && forall t :: 0 <= t < MAXTAGS ==>
                 s'.totals[t] == s.totals[t] - (if IsTracked(b) && b.tag == t then b.size else 0)
                               + (if s.cfg.tracking && s.cfg.alloctag == t then size else 0)
  {
    var s1, s2, s3, q := ReallocOutcome(s, p, r, trace);
    assert BlockOk(p, s.mem[p]);
  }

  // ---------------------------------------------------------------- events

  datatype Event =
    | SetFlags(tracking: bool, validate: bool, poison: bool)
    | SetTag(tag: nat)
    | ChangeTag(inc: int)
    | Malloc(r: Request)
    | FreePtr(p: Addr, trace: seq<Word>)
    | ReallocPtr(p: Addr, r: Request, trace: seq<Word>)
    | Write(p: Addr, at: nat, byte: Byte)

  /** changeTag: the tag stays put rather than leave 0..255. */
  function ChangedTag(tag: nat, inc: int): nat
    requires inc == 1 || inc == -1
  {
    if (tag != 0 || inc != -1) && (tag != 255 || inc != 1) then tag + inc else tag
  }

  /** Its bound is one too generous: there are 255 lists, and pushing from tag 254 selects list 255. */
  lemma ChangedTagInRange(tag: nat, inc: int)
    requires tag < MAXTAGS && (inc == 1 || inc == -1)
    ensures ChangedTag(tag, inc) < MAXTAGS <==> !(tag == 254 && inc == 1)
    ensures ChangedTag(254, 1) == 255 == MAXTAGS
  {
  }

  /** The pointers passed are NULL or have a header in memory, and the environment keeps its promises. */
  ghost predicate Callable(s: State, e: Event) {
    match e
    case SetFlags(_, _, _) => true
    case SetTag(tag) => tag < MAXTAGS
    case ChangeTag(inc) => (inc == 1 || inc == -1) && ChangedTag(s.cfg.alloctag, inc) < MAXTAGS
    case Malloc(r) => RequestOk(s, r)
    case FreePtr(p, _) => p == 0 || p in s.mem
    case ReallocPtr(p, r, _) => (p == 0 || p in s.mem) && RequestOk(s, r) && !r.zero
    case Write(p, at, _) => p in s.mem && at < s.mem[p].size
  }

  /** The program only uses pointers to live blocks. */
  ghost predicate Proper(s: State, e: Event) {
    Callable(s, e) &&
    match e
    case FreePtr(p, _) => p == 0 || IsLive(s.mem[p])
    case ReallocPtr(p, _, _) => p == 0 || IsLive(s.mem[p])
    case Write(p, _, _) => IsLive(s.mem[p])
    case _ => true
  }

  /** None when the call dumps core. */
  ghost function Step(s: State, e: Event): Option<State>
    requires Inv(s) && Callable(s, e)
  {
    match e
    case SetFlags(tracking, validate, poison) =>
      Some(s.(cfg := Config(tracking, validate, poison, s.cfg.alloctag)))
    case SetTag(tag) => Some(s.(cfg := s.cfg.(alloctag := tag)))
    case ChangeTag(inc) => Some(s.(cfg := s.cfg.(alloctag := ChangedTag(s.cfg.alloctag, inc))))
    case Malloc(r) => Some(Alloc(s, r))
    case FreePtr(p, trace) =>
      TagInRange(s, p);
      Free(s, p, trace)
    case ReallocPtr(p, r, trace) =>
      (match Realloc(s, p, r, trace)
       case None => None
       case Some((s', _)) => Some(s'))
    case Write(p, at, byte) =>
      TagInRange(s, p);
      Some(WithData(s, p, s.mem[p].data[at := byte]))
  }

  /** The invariant, and no payload overrun. */
  ghost predicate Intact(s: State) {
    Inv(s) && TrailersOk(s.mem)
  }

  lemma FreeGoes(s: State, p: Addr, trace: seq<Word>)
    requires Intact(s) && p in s.mem && IsLive(s.mem[p])
    ensures Checks(s, p) && Free(s, p, trace).Some? && Intact(Free(s, p, trace).value)
  {
    FreeSucceeds(s, p, trace);
    FreePreserves(s, p, trace);
  }

  lemma TagInRange(s: State, p: Addr)
    requires Inv(s)
    ensures p in s.mem ==> BlockOk(p, s.mem[p])
  {
  }

  /** No false alarms: a proper call never dumps core, and it keeps the invariant. */
  lemma StepIsSafe(s: State, e: Event)
    requires Intact(s) && Proper(s, e)
    ensures Step(s, e).Some? && Intact(Step(s, e).value)
  {
    match e
    case Malloc(r) => AllocPreserves(s, r);
    case FreePtr(p, trace) => if p != 0 { FreeGoes(s, p, trace); }
    case ReallocPtr(p, r, trace) =>
      if p == 0 {
        AllocPreserves(s, r);
      } else {
        FreeGoes(s, p, trace);
        if r.size == 0 { ReallocEdges(s, p, r, trace); }
        else if r.raw == 0 { ReallocFailure(s, p, r, trace); }
        else { ReallocPreserves(s, p, r, trace); }
      }
    case Write(p, at, byte) =>
      TagInRange(s, p);
      DataPreserves(s, p, s.mem[p].data[at := byte]);
    case _ =>
  }

  // ---------------------------------------------------------------- runs

  /** A run of a tracked program that uses only pointers to live blocks, from the start of the process.
      What follows a state outside the invariant is left open; EveryReachableState shows there is none. */
  ghost predicate Run(states: seq<State>, events: seq<Event>) {
    && |states| == |events| + 1
    && states[0].cfg.alloctag < MAXTAGS && states[0] == Initial(states[0].cfg)
    && forall i :: 0 <= i < |events| ==> RunStep(states, events, i)
  }

  ghost predicate RunStep(states: seq<State>, events: seq<Event>, i: nat)
    requires i + 1 < |states| && i < |events|
  {
    Intact(states[i]) ==> Proper(states[i], events[i]) && Step(states[i], events[i]) == Some(states[i + 1])
  }

  /** The invariant holds in every state of every run, whatever is switched mid-run. */
  lemma {:induction false} EveryReachableState(states: seq<State>, events: seq<Event>, i: nat)
    requires Run(states, events) && i < |states|
    ensures Intact(states[i])
    decreases i
  {
    if i == 0 {
      InitialState(states[0].cfg);
    } else {
      EveryReachableState(states, events, i - 1);
      assert RunStep(states, events, i - 1);
      StepIsSafe(states[i - 1], events[i - 1]);
    }
  }

  /** One step of a run, with the invariant on both sides. */
  lemma RunStepAt(states: seq<State>, events: seq<Event>, i: nat)
    requires Run(states, events) && i < |events|
    ensures Intact(states[i]) && Intact(states[i + 1])
    ensures Proper(states[i], events[i]) && Step(states[i], events[i]) == Some(states[i + 1])
  {
    EveryReachableState(states, events, i);
    EveryReachableState(states, events, i + 1);
    assert RunStep(states, events, i);
  }

  /** No false alarms: from every state of every run, every proper call goes through. */
  lemma NoFalseAlarms(states: seq<State>, events: seq<Event>, i: nat, e: Event)
    requires Run(states, events) && i < |states|
    ensures Intact(states[i])
    ensures Proper(states[i], e) ==> Step(states[i], e).Some?
  {
    EveryReachableState(states, events, i);
    if Proper(states[i], e) { StepIsSafe(states[i], e); }
  }

  // ---------------------------------------------------------------- double frees

  /** The address range malloc handed out for an event covers part of the header below `p`. */
  ghost predicate ReusesHeader(s: State, e: Event, p: Addr) {
    match e
    case Malloc(r) => Covers(s, r, p)
    case ReallocPtr(q, r, _) => (q == 0 || r.size > 0) && Covers(s, r, p)
    case _ => false
  }

  ghost predicate Covers(s: State, r: Request, p: Addr)
  {
    r.raw != 0 && !HeaderClear(p, r.raw, P.TpSize(r.size, r.alignment, s.cfg.tracking))
  }

  /** A freed header that is still in memory. */
  predicate Dead(s: State, p: Addr) {
    p in s.mem && !IsLive(s.mem[p])
  }

  lemma DeadStaysDead(s: State, e: Event, p: Addr)
    requires Intact(s) && Proper(s, e) && Dead(s, p) && !ReusesHeader(s, e, p)
    ensures Step(s, e).Some? && Dead(Step(s, e).value, p)
  {
    StepIsSafe(s, e);
    match e
    case Malloc(r) => AllocKeepsDead(s, r, p);
    case ReallocPtr(q, r, trace) =>
      if q == 0 { AllocKeepsDead(s, r, p); }
      else if r.size > 0 && r.raw != 0 { ReallocKeepsDead(s, q, r, trace, p); }
    case _ =>
  }

  lemma AllocKeepsDead(s: State, r: Request, p: Addr)
    requires Inv(s) && RequestOk(s, r) && Dead(s, p) && !Covers(s, r, p)
    ensures p in Alloc(s, r).mem && Alloc(s, r).mem[p] == s.mem[p]
  {
    if r.raw != 0 { NewBlockOk(s, r); }
  }

  lemma ReallocKeepsDead(s: State, q: Addr, r: Request, trace: seq<Word>, p: Addr)
    requires Moves(s, q, r) && Dead(s, p) && !Covers(s, r, p)
    ensures var o := Realloc(s, q, r, trace); o.Some? && Dead(o.value.0, p)
  {
    AllocKeepsDead(s, r, p);
    var s1, s2, s3, n := ReallocOutcome(s, q, r, trace);
    assert IsLive(s1.mem[n]) && n != p;
  }

  /** A call with a freed pointer whose header is still in memory dumps core. */
  lemma DeadPointerAborts(s: State, p: Addr, trace: seq<Word>, r: Request)
    requires Inv(s) && Dead(s, p) && p != 0
    ensures Step(s, FreePtr(p, trace)) == None
    ensures Callable(s, ReallocPtr(p, r, trace)) ==> Step(s, ReallocPtr(p, r, trace)) == None
  {
  }

  /** Once freed, a pointer stays caught: as long as no later allocation is given its header bytes,
      freeing it again, or passing it to realloc, dumps core, in every later state of the run. */
  lemma DoubleFreeAborts(states: seq<State>, events: seq<Event>, i: nat, j: nat, p: Addr, trace: seq<Word>, r: Request)
    requires Run(states, events) && i < j < |states|
    requires events[i] == FreePtr(p, trace) && p != 0
    requires forall k :: i < k < j ==> !ReusesHeader(states[k], events[k], p)
    ensures Intact(states[j]) && p in states[j].mem
    ensures Step(states[j], FreePtr(p, trace)) == None
    ensures Callable(states[j], ReallocPtr(p, r, trace)) ==> Step(states[j], ReallocPtr(p, r, trace)) == None
  {
    HeaderStaysDead(states, events, i, j, p, trace);
    EveryReachableState(states, events, j);
    DeadPointerAborts(states[j], p, trace, r);
  }

  lemma FreedIsDead(s: State, p: Addr, trace: seq<Word>)
    requires Intact(s) && Proper(s, FreePtr(p, trace)) && p != 0
    ensures Step(s, FreePtr(p, trace)).Some? && Dead(Step(s, FreePtr(p, trace)).value, p)
  {
    FreeGoes(s, p, trace);
    FreePreserves(s, p, trace);
  }

  lemma {:induction false} HeaderStaysDead(states: seq<State>, events: seq<Event>, i: nat, j: nat, p: Addr, trace: seq<Word>)
    requires Run(states, events) && i < j < |states|
    requires events[i] == FreePtr(p, trace) && p != 0
    requires forall k :: i < k < j ==> !ReusesHeader(states[k], events[k], p)
    ensures Dead(states[j], p)
    decreases j
  {
    RunStepAt(states, events, j - 1);
    if j == i + 1 {
      FreedIsDead(states[i], p, trace);
    } else {
      HeaderStaysDead(states, events, i, j - 1, p, trace);
      DeadStaysDead(states[j - 1], events[j - 1], p);
    }
  }

  // ---------------------------------------------------------------- overruns

  /** The program writes past the payload of `p` and leaves `w` where the trailer was. */
  function Overrun(s: State, p: Addr, w: Word): State
    requires p in s.mem
  {
    s.(mem := s.mem[p := s.mem[p].(trailer := w)])
  }

  lemma OverrunBlocks(s: State, p: Addr, w: Word)
    requires Inv(s) && p in s.mem
    ensures BlocksOk(Overrun(s, p, w).mem)
  {
    var mem' := Overrun(s, p, w).mem;
    assert BlockOk(p, s.mem[p]) && BlockOk(p, mem'[p]);
    forall q, u | q in mem' && u in mem' && q != u
      ensures PairOk(q, mem'[q], u, mem'[u])
    {
      assert PairOk(q, s.mem[q], u, s.mem[u]);
    }
  }

  lemma OverrunSums(s: State, p: Addr, w: Word)
    requires SumsOk(s) && p in s.mem
    ensures SumsOk(Overrun(s, p, w))
  {
    var mem' := Overrun(s, p, w).mem;
    assert Live(mem') == Live(s.mem);
    SumFrame(s.mem, mem', Live(s.mem));
    forall t | 0 <= t < MAXTAGS
      ensures s.totals[t] == SumOf(mem', Tagged(mem', t))
    {
      assert Tagged(mem', t) == Tagged(s.mem, t);
      SumFrame(s.mem, mem', Tagged(s.mem, t));
    }
  }

  lemma OverrunKeepsInv(s: State, p: Addr, w: Word)
    requires Inv(s) && p in s.mem
    ensures Inv(Overrun(s, p, w))
  {
    OverrunBlocks(s, p, w);
    OverrunSums(s, p, w);
  }

  /** The releases that catch an overrun of `p`: while validating, its own and that of the block just
      before it on its list, and no other. */
  ghost predicate Catches(s: State, p: Addr, q: Addr)
    requires q in s.mem && |s.lists| == MAXTAGS
  {
    s.cfg.validate && (q == p || (IsTracked(s.mem[q]) && s.mem[q].tag < MAXTAGS && Follows(s.lists[s.mem[q].tag], q, p)))
  }

  /** In every state of every run, after one overrun: exactly those releases dump core, and so does a
      realloc of them that gets its memory. */
  lemma OverrunIsCaught(states: seq<State>, events: seq<Event>, i: nat, p: Addr, w: Word, q: Addr, trace: seq<Word>, r: Request)
    requires Run(states, events) && i < |states|
    requires w != MAGIC1 && q != 0
    ensures Intact(states[i])
    ensures p in states[i].mem && IsLive(states[i].mem[p]) && q in states[i].mem && IsLive(states[i].mem[q]) ==>
              var s := Overrun(states[i], p, w);
              && Inv(s) && (IsTracked(s.mem[q]) ==> s.mem[q].tag < MAXTAGS)
              && (Free(s, q, trace) == None <==> Catches(s, p, q))
              && (RequestOk(s, r) && (r.size == 0 || r.raw != 0) ==> (Realloc(s, q, r, trace) == None <==> Catches(s, p, q)))
  {
    EveryReachableState(states, events, i);
    var s0 := states[i];
    if p in s0.mem && IsLive(s0.mem[p]) && q in s0.mem && IsLive(s0.mem[q]) { CaughtExactly(s0, p, w, q, trace, r); }
  }

  lemma CaughtExactly(s0: State, p: Addr, w: Word, q: Addr, trace: seq<Word>, r: Request)
    requires Intact(s0) && w != MAGIC1 && q != 0
    requires p in s0.mem && IsLive(s0.mem[p]) && q in s0.mem && IsLive(s0.mem[q])
    ensures var s := Overrun(s0, p, w);
            && Inv(s) && (IsTracked(s.mem[q]) ==> s.mem[q].tag < MAXTAGS)
            && (Free(s, q, trace) == None <==> Catches(s, p, q))
            && (RequestOk(s, r) && (r.size == 0 || r.raw != 0) ==> (Realloc(s, q, r, trace) == None <==> Catches(s, p, q)))
  {
    var s := Overrun(s0, p, w);
    OverrunKeepsInv(s0, p, w);
    FreeExactly(s, q, trace);
    ChecksOfOverrun(s0, p, w, q);
    if RequestOk(s, r) { ReallocExactly(s, q, r, trace); }
  }

  lemma ChecksOfOverrun(s0: State, p: Addr, w: Word, q: Addr)
    requires Intact(s0) && w != MAGIC1 && p in s0.mem && IsLive(s0.mem[p]) && q in s0.mem && IsLive(s0.mem[q])
    ensures Checks(Overrun(s0, p, w), q) <==> !Catches(Overrun(s0, p, w), p, q)
  {
    var s := Overrun(s0, p, w);
    assert BlockOk(q, s0.mem[q]);
    if IsTracked(s0.mem[q]) {
      var l := s0.lists[s0.mem[q].tag];
      assert forall n :: Follows(l, q, n) ==> n in l;
      assert forall n :: n in l ==> n in s0.mem && IsLive(s0.mem[n]) && s0.mem[n].trailer == MAGIC1;
    }
  }

  // ---------------------------------------------------------------- what is handed to the real free

  /** The event returns `p`, for which the real malloc had answered `raw`. */
  ghost predicate Returns(s: State, e: Event, p: Addr, raw: Addr) {
    match e
    case Malloc(r) => r.raw == raw != 0 && r.alignment > 0 && p == AllocResult(s, r)
    case ReallocPtr(q, r, _) =>
      (q == 0 || r.size > 0) && r.raw == raw != 0 && r.alignment > 0 && p == AllocResult(s, r)
    case _ => false
  }

  /** The event gives the block at `p` up. */
  ghost predicate Releases(e: Event, p: Addr) {
    match e
    case FreePtr(q, _) => q == p
    case ReallocPtr(q, r, _) => q == p && (r.size == 0 || r.raw != 0)
    case _ => false
  }

  ghost predicate HoldsRaw(s: State, p: Addr, raw: Addr) {
    p != 0 && p in s.mem && IsLive(s.mem[p]) && p - s.mem[p].offset == raw
  }

  lemma ReturnedHoldsRaw(s: State, e: Event, p: Addr, raw: Addr)
    requires Intact(s) && Proper(s, e) && Returns(s, e, p, raw)
    ensures Step(s, e).Some? && HoldsRaw(Step(s, e).value, p, raw)
  {
    match e
    case Malloc(r) => AllocPreserves(s, r);
    case ReallocPtr(q, r, trace) => if q == 0 { AllocPreserves(s, r); } else { MovedHoldsRaw(s, q, r, trace, p); }
    case _ =>
  }

  lemma MovedHoldsRaw(s: State, q: Addr, r: Request, trace: seq<Word>, p: Addr)
    requires Moves(s, q, r) && p == AllocResult(s, r)
    ensures var o := Realloc(s, q, r, trace); o.Some? && HoldsRaw(o.value.0, p, r.raw)
  {
    var s1, s2, s3, n := ReallocOutcome(s, q, r, trace);
    NewBlockOk(s, r);
  }

  lemma MoveKeepsHeld(s: State, q: Addr, r: Request, trace: seq<Word>, p: Addr, raw: Addr)
    requires Moves(s, q, r) && HoldsRaw(s, p, raw) && p != q
    ensures var o := Realloc(s, q, r, trace); o.Some? && HoldsRaw(o.value.0, p, raw)
  {
    var s1, s2, s3, n := ReallocOutcome(s, q, r, trace);
  }

  lemma FreeKeepsHeld(s: State, q: Addr, trace: seq<Word>, p: Addr, raw: Addr)
    requires Intact(s) && q in s.mem && IsLive(s.mem[q]) && HoldsRaw(s, p, raw) && p != q
    ensures Free(s, q, trace).Some? && HoldsRaw(Free(s, q, trace).value, p, raw)
  {
    FreeGoes(s, q, trace);
    FreePreserves(s, q, trace);
  }

  lemma HeldStaysHeld(s: State, e: Event, p: Addr, raw: Addr)
    requires Intact(s) && Proper(s, e) && HoldsRaw(s, p, raw) && !Releases(e, p)
    ensures Step(s, e).Some? && HoldsRaw(Step(s, e).value, p, raw)
  {
    match e
    case Malloc(r) => AllocPreserves(s, r);
    case FreePtr(q, trace) => if q != 0 { FreeKeepsHeld(s, q, trace, p, raw); }
    case ReallocPtr(q, r, trace) =>
      if q == 0 { AllocPreserves(s, r); }
      else if r.size == 0 { FreeKeepsHeld(s, q, trace, p, raw); }
      else if r.raw == 0 { ReallocFailure(s, q, r, trace); }
      else { MoveKeepsHeld(s, q, r, trace, p, raw); }
    case _ =>
  }

  /** A pointer returned by malloc, memalign or realloc and not given up since still leads to the
      address the real malloc returned for it: that is what free hands to the real free. */
  lemma {:induction false} RawPointerRoundTrip(states: seq<State>, events: seq<Event>, i: nat, j: nat, p: Addr, raw: Addr)
    requires Run(states, events) && i < j < |states|
    requires Returns(states[i], events[i], p, raw)
    requires forall k :: i < k < j ==> !Releases(events[k], p)
    ensures Intact(states[j]) && HoldsRaw(states[j], p, raw)
    decreases j
  {
    RunStepAt(states, events, j - 1);
    if j == i + 1 {
      ReturnedHoldsRaw(states[i], events[i], p, raw);
    } else {
      RawPointerRoundTrip(states, events, i, j - 1, p, raw);
      HeldStaysHeld(states[j - 1], events[j - 1], p, raw);
    }
  }

  // ---------------------------------------------------------------- the record model of memory

  /** A byte of a live block's payload is no byte of any header in memory, of any live trailer, nor
      of any other live payload: writing payloads cannot disturb what verify looks at. */
  lemma PayloadIsPrivate(s: State, p: Addr, q: Addr, a: int)
    requires Inv(s) && p in s.mem && q in s.mem && IsLive(s.mem[p])
    requires P.Within(a, p, s.mem[p].size)
    ensures !P.Within(a, q - P.PLAIN_HEADER, P.PLAIN_HEADER)
    ensures IsLive(s.mem[q]) ==> !P.Within(a, q + s.mem[q].size, P.TRAILER)
    ensures IsLive(s.mem[q]) && p != q ==> !P.Within(a, q, s.mem[q].size)
    ensures IsLive(s.mem[q]) && IsTracked(s.mem[q]) ==> !P.Within(a, q - P.TRACKED_HEADER, P.TRACKED_HEADER)
  {
    assert BlockOk(p, s.mem[p]) && BlockOk(q, s.mem[q]);
    if p != q { assert PairOk(q, s.mem[q], p, s.mem[p]); }
  }

  // ---------------------------------------------------------------- no counter overflows

  function RawBytes(p: Addr, b: Block): set<int>
    requires b.offset < p
  {
    P.Bytes(p - b.offset, b.tpsize)
  }

  lemma {:induction false} RangeSize(at: int, n: nat)
    ensures |P.Bytes(at, n)| == n
  {
    if n > 0 {
      RangeSize(at, n - 1);
      assert P.Bytes(at, n) == P.Bytes(at, n - 1) + {at + n - 1};
      assert !P.Within(at + n - 1, at, n - 1);
    } else {
      assert P.Bytes(at, 0) == {};
    }
  }

  lemma RawBlocksApart(mem: map<Addr, Block>, q: Addr, p: Addr)
    requires BlocksOk(mem) && p in Live(mem) && q in Live(mem) && p != q
    requires mem[q].offset < q && mem[p].offset < p
    ensures RawBytes(q, mem[q]) !! RawBytes(p, mem[p])
  {
    assert PairOk(q, mem[q], p, mem[p]);
    forall a | a in RawBytes(q, mem[q])
      ensures a !in RawBytes(p, mem[p])
    {
      assert P.Within(a, q - mem[q].offset, mem[q].tpsize);
      assert !P.Within(a, p - mem[p].offset, mem[p].tpsize);
    }
  }

  /** The raw blocks of a set of live blocks fit side by side among the addresses `free`. */
  lemma {:induction false} BlocksFit(mem: map<Addr, Block>, ps: set<Addr>, free: set<int>)
    requires BlocksOk(mem) && ps <= Live(mem)
    requires forall p :: p in ps ==> mem[p].offset < p && RawBytes(p, mem[p]) <= free
    ensures SumOf(mem, ps) <= |free|
    decreases ps
  {
    if ps != {} {
      var p :| p in ps;
      var own := RawBytes(p, mem[p]);
      forall q | q in ps - {p}
        ensures RawBytes(q, mem[q]) <= free - own
      {
        RawBlocksApart(mem, q, p);
      }
      BlocksFit(mem, ps - {p}, free - own);
      SumRemove(mem, ps, p);
      OwnBytes(mem, p);
      SplitSize(free, own);
    }
  }

  lemma OwnBytes(mem: map<Addr, Block>, p: Addr)
    requires BlocksOk(mem) && p in Live(mem) && mem[p].offset < p
    ensures mem[p].size <= |RawBytes(p, mem[p])|
  {
    assert BlockOk(p, mem[p]);
    RangeSize(p - mem[p].offset, mem[p].tpsize);
  }

  lemma SplitSize(all: set<int>, part: set<int>)
    requires part <= all
    ensures |all| == |all - part| + |part|
  {
    assert all == (all - part) + part;
  }

  /** The count of live bytes never wraps in its 32 bits, because live blocks lie side by side in the
      address space.  A tag's total is never more, but the code keeps it in an `int`, which holds it
      modulo 2^32: from 2^31 on it is negative. */
  lemma CountersFit(s: State)
    requires Inv(s)
    ensures 0 <= s.curalloc < WORD_MODULUS
    ensures forall t :: 0 <= t < MAXTAGS ==>
              && 0 <= s.totals[t] <= s.curalloc
              && Uint32(Int32(s.totals[t])) == s.totals[t]
              && (Int32(s.totals[t]) < 0 <==> s.totals[t] >= 0x8000_0000)
  {
    LiveBytesFit(s);
    forall t | 0 <= t < MAXTAGS
      ensures 0 <= s.totals[t] <= s.curalloc
      ensures Uint32(Int32(s.totals[t])) == s.totals[t] && (Int32(s.totals[t]) < 0 <==> s.totals[t] >= 0x8000_0000)
    {
      TotalIsPart(s, t);
      HeldByInt(s.totals[t]);
    }
  }

  lemma TotalIsPart(s: State, t: nat)
    requires Inv(s) && t < MAXTAGS
    ensures 0 <= s.totals[t] <= s.curalloc
  {
    SumMonotone(s.mem, {}, Tagged(s.mem, t));
    SumMonotone(s.mem, Tagged(s.mem, t), Live(s.mem));
  }

  lemma HeldByInt(w: Word)
    ensures Uint32(Int32(w)) == w && (Int32(w) < 0 <==> w >= 0x8000_0000)
  {
    Uint32Absorbs(0, w);
  }

  lemma LiveBytesFit(s: State)
    requires Inv(s)
    ensures 0 <= s.curalloc < WORD_MODULUS
  {
    var all := P.Bytes(1, WORD_MODULUS - 1);
    RangeSize(1, WORD_MODULUS - 1);
    forall p | p in Live(s.mem)
      ensures s.mem[p].offset < p && RawBytes(p, s.mem[p]) <= all
    {
      assert BlockOk(p, s.mem[p]);
      forall a | a in RawBytes(p, s.mem[p])
        ensures a in all
      {
        assert P.Within(a, p - s.mem[p].offset, s.mem[p].tpsize);
        assert P.Within(a, 1, WORD_MODULUS - 1);
      }
    }
    BlocksFit(s.mem, Live(s.mem), all);
    SumMonotone(s.mem, {}, Live(s.mem));
  }

  lemma {:induction false} SumMonotone(mem: map<Addr, Block>, ps: set<Addr>, qs: set<Addr>)
    requires ps <= qs <= mem.Keys
    ensures SumOf(mem, ps) <= SumOf(mem, qs)
    decreases qs
  {
    if ps != qs {
      var p :| p in qs && p !in ps;
      SumRemove(mem, qs, p);
      SumMonotone(mem, ps, qs - {p});
    }
  }
}
