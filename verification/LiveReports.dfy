// What a plain report and a report relative to a snapshot say about the states of a run: the lines
// printed in terms of what the process holds (trxlib.c:144-219, trxmgrClient.c:334-413).
module LiveReports {
  import opened Words
  import opened Slots
  import opened Options
  import opened Allocator
  import opened CallTree
  import opened Report
  import opened ProcessReport

  // ---------------------------------------------------------------- shown prefixes, stack by stack

  /** The stack has the callers of `path` down to some level, and there it ends. */
  predicate EndsWithin(t: Trace, path: seq<Word>)
    requires |path| <= MAXCALLERS
  {
    exists d :: 0 <= d < |path| && path[..d] <= t && t[d] == 0
  }

  ghost predicate Clear(v: seq<Slot>, path: seq<Word>)
    requires |path| <= MAXCALLERS
  {
    forall k :: 0 <= k < |v| ==> !EndsWithin(v[k].callers, path)
  }

  lemma ShownWhenClear(v: seq<Slot>, path: seq<Word>)
    ensures Shown(v, path) <==> 0 < |path| <= MAXCALLERS && Occurs(v, path) && Clear(v, path)
  {
    if 0 < |path| <= MAXCALLERS {
      if Shown(v, path) {
        forall k | 0 <= k < |v|
          ensures !EndsWithin(v[k].callers, path)
        {
          forall d | 0 <= d < |path| && path[..d] <= v[k].callers
            ensures v[k].callers[d] != 0
          {
            assert !Blocked(v, path[..d]);
          }
        }
      }
      if Clear(v, path) {
        forall d | 0 <= d < |path|
          ensures !Blocked(v, path[..d])
        {
          forall k | 0 <= k < |v| && path[..d] <= v[k].callers
            ensures v[k].callers[d] != 0
          {
            assert !EndsWithin(v[k].callers, path);
          }
        }
      }
    }
  }

  lemma ClearOfBoth(a: seq<Slot>, b: seq<Slot>, path: seq<Word>)
    requires |path| <= MAXCALLERS
    ensures Clear(a + b, path) <==> Clear(a, path) && Clear(b, path)
  {
    if Clear(a + b, path) {
      forall k | 0 <= k < |a|
        ensures !EndsWithin(a[k].callers, path)
      {
        assert (a + b)[k] == a[k];
      }
      forall k | 0 <= k < |b|
        ensures !EndsWithin(b[k].callers, path)
      {
        assert (a + b)[|a| + k] == b[k];
      }
    }
  }

  lemma {:induction false} NothingUnder(v: seq<Slot>, path: seq<Word>)
    requires !Occurs(v, path)
    ensures SumUnder(v, path) == 0
  {
    if v != [] {
      assert !(path <= v[|v| - 1].callers);
      NothingUnder(v[..|v| - 1], path);
    }
  }

  ghost predicate Ascend(paths: seq<seq<Word>>) {
    forall i, j :: 0 <= i < j < |paths| ==> Less(paths[i], paths[j])
  }

  /** For every sorting of a vector: the lines tell, in order, of exactly the prefixes within which no
      stack ends and whose sum, as an int, is positive; each line gives that sum. */
  lemma {:induction false} LinesOfVector(v: seq<Slot>, slots: seq<Slot>) returns (paths: seq<seq<Word>>)
    requires SortedPermutation(v, slots) && v != []
    ensures var lines := Printed(Visit(v, 0, 0, |v|), false);
            && |lines| == |paths| && Ascend(paths)
            && (forall p :: p in paths <==> 0 < |p| <= MAXCALLERS && Clear(slots, p) && Int32(SumUnder(slots, p)) > 0)
            && forall k :: 0 <= k < |lines| ==> Tells(lines[k], v, paths[k], Int32(SumUnder(slots, paths[k])))
  {
    paths := LinesAreExact(v);
    forall p
      ensures p in paths <==> 0 < |p| <= MAXCALLERS && Clear(slots, p) && Int32(SumUnder(slots, p)) > 0
    {
      ShownPermutes(v, slots, p);
      ShownWhenClear(slots, p);
      SumUnderPermutes(v, slots, p);
      if !Occurs(slots, p) { NothingUnder(slots, p); }
    }
    forall k | 0 <= k < |paths|
      ensures SumUnder(v, paths[k]) == SumUnder(slots, paths[k])
    {
      SumUnderPermutes(v, slots, paths[k]);
    }
  }

  // ---------------------------------------------------------------- what the process holds

  /** A block live under the tag, or a descriptor open under it, was obtained with this stack. */
  ghost predicate HoldsStack(p: Process, tag: nat, t: Trace) {
    || (exists a :: a in Tagged(p.s.mem, tag) && p.s.mem[a].callers == t)
    || (exists i :: i in OpenFds(p.fds, tag) && p.fds[i].opener + [0, 0, 0, 0] == t)
  }

  /** None of those stacks ends within the path. */
  ghost predicate OpenPath(p: Process, tag: nat, path: seq<Word>)
    requires |path| <= MAXCALLERS
  {
    forall t :: HoldsStack(p, tag, t) ==> !EndsWithin(t, path)
  }

  ghost predicate InSlots(v: seq<Slot>, t: Trace) {
    exists k :: 0 <= k < |v| && v[k].callers == t
  }

  lemma {:induction false} StacksOfBlocks(mem: map<Addr, Block>, l: seq<Addr>, t: Trace)
    requires forall p :: p in l ==> p in mem
    ensures InSlots(BlockSlots(mem, l), t) <==> exists a :: a in l && mem[a].callers == t
  {
    if l != [] {
      var n := |l| - 1;
      StacksOfBlocks(mem, l[..n], t);
      InSlotsSnoc(BlockSlots(mem, l[..n]), BlockSlot(mem[l[n]]), t);
      assert l == l[..n] + [l[n]];
    }
  }

  lemma {:induction false} StacksOfFds(fds: seq<Fd>, tag: nat, t: Trace)
    ensures InSlots(FdSlots(fds, tag), t) <==> exists i :: i in OpenFds(fds, tag) && FdSlot(fds[i]).callers == t
  {
    if fds != [] {
      var n := |fds| - 1;
      StacksOfFds(fds[..n], tag, t);
      assert forall i :: i in OpenFds(fds, tag) <==> i in OpenFds(fds[..n], tag) || (i == n && OpenUnder(fds[n], tag));
      if OpenUnder(fds[n], tag) {
        InSlotsSnoc(FdSlots(fds[..n], tag), FdSlot(fds[n]), t);
      } else {
        assert FdSlots(fds[..n], tag) + [] == FdSlots(fds[..n], tag);
      }
    }
  }

  lemma InSlotsSnoc(v: seq<Slot>, s: Slot, t: Trace)
    ensures InSlots(v + [s], t) <==> InSlots(v, t) || s.callers == t
  {
    InSlotsAppend(v, [s], t);
    if s.callers == t { assert [s][0].callers == t; }
  }

  lemma InSlotsAppend(a: seq<Slot>, b: seq<Slot>, t: Trace)
    ensures InSlots(a + b, t) <==> InSlots(a, t) || InSlots(b, t)
  {
    if InSlots(a, t) {
      var k :| 0 <= k < |a| && a[k].callers == t;
      assert (a + b)[k].callers == t;
    }
    if InSlots(b, t) {
      var k :| 0 <= k < |b| && b[k].callers == t;
      assert (a + b)[|a| + k].callers == t;
    }
  }

  lemma StacksOfSlots(p: Process, tag: nat, t: Trace)
    requires Inv(p.s) && tag < MAXTAGS
    ensures InSlots(TagSlots(p, tag), t) <==> HoldsStack(p, tag, t)
  {
    StacksOfBlocks(p.s.mem, p.s.lists[tag], t);
    StacksOfFds(p.fds, tag, t);
    InSlotsAppend(BlockSlots(p.s.mem, p.s.lists[tag]), FdSlots(p.fds, tag), t);
  }

  lemma ClearWhenOpen(p: Process, tag: nat, path: seq<Word>)
    requires Inv(p.s) && tag < MAXTAGS && |path| <= MAXCALLERS
    ensures Clear(TagSlots(p, tag), path) <==> OpenPath(p, tag, path)
  {
    var v := TagSlots(p, tag);
    if Clear(v, path) {
      forall t | HoldsStack(p, tag, t)
        ensures !EndsWithin(t, path)
      {
        StacksOfSlots(p, tag, t);
      }
    }
    if OpenPath(p, tag, path) {
      forall k | 0 <= k < |v|
        ensures !EndsWithin(v[k].callers, path)
      {
        assert InSlots(v, v[k].callers);
        StacksOfSlots(p, tag, v[k].callers);
      }
    }
  }

  // ---------------------------------------------------------------- reports on the states of a run

  ghost predicate HoldsBlock(p: Process, tag: nat, path: seq<Word>) {
    exists a :: a in Tagged(p.s.mem, tag) && path <= p.s.mem[a].callers
  }

  ghost predicate HoldsFd(p: Process, tag: nat, path: seq<Word>) {
    exists i :: i in OpenFds(p.fds, tag) && path <= p.fds[i].opener + [0, 0, 0, 0]
  }

  /** At the outermost level the mark names the type of something obtained under the path. */
  ghost predicate Marked(l: Line, p: Process, tag: nat, path: seq<Word>) {
    l.indent == 0 ==> (l.mark == 'm' && HoldsBlock(p, tag, path)) || (l.mark == 'f' && HoldsFd(p, tag, path))
  }

  /** The lines tell, in order, of exactly the prefixes under which something is held and within which no
      held stack ends; each says how many bytes and descriptors that is, as an int. */
  ghost predicate ShowsHeld(lines: seq<Line>, v: seq<Slot>, paths: seq<seq<Word>>, p: Process, tag: nat)
    requires Inv(p.s) && tag < MAXTAGS
  {
    && |lines| == |paths| && Ascend(paths)
    && (forall path :: path in paths <==>
          0 < |path| <= MAXCALLERS && OpenPath(p, tag, path) && Int32(Held(p, tag, path)) > 0)
    && forall k :: 0 <= k < |lines| ==>
         Tells(lines[k], v, paths[k], Int32(Held(p, tag, paths[k]))) && Marked(lines[k], p, tag, paths[k])
  }

  /** A plain report after any run, in whatever order qsort leaves equal stacks. */
  lemma {:induction false} ReportShowsHeld(ps: seq<Process>, events: seq<Event>, i: nat, tag: nat, v: seq<Slot>)
    returns (paths: seq<seq<Word>>)
    requires Run(ps, events) && i < |ps| && tag < MAXTAGS
    ensures Inv(ps[i].s)
    ensures SortedPermutation(v, TagSlots(ps[i], tag)) && v != [] ==>
              ShowsHeld(Printed(Visit(v, 0, 0, |v|), false), v, paths, ps[i], tag)
  {
    RunKeepsInv(ps, events, i);
    paths := [];
    if SortedPermutation(v, TagSlots(ps[i], tag)) && v != [] { paths := StateShowsHeld(ps[i], tag, v); }
  }

  lemma {:induction false} StateShowsHeld(p: Process, tag: nat, v: seq<Slot>) returns (paths: seq<seq<Word>>)
    requires Inv(p.s) && tag < MAXTAGS && SortedPermutation(v, TagSlots(p, tag)) && v != []
    ensures ShowsHeld(Printed(Visit(v, 0, 0, |v|), false), v, paths, p, tag)
  {
    paths := LinesOfVector(v, TagSlots(p, tag));
    forall path
      ensures SumUnder(TagSlots(p, tag), path) == Held(p, tag, path)
      ensures |path| <= MAXCALLERS ==> (Clear(TagSlots(p, tag), path) <==> OpenPath(p, tag, path))
    {
      SlotsUnderAreHeld(p, tag, path);
      if |path| <= MAXCALLERS { ClearWhenOpen(p, tag, path); }
    }
    var lines := Printed(Visit(v, 0, 0, |v|), false);
    forall k | 0 <= k < |lines|
      ensures Marked(lines[k], p, tag, paths[k])
    {
      LineMarks(p, tag, v, lines[k], paths[k], lines[k].size);
    }
  }

  lemma LineMarks(p: Process, tag: nat, v: seq<Slot>, l: Line, path: seq<Word>, size: int)
    requires Inv(p.s) && tag < MAXTAGS && multiset(v) == multiset(TagSlots(p, tag)) && Tells(l, v, path, size)
    ensures Marked(l, p, tag, path)
  {
    if l.indent == 0 {
      var j :| FirstUnder(v, path, j) && l.mark == if v[j].kind == Memory then 'm' else 'f';
      assert v[j] in multiset(TagSlots(p, tag));
      SlotMarks(p, tag, v[j], path);
    }
  }

  lemma SlotMarks(p: Process, tag: nat, s: Slot, path: seq<Word>)
    requires Inv(p.s) && tag < MAXTAGS && s in TagSlots(p, tag) && path <= s.callers
    ensures if s.kind == Memory then HoldsBlock(p, tag, path) else HoldsFd(p, tag, path)
  {
    SlotsTell(p, tag, s);
  }

  ghost function HeldGrowth(before: Process, now: Process, tag: nat, path: seq<Word>): int
    requires Inv(before.s) && Inv(now.s) && tag < MAXTAGS
  {
    Held(now, tag, path) - Held(before, tag, path)
  }

  /** No stack held at either state ends within the path, and what is held under it has grown, as far as
      an int can tell. */
  ghost predicate Grown(before: Process, now: Process, tag: nat, path: seq<Word>)
    requires Inv(before.s) && Inv(now.s) && tag < MAXTAGS
  {
    && 0 < |path| <= MAXCALLERS
    && OpenPath(before, tag, path) && OpenPath(now, tag, path)
    && Int32(HeldGrowth(before, now, tag, path)) > 0
  }

  /** The lines tell, in order, of exactly the prefixes under which more is held, and how much more. */
  ghost predicate ShowsGrowth(lines: seq<Line>, v: seq<Slot>, paths: seq<seq<Word>>, before: Process, now: Process, tag: nat)
    requires Inv(before.s) && Inv(now.s) && tag < MAXTAGS
  {
    && |lines| == |paths| && Ascend(paths)
    && (forall path :: path in paths <==> Grown(before, now, tag, path))
    && forall k :: 0 <= k < |lines| ==>
         && Tells(lines[k], v, paths[k], Int32(HeldGrowth(before, now, tag, paths[k])))
         && (Marked(lines[k], before, tag, paths[k]) || Marked(lines[k], now, tag, paths[k]))
  }

  /** The vector of a report relative to a snapshot: the slots now, and those then with their sizes
      negated. */
  ghost function RelativeSlots(before: Process, now: Process, tag: nat): seq<Slot>
    requires Inv(before.s) && Inv(now.s) && tag < MAXTAGS
  {
    TagSlots(now, tag) + Negated(TagSlots(before, tag))
  }

  lemma ClearWhenBothOpen(before: Process, now: Process, tag: nat, path: seq<Word>)
    requires Inv(before.s) && Inv(now.s) && tag < MAXTAGS && |path| <= MAXCALLERS
    ensures Clear(RelativeSlots(before, now, tag), path) <==> OpenPath(before, tag, path) && OpenPath(now, tag, path)
  {
    var was := TagSlots(before, tag);
    ClearOfBoth(TagSlots(now, tag), Negated(was), path);
    assert Clear(Negated(was), path) <==> Clear(was, path);
    ClearWhenOpen(before, tag, path);
    ClearWhenOpen(now, tag, path);
  }

  lemma {:induction false} SumIsGrowth(before: Process, now: Process, tag: nat, path: seq<Word>)
    requires Inv(before.s) && Inv(now.s) && tag < MAXTAGS
    ensures SumUnder(RelativeSlots(before, now, tag), path) == HeldGrowth(before, now, tag, path)
  {
    DifferenceOfSums(TagSlots(now, tag), TagSlots(before, tag), RelativeSlots(before, now, tag), path);
    SlotsUnderAreHeld(before, tag, path);
    SlotsUnderAreHeld(now, tag, path);
  }

  /** A snapshot taken at one state of a run and a relative report made at another. */
  lemma {:induction false} RelativeReportShowsGrowth(ps: seq<Process>, events: seq<Event>, i: nat, j: nat, tag: nat,
                                                     v: seq<Slot>) returns (paths: seq<seq<Word>>)
    requires Run(ps, events) && i < |ps| && j < |ps| && tag < MAXTAGS
    ensures Inv(ps[i].s) && Inv(ps[j].s)
    ensures SortedPermutation(v, RelativeSlots(ps[i], ps[j], tag)) && v != [] ==>
              ShowsGrowth(Printed(Visit(v, 0, 0, |v|), false), v, paths, ps[i], ps[j], tag)
  {
    RunKeepsInv(ps, events, i);
    RunKeepsInv(ps, events, j);
    paths := [];
    if SortedPermutation(v, RelativeSlots(ps[i], ps[j], tag)) && v != [] { paths := GrowthOfStates(ps[i], ps[j], tag, v); }
  }

  lemma {:induction false} GrowthOfStates(before: Process, now: Process, tag: nat, v: seq<Slot>) returns (paths: seq<seq<Word>>)
    requires Inv(before.s) && Inv(now.s) && tag < MAXTAGS
    requires SortedPermutation(v, RelativeSlots(before, now, tag)) && v != []
    ensures ShowsGrowth(Printed(Visit(v, 0, 0, |v|), false), v, paths, before, now, tag)
  {
    paths := LinesOfGrowth(before, now, tag, v);
    var lines := Printed(Visit(v, 0, 0, |v|), false);
    forall k | 0 <= k < |lines|
      ensures Marked(lines[k], before, tag, paths[k]) || Marked(lines[k], now, tag, paths[k])
    {
      RelativeLineMarks(before, now, tag, v, lines[k], paths[k], Int32(HeldGrowth(before, now, tag, paths[k])));
    }
  }

  lemma {:induction false} LinesOfGrowth(before: Process, now: Process, tag: nat, v: seq<Slot>) returns (paths: seq<seq<Word>>)
    requires Inv(before.s) && Inv(now.s) && tag < MAXTAGS
    requires SortedPermutation(v, RelativeSlots(before, now, tag)) && v != []
    ensures var lines := Printed(Visit(v, 0, 0, |v|), false);
            && |lines| == |paths| && Ascend(paths)
            && (forall path :: path in paths <==> Grown(before, now, tag, path))
            && forall k :: 0 <= k < |lines| ==>
                 Tells(lines[k], v, paths[k], Int32(HeldGrowth(before, now, tag, paths[k])))
  {
    var slots := RelativeSlots(before, now, tag);
    paths := LinesOfVector(v, slots);
    forall path
      ensures SumUnder(slots, path) == HeldGrowth(before, now, tag, path)
      ensures |path| <= MAXCALLERS ==> (Clear(slots, path) <==> OpenPath(before, tag, path) && OpenPath(now, tag, path))
    {
      SumIsGrowth(before, now, tag, path);
      if |path| <= MAXCALLERS { ClearWhenBothOpen(before, now, tag, path); }
    }
  }

  lemma RelativeLineMarks(before: Process, now: Process, tag: nat, v: seq<Slot>, l: Line, path: seq<Word>, size: int)
    requires Inv(before.s) && Inv(now.s) && tag < MAXTAGS
    requires multiset(v) == multiset(RelativeSlots(before, now, tag)) && Tells(l, v, path, size)
    ensures Marked(l, before, tag, path) || Marked(l, now, tag, path)
  {
    if l.indent == 0 {
      var j :| FirstUnder(v, path, j) && l.mark == if v[j].kind == Memory then 'm' else 'f';
      assert v[j] in multiset(RelativeSlots(before, now, tag));
      RelativeSlotMarks(before, now, tag, v[j], path);
    }
  }

  lemma RelativeSlotMarks(before: Process, now: Process, tag: nat, s: Slot, path: seq<Word>)
    requires Inv(before.s) && Inv(now.s) && tag < MAXTAGS && s in RelativeSlots(before, now, tag) && path <= s.callers
    ensures if s.kind == Memory then HoldsBlock(before, tag, path) || HoldsBlock(now, tag, path)
            else HoldsFd(before, tag, path) || HoldsFd(now, tag, path)
  {
    if s in TagSlots(now, tag) {
      SlotMarks(now, tag, s, path);
    } else {
      var was := TagSlots(before, tag);
      var k :| 0 <= k < |was| && Negated(was)[k] == s;
      SlotMarks(before, tag, was[k], path);
    }
  }

  /** Below 2 Gbytes of growth: a line for exactly the prefixes that hold more than they did. */
  lemma {:induction false} LinesOfGrownPrefixes(before: Process, now: Process, tag: nat, path: seq<Word>)
    requires Inv(before.s) && Inv(now.s) && tag < MAXTAGS
    requires -0x8000_0000 <= HeldGrowth(before, now, tag, path) < 0x8000_0000
    ensures Grown(before, now, tag, path)
            <==> && 0 < |path| <= MAXCALLERS && OpenPath(before, tag, path) && OpenPath(now, tag, path)
                 && Held(now, tag, path) > Held(before, tag, path)
    ensures Int32(HeldGrowth(before, now, tag, path)) == Held(now, tag, path) - Held(before, tag, path)
  {
    Int32Exact(HeldGrowth(before, now, tag, path));
  }

  /** A descriptor has no more than six callers, so under the stack it was opened with nothing deeper is
      shown, whatever blocks are held there. */
  lemma DescriptorHidesDeeper(p: Process, tag: nat, fd: nat, path: seq<Word>)
    requires fd in OpenFds(p.fds, tag) && MAXOPENERS < |path| <= MAXCALLERS && p.fds[fd].opener <= path
    ensures !OpenPath(p, tag, path)
  {
    var t := FdSlot(p.fds[fd]).callers;
    assert path[..MAXOPENERS] == t[..MAXOPENERS] && t[MAXOPENERS] == 0;
    assert path[..MAXOPENERS] <= t;
    assert HoldsStack(p, tag, t) && EndsWithin(t, path);
  }

  // ---------------------------------------------------------------- the total

  /** Every block and descriptor held has at least one caller. */
  ghost predicate AllHaveCallers(p: Process, tag: nat) {
    forall t :: HoldsStack(p, tag, t) ==> t[0] != 0
  }

  lemma TracedWhenCallers(p: Process, tag: nat)
    requires Inv(p.s) && tag < MAXTAGS
    ensures AllTraced(TagSlots(p, tag)) <==> AllHaveCallers(p, tag)
  {
    var slots := TagSlots(p, tag);
    if AllTraced(slots) {
      forall t | HoldsStack(p, tag, t)
        ensures t[0] != 0
      {
        StacksOfSlots(p, tag, t);
      }
    }
    if AllHaveCallers(p, tag) {
      forall k | 0 <= k < |slots|
        ensures slots[k].callers[0] != 0
      {
        assert InSlots(slots, slots[k].callers);
        StacksOfSlots(p, tag, slots[k].callers);
      }
    }
  }

  lemma TracedBoth(a: seq<Slot>, b: seq<Slot>)
    ensures AllTraced(a + Negated(b)) <==> AllTraced(a) && AllTraced(b)
  {
    var v := a + Negated(b);
    assert forall k :: 0 <= k < |a| ==> v[k] == a[k];
    assert forall k :: 0 <= k < |b| ==> v[|a| + k].callers == b[k].callers;
  }

  /** The total of a report: what the tag's list counts and the open descriptors, or nothing. */
  lemma {:induction false} TotalHeld(p: Process, tag: nat, v: seq<Slot>)
    requires Inv(p.s) && tag < MAXTAGS && SortedPermutation(v, TagSlots(p, tag)) && v != []
    ensures Uint32(TopSum(Visit(v, 0, 0, |v|)))
            == if AllHaveCallers(p, tag) then Uint32(p.s.totals[tag] + |OpenFds(p.fds, tag)|) else 0
  {
    var slots := TagSlots(p, tag);
    AllHeld(p, tag, slots);
    TotalOfVector(slots, v);
  }

  lemma {:induction false} AllHeld(p: Process, tag: nat, slots: seq<Slot>)
    requires Inv(p.s) && tag < MAXTAGS && slots == TagSlots(p, tag)
    ensures SumUnder(slots, []) == p.s.totals[tag] + |OpenFds(p.fds, tag)|
    ensures AllTraced(slots) == AllHaveCallers(p, tag)
  {
    SlotsAreLiveResources(p, tag);
    TracedWhenCallers(p, tag);
  }

  lemma {:induction false} TotalOfVector(slots: seq<Slot>, v: seq<Slot>)
    requires v != [] && SortedPermutation(v, slots)
    ensures Uint32(TopSum(Visit(v, 0, 0, |v|))) == if AllTraced(slots) then Uint32(SumUnder(slots, [])) else 0
  {
    SameLength(v, slots);
    TaggedTotal(slots, v);
  }

  lemma {:induction false} TotalGrowth(before: Process, now: Process, tag: nat, v: seq<Slot>)
    requires Inv(before.s) && Inv(now.s) && tag < MAXTAGS
    requires SortedPermutation(v, RelativeSlots(before, now, tag)) && v != []
    ensures Uint32(TopSum(Visit(v, 0, 0, |v|)))
            == if AllHaveCallers(before, tag) && AllHaveCallers(now, tag)
               then Uint32(HeldGrowth(before, now, tag, [])) else 0
  {
    TotalOfVector(RelativeSlots(before, now, tag), v);
    TracedWhenCallers(before, tag);
    TracedWhenCallers(now, tag);
    TracedBoth(TagSlots(now, tag), TagSlots(before, tag));
    SumIsGrowth(before, now, tag, []);
  }

  // ---------------------------------------------------------------- the commands

  /** What a process sends when it has something to report. */
  ghost predicate Reported(p: Process, tag: nat, slots: seq<Slot>)
    requires tag < MAXTAGS
  {
    Inv(p.s) && slots == TagSlots(p, tag) != []
  }

  /** REPORT, with memory for it; `v` is the order qsort finds. */
  method PlainReport(client: Client, slots: seq<Slot>, out: TreePrinter, ghost p: Process, ghost tag: nat)
    returns (ghost v: seq<Slot>, ghost paths: seq<seq<Word>>)
    requires tag < MAXTAGS && Reported(p, tag, slots)
    modifies client, out
    ensures client.snap == old(client.snap)
    ensures SortedPermutation(v, slots) && old(out.lines) <= out.lines
    ensures out.summary ==> out.lines == old(out.lines)
    ensures !out.summary ==> ShowsHeld(out.lines[|old(out.lines)|..], v, paths, p, tag)
    ensures out.total == if AllHaveCallers(p, tag) then Uint32(p.s.totals[tag] + |OpenFds(p.fds, tag)|) else 0
  {
    var shown := client.ShowReport(slots, REPORT, true, out);
    assert slots + [] == slots;
    v :| SortedPermutation(v, slots) && v != []
         && out.lines == old(out.lines) + Printed(Visit(v, 0, 0, |v|), out.summary)
         && out.total == Uint32(TopSum(Visit(v, 0, 0, |v|)));
    SummaryIsSilent(Visit(v, 0, 0, |v|));
    paths := StateShowsHeld(p, tag, v);
    TotalHeld(p, tag, v);
  }

  /** SNAP and, later in the run, SREPORT, with memory for both. */
  method SnapThenReport(client: Client, first: seq<Slot>, second: seq<Slot>, out: TreePrinter,
                        ghost before: Process, ghost now: Process, ghost tag: nat)
    returns (ghost v: seq<Slot>, ghost paths: seq<seq<Word>>)
    requires tag < MAXTAGS && Reported(before, tag, first) && Reported(now, tag, second)
    modifies client, out
    ensures SortedPermutation(v, RelativeSlots(before, now, tag)) && old(out.lines) <= out.lines
    ensures out.summary ==> out.lines == old(out.lines)
    ensures !out.summary ==> ShowsGrowth(out.lines[|old(out.lines)|..], v, paths, before, now, tag)
    ensures out.total == if AllHaveCallers(before, tag) && AllHaveCallers(now, tag)
                         then Uint32(HeldGrowth(before, now, tag, [])) else 0
  {
    var shown := client.ShowReport(first, SNAP, true, out);
    shown := client.ShowReport(second, SREPORT, true, out);
    v :| SortedPermutation(v, RelativeSlots(before, now, tag)) && v != []
         && out.lines == old(out.lines) + Printed(Visit(v, 0, 0, |v|), out.summary)
         && out.total == Uint32(TopSum(Visit(v, 0, 0, |v|)));
    SummaryIsSilent(Visit(v, 0, 0, |v|));
    paths := GrowthOfStates(before, now, tag, v);
    TotalGrowth(before, now, tag, v);
  }
}
