// The three report commands of the manager (trxmgrClient.c:289-420): a plain report, a snapshot,
// and a report relative to the last snapshot.
module Report {
  import opened Words
  import opened Slots
  import opened CallTree
  import opened Options

  datatype SubCmd = REPORT | SNAP | SREPORT

  /** What qsort promises: some ordering of the same slots in which no later one is smaller. */
  ghost predicate SortedPermutation(v: seq<Slot>, slots: seq<Slot>) {
    Sorted(v) && multiset(v) == multiset(slots)
  }

  function Negated(slots: seq<Slot>): (r: seq<Slot>)
    ensures |r| == |slots|
    ensures forall k :: 0 <= k < |slots| ==> r[k] == Slot(-slots[k].size, slots[k].kind, slots[k].callers)
  {
    seq(|slots|, k requires 0 <= k < |slots| => Slot(-slots[k].size, slots[k].kind, slots[k].callers))
  }

  // ---------------------------------------------------------------- the order of equal slots does not matter

  lemma {:induction false} SumUnderAppend(a: seq<Slot>, b: seq<Slot>, p: seq<Word>)
    ensures SumUnder(a + b, p) == SumUnder(a, p) + SumUnder(b, p)
  {
    if b == [] {
      assert a + b == a;
    } else {
      assert (a + b)[..|a + b| - 1] == a + b[..|b| - 1];
      SumUnderAppend(a, b[..|b| - 1], p);
    }
  }

  function SizeIf(s: Slot, p: seq<Word>): int {
    if p <= s.callers then s.size else 0
  }

  lemma {:induction false} SumUnderSnoc(v: seq<Slot>, s: Slot, p: seq<Word>)
    ensures SumUnder(v + [s], p) == SumUnder(v, p) + SizeIf(s, p)
  {
    assert (v + [s])[..|v|] == v;
  }

  lemma TakeOut(b: seq<Slot>, s: Slot, p: seq<Word>) returns (rest: seq<Slot>)
    requires s in b
    ensures multiset(b) == multiset(rest) + multiset{s}
    ensures SumUnder(b, p) == SumUnder(rest, p) + SizeIf(s, p)
  {
    var k :| 0 <= k < |b| && b[k] == s;
    var l, r := b[..k], b[k + 1..];
    rest := l + r;
    assert b == l + [s] + r;
    SumUnderAppend(l, r, p);
    SumUnderAppend(l + [s], r, p);
    assert (l + [s])[..|l|] == l;
  }

  lemma {:induction false} SumUnderPermutes(a: seq<Slot>, b: seq<Slot>, p: seq<Word>)
    requires multiset(a) == multiset(b)
    ensures SumUnder(a, p) == SumUnder(b, p)
    decreases |a|
  {
    if a == [] {
      assert |multiset(b)| == 0;
    } else {
      var s := a[|a| - 1];
      assert a == a[..|a| - 1] + [s];
      assert s in multiset(b);
      var rest := TakeOut(b, s, p);
      assert multiset(a[..|a| - 1]) == multiset(a) - multiset{s} == multiset(rest);
      SumUnderPermutes(a[..|a| - 1], rest, p);
    }
  }

  lemma ShownPermutes(a: seq<Slot>, b: seq<Slot>, p: seq<Word>)
    requires multiset(a) == multiset(b)
    ensures Shown(a, p) <==> Shown(b, p)
  {
    forall s
      ensures s in a <==> s in b
    {
      assert s in multiset(a) <==> s in multiset(b);
    }
    ShownBySlots(a, b, p);
    ShownBySlots(b, a, p);
  }

  lemma ShownBySlots(a: seq<Slot>, b: seq<Slot>, p: seq<Word>)
    requires forall s :: s in a <==> s in b
    ensures Shown(a, p) ==> Shown(b, p)
  {
    if Shown(a, p) {
      var k :| 0 <= k < |a| && p <= a[k].callers;
      assert a[k] in b;
      forall d | 0 <= d < |p|
        ensures !Blocked(b, p[..d])
      {
        assert !Blocked(a, p[..d]);
        forall j | 0 <= j < |b| && p[..d] <= b[j].callers
          ensures b[j].callers[d] != 0
        {
          assert b[j] in a;
        }
      }
    }
  }

  lemma {:induction false} OrderedPathsUnique(a: seq<Node>, b: seq<Node>)
    requires Ordered(a) && Ordered(b)
    requires forall p :: HasPath(a, p) <==> HasPath(b, p)
    ensures |a| == |b| && forall k :: 0 <= k < |a| ==> a[k].path == b[k].path
    decreases |a|
  {
    if a == [] {
      if b != [] { assert HasPath(b, b[0].path); assert false; }
    } else {
      assert HasPath(a, a[0].path);
      assert b != [];
      assert HasPath(b, b[0].path);
      FirstPathsAgree(a, b);
      forall p
        ensures HasPath(a[1..], p) <==> HasPath(b[1..], p)
      {
        TailPaths(a, p);
        TailPaths(b, p);
      }
      OrderedPathsUnique(a[1..], b[1..]);
      assert forall k :: 1 <= k < |a| ==> a[k] == a[1..][k - 1] && b[k] == b[1..][k - 1];
    }
  }

  lemma FirstPathsAgree(a: seq<Node>, b: seq<Node>)
    requires Ordered(a) && Ordered(b) && a != [] && b != []
    requires HasPath(b, a[0].path) && HasPath(a, b[0].path)
    ensures a[0].path == b[0].path
  {
    var i :| 0 <= i < |b| && b[i].path == a[0].path;
    var j :| 0 <= j < |a| && a[j].path == b[0].path;
    LessIsStrictTotalOrder(a[0].path, b[0].path, a[0].path);
  }

  lemma TailPaths(a: seq<Node>, p: seq<Word>)
    requires Ordered(a) && a != []
    ensures HasPath(a[1..], p) <==> HasPath(a, p) && p != a[0].path
  {
    if HasPath(a[1..], p) {
      var k :| 0 <= k < |a[1..]| && a[1..][k].path == p;
      assert a[k + 1].path == p;
      LessIsStrictTotalOrder(p, p, p);
    }
    if HasPath(a, p) && p != a[0].path {
      var k :| 0 <= k < |a| && a[k].path == p;
      assert a[1..][k - 1].path == p;
    }
  }

  /** Whatever order qsort leaves equal stacks in, the same prefixes are reported with the same sizes. */
  lemma {:induction false} ReportIgnoresTieOrder(slots: seq<Slot>, v: seq<Slot>, w: seq<Slot>)
    requires slots != [] && SortedPermutation(v, slots) && SortedPermutation(w, slots)
    ensures v != [] && w != []
    ensures var a, b := Visit(v, 0, 0, |v|), Visit(w, 0, 0, |w|);
            |a| == |b| && forall k :: 0 <= k < |a| ==> a[k].path == b[k].path && a[k].size == b[k].size
  {
    SameLength(v, slots);
    SameLength(w, slots);
    var a, b := Visit(v, 0, 0, |v|), Visit(w, 0, 0, |w|);
    TreeIsExactTrie(v);
    TreeIsExactTrie(w);
    forall p
      ensures HasPath(a, p) <==> HasPath(b, p)
    {
      ShownPermutes(v, w, p);
      assert Shown(v, p) <==> HasPath(a, p);
      assert Shown(w, p) <==> HasPath(b, p);
    }
    OrderedPathsUnique(a, b);
    forall k | 0 <= k < |a|
      ensures a[k].size == b[k].size
    {
      SumUnderPermutes(v, w, a[k].path);
    }
  }

  lemma SameLength(v: seq<Slot>, slots: seq<Slot>)
    requires multiset(v) == multiset(slots)
    ensures |v| == |slots|
  {
    assert |multiset(v)| == |v| && |multiset(slots)| == |slots|;
  }

  // ---------------------------------------------------------------- the tagged total

  ghost predicate AllTraced(slots: seq<Slot>) {
    forall k :: 0 <= k < |slots| ==> slots[k].callers[0] != 0
  }

  lemma {:induction false} TopSumOfTraced(v: seq<Slot>, idx: nat) returns (wraps: int)
    requires idx < |v| && AllTraced(v)
    ensures TopSum(Visit(v, idx, 0, |v|)) == SizeBetween(v, idx, |v|) + wraps * WORD_MODULUS
    decreases |v| - idx
  {
    var n := |v|;
    var i := GroupEnd(v, idx, idx + 1, 0, n);
    VisitTally(v, idx, n, i);
    SizeBetweenSplits(v, idx, i, n);
    wraps := Int32Wraps(SizeBetween(v, idx, i));
    if i < n {
      var more := TopSumOfTraced(v, i);
      wraps := wraps + more;
    }
  }

  lemma {:induction false} SizeBetweenSplits(v: seq<Slot>, a: nat, b: nat, c: nat)
    requires a <= b <= c <= |v|
    ensures SizeBetween(v, a, c) == SizeBetween(v, a, b) + SizeBetween(v, b, c)
  {
    if b < c { SizeBetweenSplits(v, a, b, c - 1); }
  }

  /** The tagged total is the sum of all slots when every slot has a caller; a single slot
      without one empties the whole report. */
  lemma {:induction false} TaggedTotal(slots: seq<Slot>, v: seq<Slot>)
    requires slots != [] && SortedPermutation(v, slots)
    ensures v != []
    ensures AllTraced(slots) ==> Uint32(TopSum(Visit(v, 0, 0, |v|))) == Uint32(SumUnder(slots, []))
    ensures !AllTraced(slots) ==> Visit(v, 0, 0, |v|) == []
  {
    SameLength(v, slots);
    if AllTraced(slots) {
      forall k | 0 <= k < |v|
        ensures v[k].callers[0] != 0
      {
        assert v[k] in multiset(slots);
      }
      var wraps := TopSumOfTraced(v, 0);
      ModCongruent(TopSum(Visit(v, 0, 0, |v|)), SizeBetween(v, 0, |v|), wraps);
      SumOfGroup(v, [], 0, |v|);
      SumUnderPermutes(v, slots, []);
    } else {
      var k :| 0 <= k < |slots| && slots[k].callers[0] == 0;
      assert slots[k] in multiset(v);
      var j :| 0 <= j < |v| && v[j].callers[0] == 0;
      WordsAscend(v, [], 0, |v|, 0, j);
    }
  }

  // ---------------------------------------------------------------- snapshot difference

  lemma {:induction false} SumUnderNegated(slots: seq<Slot>, p: seq<Word>)
    ensures SumUnder(Negated(slots), p) == -SumUnder(slots, p)
  {
    if slots != [] {
      var n := |slots| - 1;
      assert Negated(slots)[..n] == Negated(slots[..n]);
      SumUnderNegated(slots[..n], p);
    }
  }

  /** Bytes under `p` now, less the bytes under it when the snapshot was taken. */
  function Growth(cur: seq<Slot>, snap: seq<Slot>, p: seq<Word>): int {
    SumUnder(cur, p) - SumUnder(snap, p)
  }

  lemma {:induction false} DifferenceOfSums(cur: seq<Slot>, snap: seq<Slot>, v: seq<Slot>, p: seq<Word>)
    requires multiset(v) == multiset(cur + Negated(snap))
    ensures SumUnder(v, p) == Growth(cur, snap, p)
  {
    SumUnderPermutes(v, cur + Negated(snap), p);
    SumUnderAppend(cur, Negated(snap), p);
    SumUnderNegated(snap, p);
  }

  /** In a snap-relative report every node's size is the net growth under its prefix, and the nodes
      are the shown prefixes of both reports taken together. */
  lemma {:induction false} SnapshotDifference(cur: seq<Slot>, snap: seq<Slot>, v: seq<Slot>, n: Node)
    requires SortedPermutation(v, cur + Negated(snap)) && v != []
    requires n in Visit(v, 0, 0, |v|)
    ensures n.size == Int32(Growth(cur, snap, n.path))
    ensures Shown(cur + Negated(snap), n.path)
  {
    var nodes := Visit(v, 0, 0, |v|);
    TreeIsExactTrie(v);
    var k :| 0 <= k < |nodes| && nodes[k] == n;
    assert HasPath(nodes, n.path);
    DifferenceOfSums(cur, snap, v, n.path);
    ShownPermutes(v, cur + Negated(snap), n.path);
  }

  /** Below 2 Gbytes of change, a line is printed exactly for the prefixes with net growth. */
  lemma {:induction false} LinesAreNetGrowth(cur: seq<Slot>, snap: seq<Slot>, v: seq<Slot>, n: Node)
    requires SortedPermutation(v, cur + Negated(snap)) && v != [] && n in Visit(v, 0, 0, |v|)
    requires -0x8000_0000 <= Growth(cur, snap, n.path) < 0x8000_0000
    ensures LineOf(n, false) != [] <==> SumUnder(cur, n.path) > SumUnder(snap, n.path)
  {
    SnapshotDifference(cur, snap, v, n);
    Int32Exact(Growth(cur, snap, n.path));
  }

  lemma {:induction false} NoGrowth(cur: seq<Slot>, snap: seq<Slot>, v: seq<Slot>, n: Node)
    requires multiset(cur) == multiset(snap)
    requires SortedPermutation(v, cur + Negated(snap)) && v != [] && n in Visit(v, 0, 0, |v|)
    ensures n.size == 0
  {
    SnapshotDifference(cur, snap, v, n);
    SumUnderPermutes(cur, snap, n.path);
    assert Growth(cur, snap, n.path) == 0;
  }

  /** Comparing a report with an identical multiset of slots prints no line and totals zero. */
  lemma {:induction false} IdenticalSnapshotIsSilent(cur: seq<Slot>, snap: seq<Slot>, v: seq<Slot>, nodes: seq<Node>, summary: bool)
    requires multiset(cur) == multiset(snap)
    requires SortedPermutation(v, cur + Negated(snap)) && v != []
    requires nodes == Visit(v, 0, 0, |v|)
    ensures Printed(nodes, summary) == [] && TopSum(nodes) == 0
  {
    forall n | n in nodes
      ensures n.size == 0
    {
      NoGrowth(cur, snap, v, n);
    }
    ZeroSizesAreSilent(nodes, summary);
  }

  lemma {:induction false} ZeroSizesAreSilent(nodes: seq<Node>, summary: bool)
    requires forall n :: n in nodes ==> n.size == 0
    ensures Printed(nodes, summary) == [] && TopSum(nodes) == 0
  {
    if nodes != [] {
      assert nodes[0] in nodes;
      ZeroSizesAreSilent(nodes[1..], summary);
    }
  }

  // ---------------------------------------------------------------- the code

  /** The C library sort, as far as the report relies on it. */
  method QSort(slots: seq<Slot>) returns (v: seq<Slot>)
    ensures SortedPermutation(v, slots)
  {
    v := [];
    for i := 0 to |slots|
      invariant SortedPermutation(v, slots[..i])
    {
      v := InsertSorted(v, slots[i], slots[..i]);
      assert slots[..i + 1] == slots[..i] + [slots[i]];
    }
    assert slots[..|slots|] == slots;
  }

  method InsertSorted(v: seq<Slot>, s: Slot, ghost slots: seq<Slot>) returns (r: seq<Slot>)
    requires SortedPermutation(v, slots)
    ensures SortedPermutation(r, slots + [s])
  {
    var at := FindPlace(v, s);
    r := v[..at] + [s] + v[at..];
    InsertedPermutes(v, at, s);
    InsertedSorted(v, at, s);
  }

  /** The first slot that is larger. */
  method FindPlace(v: seq<Slot>, s: Slot) returns (at: nat)
    requires Sorted(v)
    ensures at <= |v| && (at < |v| ==> Less(s.callers, v[at].callers))
    ensures forall k :: 0 <= k < at ==> !Less(s.callers, v[k].callers)
  {
    at := 0;
    while at < |v|
      invariant at <= |v|
      invariant forall k :: 0 <= k < at ==> !Less(s.callers, v[k].callers)
    {
      var c := CmpBackTraces(s, v[at]);
      if c < 0 { return; }
      at := at + 1;
    }
  }

  lemma InsertedPermutes(v: seq<Slot>, at: nat, s: Slot)
    requires at <= |v|
    ensures multiset(v[..at] + [s] + v[at..]) == multiset(v) + multiset{s}
  {
    assert v == v[..at] + v[at..];
  }

  lemma InsertedSorted(v: seq<Slot>, at: nat, s: Slot)
    requires Sorted(v) && at <= |v|
    requires forall k :: 0 <= k < at ==> !Less(s.callers, v[k].callers)
    requires at < |v| ==> Less(s.callers, v[at].callers)
    ensures Sorted(v[..at] + [s] + v[at..])
  {
    var r := v[..at] + [s] + v[at..];
    forall i, j | 0 <= i < j < |r|
      ensures !Less(r[j].callers, r[i].callers)
    {
      if j < at {
        assert r[i] == v[i] && r[j] == v[j];
      } else if j == at {
        assert r[i] == v[i] && r[j] == s;
      } else {
        assert r[j] == v[j - 1];
        if i < at { assert r[i] == v[i]; }
        else if i == at { LaterIsLarger(v, at, s, j - 1); }
        else { assert r[i] == v[i - 1]; }
      }
    }
  }

  lemma LaterIsLarger(v: seq<Slot>, at: nat, s: Slot, k: nat)
    requires Sorted(v) && at <= k < |v| && Less(s.callers, v[at].callers)
    ensures !Less(v[k].callers, s.callers)
  {
    LessIsStrictTotalOrder(v[k].callers, s.callers, v[at].callers);
    LessIsStrictTotalOrder(s.callers, v[at].callers, s.callers);
  }

  /** The loop that turns the sizes of a snapshot into negative ones. */
  method NegateSizes(entries: seq<Slot>) returns (copy: seq<Slot>)
    ensures copy == Negated(entries)
  {
    copy := entries;
    for i := 0 to |entries|
      invariant |copy| == |entries|
      invariant copy == Negated(entries)[..i] + entries[i..]
    {
      copy := copy[i := Slot(-copy[i].size, copy[i].kind, copy[i].callers)];
    }
    assert copy == Negated(entries);
  }

  /** What the manager keeps per client between reports. */
  class Client {
    var snap: Option<seq<Slot>>

    constructor ()
      ensures snap == None
    {
      snap := None;
    }

    /** The body of showReport once the segment with `entries` is attached; `memory` says whether
        its one malloc succeeds. */
    method ShowReport(entries: seq<Slot>, subCmd: SubCmd, memory: bool, out: TreePrinter) returns (shown: bool)
      requires entries != []
      modifies this, out
      ensures subCmd == SNAP ==>
                && snap == (if memory then Some(Negated(entries)) else None)
                && out.lines == old(out.lines) && out.total == old(out.total) && !shown
      ensures subCmd != SNAP ==>
                && snap == old(snap)
                && (shown <==> memory && (subCmd == SREPORT ==> snap.Some?))
                && (!shown ==> out.lines == old(out.lines) && out.total == old(out.total))
      ensures shown ==>
                exists v :: SortedPermutation(v, entries + if subCmd == SREPORT then snap.value else [])
                         && v != []
                         && out.lines == old(out.lines) + Printed(Visit(v, 0, 0, |v|), out.summary)
                         && out.total == Uint32(TopSum(Visit(v, 0, 0, |v|)))
    {
      shown := false;
      match subCmd
      case REPORT =>
        if memory {
          var vector := QSort(entries);
          SameLength(vector, entries);
          assert entries + [] == entries;
          ghost var nodes := out.BuildShowTree(vector);
          shown := true;
        }
      case SNAP =>
        snap := None;
        if memory {
          var copy := NegateSizes(entries);
          snap := Some(copy);
        }
      case SREPORT =>
        if snap.Some? && memory {
          var vector := QSort(entries + snap.value);
          SameLength(vector, entries + snap.value);
          ghost var nodes := out.BuildShowTree(vector);
          shown := true;
        }
    }
  }
}
