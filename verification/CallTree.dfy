// The indented call tree of a report (trxTree.c).
module CallTree {
  import opened Words
  import opened Slots

  /** One visit of diveAndPrint: a call-stack prefix, the size tallied for it, its resource type. */
  datatype Node = Node(path: seq<Word>, size: int, kind: ResType)

  /** One line of output: `indent` levels, the innermost address, the size and a type mark. */
  datatype Line = Line(indent: nat, addr: Word, size: int, mark: char)

  // ---------------------------------------------------------------- reference definition

  /** Total size of the slots of `v` whose call stack starts with `p`. */
  function SumUnder(v: seq<Slot>, p: seq<Word>): int {
    if v == [] then 0
    else
      var s := v[|v| - 1];
      SumUnder(v[..|v| - 1], p) + if p <= s.callers then s.size else 0
  }

  /** Some slot that starts with `q` has no further caller recorded. */
  ghost predicate Blocked(v: seq<Slot>, q: seq<Word>)
    requires |q| < MAXCALLERS
  {
    exists k :: 0 <= k < |v| && q <= v[k].callers && v[k].callers[|q|] == 0
  }

  ghost predicate Occurs(v: seq<Slot>, p: seq<Word>) {
    exists k :: 0 <= k < |v| && p <= v[k].callers
  }

  /** `p` is a call-stack prefix of `v`, and no prefix of it of length `from` or more is blocked. */
  ghost predicate InTrie(v: seq<Slot>, p: seq<Word>, from: nat) {
    && from < |p| <= MAXCALLERS
    && Occurs(v, p)
    && forall d :: from <= d < |p| ==> !Blocked(v, p[..d])
  }

  /** The prefixes that a report over `v` shows. */
  ghost predicate Shown(v: seq<Slot>, p: seq<Word>) {
    InTrie(v, p, 0)
  }

  ghost predicate HasPath(nodes: seq<Node>, p: seq<Word>) {
    exists k :: 0 <= k < |nodes| && nodes[k].path == p
  }

  /** Paths appear in strictly increasing lexicographic order, so none appears twice. */
  ghost predicate Ordered(nodes: seq<Node>) {
    forall i, j :: 0 <= i < j < |nodes| ==> Less(nodes[i].path, nodes[j].path)
  }

  /** Slot `k` is the first one under `p`. */
  ghost predicate FirstUnder(v: seq<Slot>, p: seq<Word>, k: int) {
    && 0 <= k < |v| && p <= v[k].callers
    && forall j :: 0 <= j < k ==> !(p <= v[j].callers)
  }

  /** The node has the type of the first slot under its path. */
  ghost predicate FirstKind(v: seq<Slot>, n: Node) {
    exists k :: FirstUnder(v, n.path, k) && v[k].kind == n.kind
  }

  // ---------------------------------------------------------------- the traversal as a function

  function GroupEnd(v: seq<Slot>, idx: nat, i: nat, indent: nat, max: nat): (e: nat)
    requires idx < i <= max <= |v| && indent < MAXCALLERS
    ensures i <= e <= max
    ensures forall k :: i <= k < e ==> v[k].callers[indent] == v[idx].callers[indent]
    ensures e < max ==> v[e].callers[indent] != v[idx].callers[indent]
    decreases max - i
  {
    if i == max || v[i].callers[indent] != v[idx].callers[indent] then i
    else GroupEnd(v, idx, i + 1, indent, max)
  }

  function SizeBetween(v: seq<Slot>, lo: nat, hi: nat): int
    requires lo <= hi <= |v|
  {
    if lo == hi then 0 else SizeBetween(v, lo, hi - 1) + v[hi - 1].size
  }

  function Visit(v: seq<Slot>, idx: nat, indent: nat, max: nat): seq<Node>
    requires idx < max <= |v| && indent < MAXCALLERS
    decreases max - idx, MAXCALLERS - indent
  {
    if v[idx].callers[indent] == 0 then []
    else
      var i := GroupEnd(v, idx, idx + 1, indent, max);
      [Node(v[idx].callers[..indent + 1], Int32(SizeBetween(v, idx, i)), v[idx].kind)]
      + (if indent < MAXCALLERS - 1 then Visit(v, idx, indent + 1, i) else [])
      + (if i < max then Visit(v, i, indent, max) else [])
  }

  function TypeChar(kind: ResType): char {
    match kind
    case Memory => 'm'
    case File => 'f'
  }

  /** The line printed for a node, if any: only for a positive size, and none in a summary. */
  function LineOf(n: Node, summary: bool): seq<Line> {
    if summary || n.size <= 0 || n.path == [] then []
    else
      var indent := |n.path| - 1;
      [Line(indent, n.path[indent], n.size, if indent == 0 then TypeChar(n.kind) else ' ')]
  }

  function Printed(nodes: seq<Node>, summary: bool): seq<Line> {
    if nodes == [] then [] else LineOf(nodes[0], summary) + Printed(nodes[1..], summary)
  }

  /** Sum of the sizes at the outermost level. */
  function TopSum(nodes: seq<Node>): int {
    if nodes == [] then 0
    else (if |nodes[0].path| == 1 then nodes[0].size else 0) + TopSum(nodes[1..])
  }

  lemma {:induction false} PrintedAppend(a: seq<Node>, b: seq<Node>, summary: bool)
    ensures Printed(a + b, summary) == Printed(a, summary) + Printed(b, summary)
  {
    if a == [] {
      assert a + b == b;
    } else {
      assert (a + b)[1..] == a[1..] + b && (a + b)[0] == a[0];
      PrintedAppend(a[1..], b, summary);
    }
  }

  lemma {:induction false} TopSumAppend(a: seq<Node>, b: seq<Node>)
    ensures TopSum(a + b) == TopSum(a) + TopSum(b)
  {
    if a == [] {
      assert a + b == b;
    } else {
      assert (a + b)[1..] == a[1..] + b;
      TopSumAppend(a[1..], b);
    }
  }

  lemma {:induction false} TopSumDeep(nodes: seq<Node>)
    requires Deeper(nodes, 1)
    ensures TopSum(nodes) == 0
  {
    if nodes != [] {
      assert forall k :: 0 <= k < |nodes| - 1 ==> nodes[1..][k] == nodes[k + 1];
      TopSumDeep(nodes[1..]);
    }
  }

  lemma {:induction false} PrintedParts(n: Node, child: seq<Node>, rest: seq<Node>, summary: bool)
    ensures Printed([n] + child + rest, summary) == LineOf(n, summary) + Printed(child, summary) + Printed(rest, summary)
  {
    PrintedAppend([n] + child, rest, summary);
    PrintedAppend([n], child, summary);
    assert [n][1..] == [] && Printed([n], summary) == LineOf(n, summary) + Printed([], summary);
  }

  lemma {:induction false} TopSumParts(n: Node, child: seq<Node>, rest: seq<Node>)
    requires Deeper(child, 1)
    ensures TopSum([n] + child + rest) == (if |n.path| == 1 then n.size else 0) + TopSum(rest)
  {
    TopSumAppend([n] + child, rest);
    TopSumAppend([n], child);
    TopSumDeep(child);
  }

  lemma ConcatAssociates<T>(a: seq<T>, b: seq<T>, c: seq<T>, d: seq<T>)
    ensures a + b + c + d == a + (b + c + d)
  {
  }

  lemma VisitParts(v: seq<Slot>, idx: nat, indent: nat, max: nat, n: Node, child: seq<Node>, rest: seq<Node>)
    requires idx < max <= |v| && indent < MAXCALLERS && v[idx].callers[indent] != 0
    requires var i := GroupEnd(v, idx, idx + 1, indent, max);
             && n == Node(v[idx].callers[..indent + 1], Int32(SizeBetween(v, idx, i)), v[idx].kind)
             && child == (if indent < MAXCALLERS - 1 then Visit(v, idx, indent + 1, i) else [])
             && rest == (if i < max then Visit(v, i, indent, max) else [])
    ensures Visit(v, idx, indent, max) == [n] + child + rest
  {
  }

  /** Every path goes deeper than `indent`. */
  ghost predicate Deeper(nodes: seq<Node>, indent: nat) {
    forall k :: 0 <= k < |nodes| ==> indent < |nodes[k].path| <= MAXCALLERS
  }

  lemma {:induction false} VisitPaths(v: seq<Slot>, idx: nat, indent: nat, max: nat)
    requires idx < max <= |v| && indent < MAXCALLERS
    ensures Deeper(Visit(v, idx, indent, max), indent)
    decreases max - idx, MAXCALLERS - indent
  {
    if v[idx].callers[indent] != 0 {
      var i := GroupEnd(v, idx, idx + 1, indent, max);
      var n := Node(v[idx].callers[..indent + 1], Int32(SizeBetween(v, idx, i)), v[idx].kind);
      var child, rest := [], [];
      if indent < MAXCALLERS - 1 {
        child := Visit(v, idx, indent + 1, i);
        VisitPaths(v, idx, indent + 1, i);
      }
      if i < max {
        rest := Visit(v, i, indent, max);
        VisitPaths(v, i, indent, max);
      }
      VisitParts(v, idx, indent, max, n, child, rest);
      DeeperParts(n, child, rest, indent);
    }
  }

  lemma DeeperParts(n: Node, child: seq<Node>, rest: seq<Node>, indent: nat)
    requires |n.path| == indent + 1 <= MAXCALLERS && (child == [] || Deeper(child, indent + 1)) && Deeper(rest, indent)
    ensures Deeper([n] + child + rest, indent)
  {
  }

  /** The output for a node and for what was printed below and after it, one after the other. */
  lemma {:induction false} PrintedPieces(n: Node, child: seq<Node>, rest: seq<Node>, summary: bool,
                      l0: seq<Line>, l1: seq<Line>, l2: seq<Line>, l3: seq<Line>)
    requires l1 == l0 + LineOf(n, summary) && l2 == l1 + Printed(child, summary) && l3 == l2 + Printed(rest, summary)
    ensures l3 == l0 + Printed([n] + child + rest, summary)
  {
    PrintedParts(n, child, rest, summary);
    ConcatAssociates(l0, LineOf(n, summary), Printed(child, summary), Printed(rest, summary));
  }

  /** At the outermost level only the node itself and what comes after its group are tallied. */
  lemma {:induction false} VisitTop(v: seq<Slot>, idx: nat, max: nat, i: nat, n: Node, child: seq<Node>, rest: seq<Node>)
    requires idx < i <= max <= |v| && |n.path| == 1 && child == Visit(v, idx, 1, i)
    ensures TopSum([n] + child + rest) == n.size + TopSum(rest)
  {
    VisitPaths(v, idx, 1, i);
    TopSumParts(n, child, rest);
  }

  /** The tally of a visit at the outermost level. */
  lemma {:induction false} VisitTally(v: seq<Slot>, idx: nat, max: nat, i: nat)
    requires idx < max <= |v| && v[idx].callers[0] != 0
    requires i == GroupEnd(v, idx, idx + 1, 0, max)
    ensures TopSum(Visit(v, idx, 0, max))
            == Int32(SizeBetween(v, idx, i)) + if i < max then TopSum(Visit(v, i, 0, max)) else 0
  {
    var n := Node(v[idx].callers[..1], Int32(SizeBetween(v, idx, i)), v[idx].kind);
    var child := Visit(v, idx, 1, i);
    var rest := if i < max then Visit(v, i, 0, max) else [];
    VisitParts(v, idx, 0, max, n, child, rest);
    VisitTop(v, idx, max, i, n, child, rest);
  }

  lemma WordOf(w: Word, x: int, k: int)
    requires x == w + k * WORD_MODULUS
    ensures w == Uint32(x)
  {
    ModCongruent(x, w, k);
  }

  lemma {:induction false} NothingPrinted(lines: seq<Line>, summary: bool)
    ensures lines + Printed([], summary) == lines
  {
    assert lines + [] == lines;
  }

  lemma EntryLine(t1: Slot, indent: nat, size: int, summary: bool, before: seq<Line>, lines: seq<Line>)
    requires indent < MAXCALLERS
    requires lines == if summary || size <= 0 then before
                      else before + [Line(indent, t1.callers[indent], size,
                                          if indent > 0 then ' ' else if t1.kind == Memory then 'm' else 'f')]
    ensures lines == before + LineOf(Node(t1.callers[..indent + 1], size, t1.kind), summary)
  {
  }

  // ---------------------------------------------------------------- the code

  /** The console a report is printed on, and the tally handed back by buildShowTree. */
  class TreePrinter {
    const summary: bool
    var total: Word
    var lines: seq<Line>
    /** The tally without wrap-around, and how often it has wrapped around. */
    ghost var tally: int
    ghost var wraps: int

    ghost predicate Valid()
      reads this
    {
      tally == total + wraps * WORD_MODULUS
    }

    constructor (summary: bool)
      ensures Valid() && this.summary == summary && tally == 0 && lines == []
    {
      this.summary := summary;
      total, lines, tally, wraps := 0, [], 0, 0;
    }

    /** The counting loop of diveAndPrint: where the subgroup of `idx` ends, and its size. */
    method CountMatching(idx: nat, indent: nat, maxEntry: nat, vector: seq<Slot>) returns (i: nat, size: int)
      requires idx < maxEntry <= |vector| && indent < MAXCALLERS
      ensures i == GroupEnd(vector, idx, idx + 1, indent, maxEntry)
      ensures size == Int32(SizeBetween(vector, idx, i))
    {
      var t1 := vector[idx];
      size := Int32(t1.size);
      i := idx + 1;
      while i < maxEntry && vector[i].callers[indent] == t1.callers[indent]
        invariant idx < i <= maxEntry
        invariant size == Int32(SizeBetween(vector, idx, i))
        invariant GroupEnd(vector, idx, idx + 1, indent, maxEntry) == GroupEnd(vector, idx, i, indent, maxEntry)
      {
        Int32Absorbs(SizeBetween(vector, idx, i), vector[i].size);
        size := Int32(size + vector[i].size);
        i := i + 1;
      }
    }

    /** The tally and the output of one visit. */
    method PrintEntry(t1: Slot, indent: nat, size: int)
      requires Valid() && indent < MAXCALLERS
      modifies this
      ensures Valid() && tally == (if indent == 0 then old(tally) + size else old(tally))
      ensures lines == if summary || size <= 0 then old(lines)
                       else old(lines) + [Line(indent, t1.callers[indent], size,
                                               if indent > 0 then ' ' else if t1.kind == Memory then 'm' else 'f')]
    {
      if indent == 0 {
        wraps := wraps + (total + size) / WORD_MODULUS;
        total := Uint32(total + size);
        tally := tally + size;
      }
      if !summary && size > 0 {
        lines := lines + [Line(indent, t1.callers[indent], size, if indent == 0 then TypeChar(t1.kind) else ' ')];
      }
    }

    /** The same, as the visit of a node. */
    method TellEntry(t1: Slot, indent: nat, size: int) returns (ghost n: Node)
      requires Valid() && indent < MAXCALLERS
      modifies this
      ensures Valid() && tally == (if indent == 0 then old(tally) + size else old(tally))
      ensures n == Node(t1.callers[..indent + 1], size, t1.kind) && lines == old(lines) + LineOf(n, summary)
    {
      n := Node(t1.callers[..indent + 1], size, t1.kind);
      PrintEntry(t1, indent, size);
      EntryLine(t1, indent, size, summary, old(lines), lines);
    }

    /** diveAndPrint; `nodes` are the prefixes visited. */
    method DiveAndPrint(idx: nat, indent: nat, maxEntry: nat, vector: seq<Slot>) returns (ghost nodes: seq<Node>)
      requires Valid() && idx < maxEntry <= |vector| && indent < MAXCALLERS
      modifies this
      ensures Valid() && nodes == Visit(vector, idx, indent, maxEntry)
      ensures lines == old(lines) + Printed(nodes, summary)
      ensures tally == old(tally) + if indent == 0 then TopSum(nodes) else 0
      decreases maxEntry - idx, MAXCALLERS - indent
    {
      var t1 := vector[idx];
      nodes := [];
      if t1.callers[indent] == 0 { return; }
      var i, size := CountMatching(idx, indent, maxEntry, vector);
      ghost var child, rest: seq<Node> := [], [];
      ghost var n := TellEntry(t1, indent, size);
      ghost var l1 := lines;
      NothingPrinted(l1, summary);
      if indent < MAXCALLERS - 1 {
        child := DiveAndPrint(idx, indent + 1, i, vector);
      }
      ghost var l2 := lines;
      NothingPrinted(l2, summary);
      if i < maxEntry {
        rest := DiveAndPrint(i, indent, maxEntry, vector);
      }
      nodes := [n] + child + rest;
      VisitParts(vector, idx, indent, maxEntry, n, child, rest);
      PrintedPieces(n, child, rest, summary, old(lines), l1, l2, lines);
      if indent == 0 { VisitTop(vector, idx, maxEntry, i, n, child, rest); }
    }

    method BuildShowTree(vector: seq<Slot>) returns (ghost nodes: seq<Node>)
      requires vector != []
      modifies this
      ensures Valid() && nodes == Visit(vector, 0, 0, |vector|)
      ensures lines == old(lines) + Printed(nodes, summary)
      ensures total == Uint32(TopSum(nodes))
    {
      total, tally, wraps := 0, 0, 0;
      nodes := DiveAndPrint(0, 0, |vector|, vector);
      WordOf(total, tally, wraps);
    }
  }

  // ---------------------------------------------------------------- the tree is an exact trie

  /** Exactly the slots `lo` to `hi` of the vector start with `q`. */
  ghost predicate Group(v: seq<Slot>, q: seq<Word>, lo: nat, hi: nat) {
    && lo < hi <= |v| && |q| <= MAXCALLERS
    && forall k :: 0 <= k < |v| ==> (q <= v[k].callers <==> lo <= k < hi)
  }

  /** A call on `idx` at depth |q|: the rest of a group whose earlier subgroups were all visited. */
  ghost predicate At(v: seq<Slot>, q: seq<Word>, lo: nat, idx: nat, hi: nat) {
    && |q| < MAXCALLERS && Group(v, q, lo, hi) && lo <= idx < hi
    && forall k :: lo <= k < idx ==> 0 < v[k].callers[|q|] < v[idx].callers[|q|]
  }

  lemma WordsAscend(v: seq<Slot>, q: seq<Word>, lo: nat, hi: nat, a: nat, b: nat)
    requires Sorted(v) && Group(v, q, lo, hi) && |q| < MAXCALLERS
    requires lo <= a <= b < hi
    ensures v[a].callers[|q|] <= v[b].callers[|q|]
  {
    if v[b].callers[|q|] < v[a].callers[|q|] {
      assert q <= v[a].callers && q <= v[b].callers;
      assert FirstDiff(v[b].callers, v[a].callers, |q|);
      assert false;
    }
  }

  lemma {:induction false} LaterWordsGrow(v: seq<Slot>, q: seq<Word>, lo: nat, idx: nat, hi: nat, k: nat)
    requires Sorted(v) && At(v, q, lo, idx, hi)
    requires GroupEnd(v, idx, idx + 1, |q|, hi) <= k < hi
    ensures v[idx].callers[|q|] < v[k].callers[|q|]
  {
    var i := GroupEnd(v, idx, idx + 1, |q|, hi);
    WordsAscend(v, q, lo, hi, idx, i);
    WordsAscend(v, q, lo, hi, i, k);
  }

  lemma {:induction false} LaterWordsAllGrow(v: seq<Slot>, q: seq<Word>, lo: nat, idx: nat, hi: nat)
    requires Sorted(v) && At(v, q, lo, idx, hi)
    ensures forall k :: GroupEnd(v, idx, idx + 1, |q|, hi) <= k < hi ==> v[idx].callers[|q|] < v[k].callers[|q|]
  {
    forall k | GroupEnd(v, idx, idx + 1, |q|, hi) <= k < hi
      ensures v[idx].callers[|q|] < v[k].callers[|q|]
    {
      LaterWordsGrow(v, q, lo, idx, hi, k);
    }
  }

  /** The slots up to the end of the subgroup are exactly those that share one more word. */
  lemma {:induction false} SubGroup(v: seq<Slot>, q: seq<Word>, lo: nat, idx: nat, hi: nat)
    requires Sorted(v) && At(v, q, lo, idx, hi)
    ensures Group(v, q + [v[idx].callers[|q|]], idx, GroupEnd(v, idx, idx + 1, |q|, hi))
  {
    var i, w := GroupEnd(v, idx, idx + 1, |q|, hi), v[idx].callers[|q|];
    LaterWordsAllGrow(v, q, lo, idx, hi);
    forall k | 0 <= k < |v|
      ensures q + [w] <= v[k].callers <==> idx <= k < i
    {
      PrefixGrows(q, w, v[k].callers);
    }
  }

  /** And the traversal goes on behind them. */
  lemma NextSubGroup(v: seq<Slot>, q: seq<Word>, lo: nat, idx: nat, hi: nat)
    requires Sorted(v) && At(v, q, lo, idx, hi) && v[idx].callers[|q|] != 0
    requires GroupEnd(v, idx, idx + 1, |q|, hi) < hi
    ensures At(v, q, lo, GroupEnd(v, idx, idx + 1, |q|, hi), hi)
  {
    LaterWordsAllGrow(v, q, lo, idx, hi);
  }

  lemma PrefixGrows(q: seq<Word>, w: Word, t: Trace)
    requires |q| < MAXCALLERS
    ensures q + [w] <= t <==> q <= t && t[|q|] == w
  {
  }

  lemma {:induction false} SumOfGroup(v: seq<Slot>, p: seq<Word>, lo: nat, hi: nat)
    requires lo <= hi <= |v|
    requires forall k :: 0 <= k < |v| ==> (p <= v[k].callers <==> lo <= k < hi)
    ensures SumUnder(v, p) == SizeBetween(v, lo, hi)
  {
    if |v| > 0 {
      var n := |v| - 1;
      var top := if hi == |v| then n else hi;
      if lo <= top {
        SumOfGroup(v[..n], p, lo, top);
        SizeBetweenPrefix(v, n, lo, top);
      } else {
        SumOfGroup(v[..n], p, n, n);
      }
    }
  }

  lemma {:induction false} SizeBetweenPrefix(v: seq<Slot>, n: nat, lo: nat, hi: nat)
    requires lo <= hi <= n <= |v|
    ensures SizeBetween(v[..n], lo, hi) == SizeBetween(v, lo, hi)
  {
    if lo < hi { SizeBetweenPrefix(v, n, lo, hi - 1); }
  }

  /** A node visited below `q` is a shown prefix, with the sum of everything under it. */
  ghost predicate SoundNode(v: seq<Slot>, q: seq<Word>, least: Word, n: Node) {
    && q < n.path && least <= n.path[|q|]
    && InTrie(v, n.path, |q|)
    && n.size == Int32(SumUnder(v, n.path)) && FirstKind(v, n)
  }

  ghost predicate Sound(v: seq<Slot>, q: seq<Word>, least: Word, nodes: seq<Node>) {
    forall k :: 0 <= k < |nodes| ==> SoundNode(v, q, least, nodes[k])
  }

  ghost predicate Complete(v: seq<Slot>, q: seq<Word>, least: Word, nodes: seq<Node>) {
    forall p :: q < p && InTrie(v, p, |q|) && least <= p[|q|] ==> HasPath(nodes, p)
  }

  lemma NotBlocked(v: seq<Slot>, q: seq<Word>, lo: nat, idx: nat, hi: nat)
    requires Sorted(v) && At(v, q, lo, idx, hi) && v[idx].callers[|q|] != 0
    ensures !Blocked(v, q)
  {
    forall k | 0 <= k < |v| && q <= v[k].callers
      ensures v[k].callers[|q|] != 0
    {
      if k >= idx { WordsAscend(v, q, lo, hi, idx, k); }
    }
  }

  lemma ChildInTrie(v: seq<Slot>, q: seq<Word>, p: seq<Word>)
    requires |q| < MAXCALLERS && q < p && !Blocked(v, q)
    ensures InTrie(v, p, |q|) <==> |p| <= MAXCALLERS && Occurs(v, p) && (|p| > |q| + 1 ==> InTrie(v, p, |q| + 1))
  {
    assert p[..|q|] == q;
  }

  ghost predicate Exact(v: seq<Slot>, q: seq<Word>, least: Word, nodes: seq<Node>) {
    Sound(v, q, least, nodes) && Complete(v, q, least, nodes) && Ordered(nodes)
  }

  /** A group that holds a slot with no caller at this depth shows no children at all. */
  lemma ExactWhenBlocked(v: seq<Slot>, q: seq<Word>, least: Word)
    requires |q| < MAXCALLERS && Blocked(v, q)
    ensures Exact(v, q, least, [])
  {
    forall p | q < p
      ensures !InTrie(v, p, |q|)
    {
      assert p[..|q|] == q;
    }
  }

  lemma {:induction false} ExactWhenOpen(v: seq<Slot>, q: seq<Word>, lo: nat, idx: nat, hi: nat, child: seq<Node>, rest: seq<Node>)
    requires Sorted(v) && At(v, q, lo, idx, hi) && v[idx].callers[|q|] != 0
    requires if |q| < MAXCALLERS - 1
             then Exact(v, q + [v[idx].callers[|q|]], v[idx].callers[|q| + 1], child)
             else child == []
    requires var i := GroupEnd(v, idx, idx + 1, |q|, hi);
             if i < hi then Exact(v, q, v[i].callers[|q|], rest) else rest == []
    ensures var i := GroupEnd(v, idx, idx + 1, |q|, hi);
            var node := Node(v[idx].callers[..|q| + 1], Int32(SizeBetween(v, idx, i)), v[idx].kind);
            Exact(v, q, v[idx].callers[|q|], [node] + child + rest)
  {
    var w := v[idx].callers[|q|];
    var i := GroupEnd(v, idx, idx + 1, |q|, hi);
    var sub := q + [w];
    SubGroup(v, q, lo, idx, hi);
    LaterWordsAllGrow(v, q, lo, idx, hi);
    NotBlocked(v, q, lo, idx, hi);
    assert q <= v[idx].callers;
    assert sub == v[idx].callers[..|q| + 1];
    SumOfGroup(v, sub, idx, i);
    var node := Node(sub, Int32(SizeBetween(v, idx, i)), v[idx].kind);
    assert FirstUnder(v, node.path, idx);
    var least := if i < hi then v[i].callers[|q|] else w;
    var below := if |q| < MAXCALLERS - 1 then v[idx].callers[|q| + 1] else w;
    CombineSound(v, q, w, node, child, rest, below, least);
    forall k | 0 <= k < |child|
      ensures node.path < child[k].path
    {
      assert SoundNode(v, sub, below, child[k]);
    }
    forall k | 0 <= k < |rest|
      ensures q < rest[k].path && least <= rest[k].path[|q|]
    {
      assert SoundNode(v, q, least, rest[k]);
    }
    CombineOrdered(q, node, child, rest, least);
    CombineComplete(v, q, lo, idx, i, hi, node, child, rest);
  }

  /** diveAndPrint visits exactly the shown prefixes below `q` from `idx` on, in order, once each. */
  lemma {:induction false} VisitExact(v: seq<Slot>, q: seq<Word>, lo: nat, idx: nat, hi: nat)
    requires Sorted(v) && At(v, q, lo, idx, hi)
    ensures Exact(v, q, v[idx].callers[|q|], Visit(v, idx, |q|, hi))
    decreases hi - idx, MAXCALLERS - |q|
  {
    var w := v[idx].callers[|q|];
    if w == 0 {
      assert Blocked(v, q);
      ExactWhenBlocked(v, q, w);
    } else {
      var i := GroupEnd(v, idx, idx + 1, |q|, hi);
      SubGroup(v, q, lo, idx, hi);
      if |q| < MAXCALLERS - 1 {
        VisitExact(v, q + [w], idx, idx, i);
      }
      if i < hi {
        NextSubGroup(v, q, lo, idx, hi);
        VisitExact(v, q, lo, i, hi);
      }
      VisitOpen(v, q, lo, idx, hi);
    }
  }

  lemma {:induction false} VisitOpen(v: seq<Slot>, q: seq<Word>, lo: nat, idx: nat, hi: nat)
    requires Sorted(v) && At(v, q, lo, idx, hi) && v[idx].callers[|q|] != 0
    requires var w, i := v[idx].callers[|q|], GroupEnd(v, idx, idx + 1, |q|, hi);
             && (|q| < MAXCALLERS - 1 ==> Exact(v, q + [w], v[idx].callers[|q| + 1], Visit(v, idx, |q| + 1, i)))
             && (i < hi ==> Exact(v, q, v[i].callers[|q|], Visit(v, i, |q|, hi)))
    ensures Exact(v, q, v[idx].callers[|q|], Visit(v, idx, |q|, hi))
  {
    var i := GroupEnd(v, idx, idx + 1, |q|, hi);
    var child := if |q| < MAXCALLERS - 1 then Visit(v, idx, |q| + 1, i) else [];
    var rest := if i < hi then Visit(v, i, |q|, hi) else [];
    ExactWhenOpen(v, q, lo, idx, hi, child, rest);
  }

  lemma SoundAbove(v: seq<Slot>, q: seq<Word>, w: Word, least: Word, n: Node)
    requires |q| < MAXCALLERS && !Blocked(v, q)
    requires SoundNode(v, q + [w], least, n)
    ensures SoundNode(v, q, w, n)
  {
    assert n.path[|q|] == (q + [w])[|q|];
    assert q < n.path;
    ChildInTrie(v, q, n.path);
  }

  lemma {:induction false} CombineSound(v: seq<Slot>, q: seq<Word>, w: Word, node: Node, child: seq<Node>, rest: seq<Node>, below: Word, least: Word)
    requires |q| < MAXCALLERS && !Blocked(v, q)
    requires node.path == q + [w] && Occurs(v, node.path)
    requires node.size == Int32(SumUnder(v, node.path)) && FirstKind(v, node)
    requires Sound(v, q + [w], below, child)
    requires Sound(v, q, least, rest) && w <= least
    ensures Sound(v, q, w, [node] + child + rest)
  {
    ChildInTrie(v, q, node.path);
    forall k | 0 <= k < |child|
      ensures SoundNode(v, q, w, child[k])
    {
      SoundAbove(v, q, w, below, child[k]);
    }
  }

  lemma CombineOrdered(q: seq<Word>, node: Node, child: seq<Node>, rest: seq<Node>, least: Word)
    requires |node.path| == |q| + 1 && q < node.path
    requires forall k :: 0 <= k < |child| ==> node.path < child[k].path
    requires forall k :: 0 <= k < |rest| ==> q < rest[k].path && least <= rest[k].path[|q|]
    requires rest != [] ==> node.path[|q|] < least
    requires Ordered(child) && Ordered(rest)
    ensures Ordered([node] + child + rest)
  {
    var nodes := [node] + child + rest;
    forall i, j | 0 <= i < j < |nodes|
      ensures Less(nodes[i].path, nodes[j].path)
    {
      if j <= |child| {
        assert nodes[j] == child[j - 1];
        if i > 0 { assert nodes[i] == child[i - 1]; }
      } else {
        assert nodes[j] == rest[j - 1 - |child|];
        if i > |child| {
          assert nodes[i] == rest[i - 1 - |child|];
        } else {
          if i > 0 { assert nodes[i] == child[i - 1]; }
          assert node.path <= nodes[i].path;
          assert FirstDiff(nodes[i].path, nodes[j].path, |q|);
        }
      }
    }
  }

  lemma CombineComplete(v: seq<Slot>, q: seq<Word>, lo: nat, idx: nat, i: nat, hi: nat, node: Node, child: seq<Node>, rest: seq<Node>)
    requires Sorted(v) && At(v, q, lo, idx, hi) && !Blocked(v, q)
    requires node.path == q + [v[idx].callers[|q|]] && Group(v, node.path, idx, i) && i <= hi
    requires |q| < MAXCALLERS - 1 ==> Complete(v, node.path, v[idx].callers[|q| + 1], child)
    requires i < hi ==> Complete(v, q, v[i].callers[|q|], rest)
    ensures Complete(v, q, v[idx].callers[|q|], [node] + child + rest)
  {
    forall p | q < p && InTrie(v, p, |q|) && v[idx].callers[|q|] <= p[|q|]
      ensures HasPath([node] + child + rest, p)
    {
      if p == node.path {
        assert ([node] + child + rest)[0].path == p;
      } else if p[|q|] == v[idx].callers[|q|] {
        ShownByChild(v, q, idx, i, node, child, p);
        PathInParts(node, child, rest, p);
      } else {
        ShownByRest(v, q, lo, idx, i, hi, rest, p);
        PathInParts(node, child, rest, p);
      }
    }
  }

  lemma PathInParts(node: Node, child: seq<Node>, rest: seq<Node>, p: seq<Word>)
    requires HasPath(child, p) || HasPath(rest, p)
    ensures HasPath([node] + child + rest, p)
  {
    var nodes := [node] + child + rest;
    if HasPath(child, p) {
      var j :| 0 <= j < |child| && child[j].path == p;
      assert nodes[1 + j] == child[j];
    } else {
      var j :| 0 <= j < |rest| && rest[j].path == p;
      assert nodes[1 + |child| + j] == rest[j];
    }
  }

  /** A longer prefix with the same next word is below the node. */
  lemma ShownByChild(v: seq<Slot>, q: seq<Word>, idx: nat, i: nat, node: Node, child: seq<Node>, p: seq<Word>)
    requires |q| < MAXCALLERS && !Blocked(v, q) && Sorted(v) && q < p && InTrie(v, p, |q|)
    requires idx < i <= |v| && node.path == q + [v[idx].callers[|q|]] && Group(v, node.path, idx, i)
    requires |q| < MAXCALLERS - 1 ==> Complete(v, node.path, v[idx].callers[|q| + 1], child)
    requires p != node.path && p[|q|] == v[idx].callers[|q|]
    ensures HasPath(child, p)
  {
    ExtendsPrefix(q, p);
    FirstIsLeast(v, node.path, idx, i, p);
    DeeperInTrie(v, p, |q|);
    UseComplete(v, node.path, v[idx].callers[|node.path|], child, p);
  }

  lemma ExtendsPrefix(q: seq<Word>, p: seq<Word>)
    requires q < p
    ensures q + [p[|q|]] <= p
  {
    assert p[..|q| + 1] == q + [p[|q|]];
  }

  lemma DeeperInTrie(v: seq<Slot>, p: seq<Word>, from: nat)
    requires InTrie(v, p, from) && from + 1 < |p|
    ensures InTrie(v, p, from + 1)
  {
  }

  lemma UseComplete(v: seq<Slot>, q: seq<Word>, least: Word, nodes: seq<Node>, p: seq<Word>)
    requires Complete(v, q, least, nodes) && q < p && InTrie(v, p, |q|) && least <= p[|q|]
    ensures HasPath(nodes, p)
  {
  }

  lemma FirstIsLeast(v: seq<Slot>, q: seq<Word>, lo: nat, hi: nat, p: seq<Word>)
    requires Sorted(v) && Group(v, q, lo, hi) && q < p && |p| <= MAXCALLERS && Occurs(v, p)
    ensures v[lo].callers[|q|] <= p[|q|]
  {
    var k :| 0 <= k < |v| && p <= v[k].callers;
    assert q <= v[k].callers;
    WordsAscend(v, q, lo, hi, lo, k);
  }

  /** A prefix with a larger next word is in a later group. */
  lemma ShownByRest(v: seq<Slot>, q: seq<Word>, lo: nat, idx: nat, i: nat, hi: nat, rest: seq<Node>, p: seq<Word>)
    requires Sorted(v) && At(v, q, lo, idx, hi) && i <= hi && Group(v, q + [v[idx].callers[|q|]], idx, i)
    requires i < hi ==> Complete(v, q, v[i].callers[|q|], rest)
    requires q < p && InTrie(v, p, |q|) && v[idx].callers[|q|] < p[|q|]
    ensures HasPath(rest, p)
  {
    var k :| 0 <= k < |v| && p <= v[k].callers;
    InLaterGroup(v, q, lo, idx, i, hi, p, k);
  }

  lemma InLaterGroup(v: seq<Slot>, q: seq<Word>, lo: nat, idx: nat, i: nat, hi: nat, p: seq<Word>, k: nat)
    requires Sorted(v) && At(v, q, lo, idx, hi) && i <= hi
    requires Group(v, q + [v[idx].callers[|q|]], idx, i)
    requires q < p && k < |v| && p <= v[k].callers && v[idx].callers[|q|] < p[|q|]
    ensures i <= k < hi && v[i].callers[|q|] <= p[|q|]
  {
    assert q <= v[k].callers;
    WordsAscend(v, q, lo, hi, i, k);
  }

  /** The report tree is an exact trie of the call stacks: each shown prefix is visited exactly
      once, with the sum over all slots sharing it, and nothing else is visited. */
  lemma {:induction false} TreeIsExactTrie(v: seq<Slot>)
    requires v != [] && Sorted(v)
    ensures var nodes := Visit(v, 0, 0, |v|);
            && (forall p :: Shown(v, p) <==> HasPath(nodes, p))
            && (forall k :: 0 <= k < |nodes| ==> nodes[k].size == Int32(SumUnder(v, nodes[k].path)))
            && (forall k :: 0 <= k < |nodes| ==> FirstKind(v, nodes[k]))
            && Ordered(nodes)
            && forall i, j :: 0 <= i < j < |nodes| ==> nodes[i].path != nodes[j].path
  {
    var nodes := Visit(v, 0, 0, |v|);
    VisitExact(v, [], 0, 0, |v|);
    forall p
      ensures Shown(v, p) <==> HasPath(nodes, p)
    {
      if Shown(v, p) {
        var k :| 0 <= k < |v| && p <= v[k].callers;
        WordsAscend(v, [], 0, |v|, 0, k);
        assert [] < p;
      }
    }
    forall i, j | 0 <= i < j < |nodes|
      ensures nodes[i].path != nodes[j].path
    {
      LessIsStrictTotalOrder(nodes[i].path, nodes[j].path, nodes[j].path);
    }
  }

  // ---------------------------------------------------------------- what the lines say

  /** The line tells of the slots under `p`: as deep as p is long, p's last word, a size, and at the
      outermost level the type of the first of them. */
  ghost predicate Tells(l: Line, v: seq<Slot>, p: seq<Word>, size: int) {
    && p != [] && l.indent == |p| - 1 && l.addr == p[|p| - 1] && l.size == size
    && (l.indent > 0 ==> l.mark == ' ')
    && (l.indent == 0 ==> exists k :: FirstUnder(v, p, k) && l.mark == if v[k].kind == Memory then 'm' else 'f')
  }

  /** The lines tell, in strictly increasing order, of exactly the shown prefixes with a positive sum. */
  ghost predicate TellsAll(lines: seq<Line>, v: seq<Slot>, paths: seq<seq<Word>>) {
    && TellsEach(lines, v, paths)
    && (forall i, j :: 0 <= i < j < |paths| ==> Less(paths[i], paths[j]))
    && forall p :: p in paths <==> Shown(v, p) && Int32(SumUnder(v, p)) > 0
  }

  function Told(nodes: seq<Node>): seq<seq<Word>> {
    if nodes == [] then [] else (if nodes[0].size > 0 then [nodes[0].path] else []) + Told(nodes[1..])
  }

  ghost predicate IsTold(nodes: seq<Node>, p: seq<Word>) {
    exists k :: 0 <= k < |nodes| && nodes[k].path == p && nodes[k].size > 0
  }

  lemma {:induction false} ToldPaths(nodes: seq<Node>, p: seq<Word>)
    ensures p in Told(nodes) <==> IsTold(nodes, p)
  {
    if nodes != [] {
      ToldPaths(nodes[1..], p);
      if IsTold(nodes, p) {
        var k :| 0 <= k < |nodes| && nodes[k].path == p && nodes[k].size > 0;
        if k > 0 { assert nodes[1..][k - 1] == nodes[k]; }
      }
      if IsTold(nodes[1..], p) {
        var k :| 0 <= k < |nodes[1..]| && nodes[1..][k].path == p && nodes[1..][k].size > 0;
        assert nodes[k + 1] == nodes[1..][k];
      }
    }
  }

  lemma {:induction false} ToldOrdered(nodes: seq<Node>)
    requires Ordered(nodes)
    ensures forall i, j :: 0 <= i < j < |Told(nodes)| ==> Less(Told(nodes)[i], Told(nodes)[j])
  {
    if nodes != [] {
      var rest := nodes[1..];
      ToldOrdered(rest);
      forall j | 0 <= j < |Told(rest)|
        ensures Less(nodes[0].path, Told(rest)[j])
      {
        ToldPaths(rest, Told(rest)[j]);
        var k :| 0 <= k < |rest| && rest[k].path == Told(rest)[j] && rest[k].size > 0;
        assert rest[k] == nodes[k + 1];
      }
    }
  }

  ghost predicate TellsEach(lines: seq<Line>, v: seq<Slot>, paths: seq<seq<Word>>) {
    && |lines| == |paths|
    && forall k :: 0 <= k < |lines| ==> Tells(lines[k], v, paths[k], Int32(SumUnder(v, paths[k])))
  }

  lemma {:induction false} ToldLines(v: seq<Slot>, nodes: seq<Node>)
    requires forall n :: n in nodes ==> n.path != [] && n.size == Int32(SumUnder(v, n.path)) && FirstKind(v, n)
    ensures TellsEach(Printed(nodes, false), v, Told(nodes))
  {
    if nodes != [] {
      var n, rest := nodes[0], nodes[1..];
      ToldLines(v, rest);
      if n.size > 0 {
        ToldLine(v, n);
        TellsBoth(v, LineOf(n, false), [n.path], Printed(rest, false), Told(rest));
      } else {
        assert Printed(nodes, false) == Printed(rest, false) && Told(nodes) == Told(rest);
      }
    }
  }

  lemma TellsBoth(v: seq<Slot>, a: seq<Line>, p: seq<seq<Word>>, b: seq<Line>, q: seq<seq<Word>>)
    requires TellsEach(a, v, p) && TellsEach(b, v, q)
    ensures TellsEach(a + b, v, p + q)
  {
    var lines, paths := a + b, p + q;
    forall k | 0 <= k < |lines|
      ensures Tells(lines[k], v, paths[k], Int32(SumUnder(v, paths[k])))
    {
      if k < |a| { assert lines[k] == a[k] && paths[k] == p[k]; }
      else { assert lines[k] == b[k - |a|] && paths[k] == q[k - |a|]; }
    }
  }

  lemma {:induction false} ToldLine(v: seq<Slot>, n: Node)
    requires n.path != [] && n.size == Int32(SumUnder(v, n.path)) > 0 && FirstKind(v, n)
    ensures |LineOf(n, false)| == 1 && Tells(LineOf(n, false)[0], v, n.path, Int32(SumUnder(v, n.path)))
  {
  }

  /** What a report prints for a sorted vector. */
  lemma {:induction false} LinesAreExact(v: seq<Slot>) returns (paths: seq<seq<Word>>)
    requires v != [] && Sorted(v)
    ensures TellsAll(Printed(Visit(v, 0, 0, |v|), false), v, paths)
  {
    var nodes := Visit(v, 0, 0, |v|);
    paths := Told(nodes);
    TreeIsExactTrie(v);
    forall n | n in nodes
      ensures n.path != []
    {
      assert HasPath(nodes, n.path);
    }
    ToldLines(v, nodes);
    ToldOrdered(nodes);
    forall p
      ensures p in paths <==> Shown(v, p) && Int32(SumUnder(v, p)) > 0
    {
      ToldPaths(nodes, p);
    }
  }

  lemma {:induction false} SummaryIsSilent(nodes: seq<Node>)
    ensures Printed(nodes, true) == []
  {
    if nodes != [] { SummaryIsSilent(nodes[1..]); }
  }
}
