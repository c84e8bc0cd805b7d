// The command history of a console (trxmgrHist.c): a bounded, resizable list of the newest commands.
module History {
  import opened Options

  const DEF_MAXHIST := 1000

  type Command = seq<char>

  // ---------------------------------------------------------------- the history as a function of what was done

  /** `entries` are the commands kept, oldest first, at most `nbuf` of them; `log` is every command
      ever added. */
  datatype Hist = Hist(nbuf: nat, entries: seq<Command>, log: seq<Command>)

  datatype Op = Add(line: Command) | Resize(maxh: int)

  function Newest(l: seq<Command>, n: nat): seq<Command> {
    if |l| <= n then l else l[|l| - n..]
  }

  function Do(h: Hist, op: Op): Hist {
    match op
    case Add(line) => Hist(h.nbuf, Newest(h.entries + [line], h.nbuf), h.log + [line])
    case Resize(maxh) =>
      if 0 < maxh <= DEF_MAXHIST then Hist(maxh, Newest(h.entries, maxh), h.log) else h
  }

  function DoAll(h: Hist, ops: seq<Op>): Hist {
    if ops == [] then h else Do(DoAll(h, ops[..|ops| - 1]), ops[|ops| - 1])
  }

  ghost predicate IsNewestPart(h: Hist) {
    0 < h.nbuf <= DEF_MAXHIST && |h.entries| <= h.nbuf && h.entries == Newest(h.log, |h.entries|)
  }

  /** The entry that carries tag `k` when tags count the commands added. */
  function TagAt(h: Hist, i: int): int {
    |h.log| - |h.entries| + i + 1
  }

  function TagsOf(h: Hist): (r: seq<int>)
    ensures |r| == |h.entries| && forall i :: 0 <= i < |r| ==> r[i] == TagAt(h, i)
  {
    seq(|h.entries|, i => TagAt(h, i))
  }

  ghost predicate Bounded(lines: seq<Command>, maxl: nat) {
    forall i :: 0 <= i < |lines| ==> |lines[i]| <= maxl
  }

  lemma NewestOfNewest(l: seq<Command>, a: nat, b: nat)
    ensures Newest(Newest(l, a), b) == Newest(l, if a < b then a else b)
  {
  }

  lemma NewestLength(l: seq<Command>, n: nat)
    ensures |Newest(l, n)| == if |l| <= n then |l| else n
  {
  }

  lemma NewestSnoc(l: seq<Command>, n: nat, line: Command)
    requires n <= |l|
    ensures Newest(l + [line], n + 1) == Newest(l, n) + [line]
  {
  }

  lemma AddKeepsNewest(h: Hist, line: Command)
    requires IsNewestPart(h)
    ensures IsNewestPart(Do(h, Add(line)))
  {
    var n := |h.entries|;
    NewestSnoc(h.log, n, line);
    NewestOfNewest(h.log + [line], n + 1, h.nbuf);
    NewestLength(h.entries + [line], h.nbuf);
  }

  lemma ResizeKeepsNewest(h: Hist, maxh: int)
    requires IsNewestPart(h) && 0 < maxh <= DEF_MAXHIST
    ensures IsNewestPart(Do(h, Resize(maxh)))
  {
    NewestOfNewest(h.log, |h.entries|, maxh);
    NewestLength(h.entries, maxh);
  }

  lemma DoKeepsNewest(h: Hist, op: Op)
    requires IsNewestPart(h)
    ensures IsNewestPart(Do(h, op))
  {
    match op
    case Add(line) => AddKeepsNewest(h, line);
    case Resize(maxh) => if 0 < maxh <= DEF_MAXHIST { ResizeKeepsNewest(h, maxh); }
  }

  /** After any mix of additions and resizes the entries are the newest part of the log, and the entry
      tagged k is the k-th command ever added. */
  lemma {:induction false} HistoryIsNewestPart(nbuf: nat, ops: seq<Op>, i: nat)
    requires 0 < nbuf <= DEF_MAXHIST
    ensures var h := DoAll(Hist(nbuf, [], []), ops);
            IsNewestPart(h) && (i < |h.entries| ==> 1 <= TagAt(h, i) <= |h.log| && h.entries[i] == h.log[TagAt(h, i) - 1])
  {
    if ops != [] {
      HistoryIsNewestPart(nbuf, ops[..|ops| - 1], 0);
      DoKeepsNewest(DoAll(Hist(nbuf, [], []), ops[..|ops| - 1]), ops[|ops| - 1]);
    }
  }

  /** The log is exactly the commands added, whatever was resized in between. */
  function Added(ops: seq<Op>): seq<Command> {
    if ops == [] then []
    else
      var op := ops[|ops| - 1];
      Added(ops[..|ops| - 1]) + if op.Add? then [op.line] else []
  }

  lemma {:induction false} LogIsWhatWasAdded(nbuf: nat, ops: seq<Op>)
    ensures DoAll(Hist(nbuf, [], []), ops).log == Added(ops)
  {
    if ops != [] {
      LogIsWhatWasAdded(nbuf, ops[..|ops| - 1]);
      assert Added(ops[..|ops| - 1]) + [] == Added(ops[..|ops| - 1]);
    }
  }

  /** hist_add's line: both parts joined and cut to the maximum length. */
  function Joined(s1: Command, s2: Command, maxl: nat): (r: Command)
    requires |s1| <= maxl
    ensures r == (s1 + s2)[..if |s1| + |s2| < maxl then |s1| + |s2| else maxl]
  {
    s1 + if |s2| <= maxl - |s1| then s2 else s2[..maxl - |s1|]
  }

  /** Where `!-n` points: the comparison is strict, so the oldest entry cannot be reached this way,
      and n = 0 points past the newest. */
  function RelativeIdx(curidx: nat, n: nat): Option<nat> {
    if curidx > n then Some(curidx - n) else None
  }

  lemma RelativeReach(h: Hist, n: nat)
    requires IsNewestPart(h)
    ensures RelativeIdx(|h.entries|, n).Some? && RelativeIdx(|h.entries|, n).value < |h.entries| <==> 1 <= n < |h.entries|
    ensures 1 <= n < |h.entries| ==> h.entries[RelativeIdx(|h.entries|, n).value] == h.log[|h.log| - n]
    ensures h.entries != [] ==> RelativeIdx(|h.entries|, 0) == Some(|h.entries|)
  {
  }

  lemma KeptEntries(h: Hist, line: Command)
    requires IsNewestPart(h)
    ensures Do(h, Add(line)).entries == (if |h.entries| == h.nbuf then h.entries[1..] else h.entries) + [line]
  {
  }

  /** Appending the next tag after dropping the oldest keeps the tags consecutive. */
  lemma TagsFollow(h: Hist, line: Command)
    requires IsNewestPart(h)
    ensures TagsOf(Do(h, Add(line)))
            == (if |h.entries| == h.nbuf then TagsOf(h)[1..] else TagsOf(h)) + [|h.log| + 1]
  {
    KeptEntries(h, line);
  }

  lemma StaysBounded(h: Hist, line: Command, maxl: nat)
    requires IsNewestPart(h) && Bounded(h.entries, maxl) && |line| <= maxl
    ensures Bounded(Do(h, Add(line)).entries, maxl)
  {
    KeptEntries(h, line);
  }

  /** The history after an addition: what its entries and tags are, and that they are in order. */
  lemma AddOutcome(h: Hist, line: Command, maxl: nat) returns (h': Hist)
    requires IsNewestPart(h) && Bounded(h.entries, maxl) && |line| <= maxl
    ensures h' == Do(h, Add(line)) && h'.nbuf == h.nbuf && h'.log == h.log + [line]
    ensures h'.entries == (if |h.entries| == h.nbuf then h.entries[1..] else h.entries) + [line]
    ensures TagsOf(h') == (if |h.entries| == h.nbuf then TagsOf(h)[1..] else TagsOf(h)) + [|h.log| + 1]
    ensures IsNewestPart(h') && Bounded(h'.entries, maxl)
  {
    h' := Do(h, Add(line));
    KeptEntries(h, line);
    TagsFollow(h, line);
    StaysBounded(h, line, maxl);
    AddKeepsNewest(h, line);
  }

  lemma ResizedTags(h: Hist, maxh: int)
    requires IsNewestPart(h) && 0 < maxh <= DEF_MAXHIST
    ensures var start := if maxh < |h.entries| then |h.entries| - maxh else 0;
            && Do(h, Resize(maxh)).entries == h.entries[start..]
            && TagsOf(Do(h, Resize(maxh))) == TagsOf(h)[start..]
  {
  }

  lemma SameSize(h: Hist)
    requires IsNewestPart(h)
    ensures Do(h, Resize(h.nbuf)) == h
  {
  }

  /** The history after a change of size. */
  lemma ResizeOutcome(h: Hist, maxh: int, start: nat, maxl: nat) returns (h': Hist)
    requires IsNewestPart(h) && Bounded(h.entries, maxl) && 0 < maxh <= DEF_MAXHIST
    requires start == if maxh < |h.entries| then |h.entries| - maxh else 0
    ensures h' == Do(h, Resize(maxh)) && h'.nbuf == maxh && h'.log == h.log
    ensures h'.entries == h.entries[start..] && TagsOf(h') == TagsOf(h)[start..]
    ensures IsNewestPart(h') && Bounded(h'.entries, maxl)
  {
    h' := Do(h, Resize(maxh));
    ResizedTags(h, maxh);
    ResizeKeepsNewest(h, maxh);
  }

  // ---------------------------------------------------------------- the code

  class History {
    const maxl: nat
    var nbuf: nat
    var cmds: array<Command>
    var ctag: array<int>
    var curidx: nat
    var curtag: nat
    ghost var log: seq<Command>

    ghost predicate Valid()
      reads this, cmds, ctag
    {
      && cmds.Length == ctag.Length == nbuf && curidx <= nbuf
      && IsNewestPart(St()) && curtag == |log|
      && ctag[..curidx] == TagsOf(St()) && Bounded(St().entries, maxl)
    }

    ghost function St(): Hist
      reads this, cmds
      requires curidx <= cmds.Length
    {
      Hist(nbuf, cmds[..curidx], log)
    }

    /** `junk` is what the memory for the tags happens to hold. */
    constructor (maxh: nat, maxl: nat, junk: nat -> int)
      requires 0 < maxh <= DEF_MAXHIST
      ensures Valid() && this.maxl == maxl && St() == Hist(maxh, [], []) && fresh(cmds) && fresh(ctag)
      ensures forall i: nat :: i < maxh ==> ctag[i] == junk(i)
    {
      this.maxl := maxl;
      nbuf, curidx, curtag, log := maxh, 0, 0, [];
      cmds := new Command[maxh](i => []);
      ctag := new int[maxh](i requires 0 <= i => junk(i));
      new;
      assert forall i :: 0 <= i < maxh ==> ctag[i] == junk(i);
    }

    /** The copying loop of hist_setmax, into new arrays of `maxh` slots. */
    method CopyNewest(maxh: nat, junk: nat -> int) returns (nc: array<Command>, nt: array<int>, n: nat)
      requires curidx <= cmds.Length && curidx <= ctag.Length
      ensures fresh(nc) && fresh(nt) && nc.Length == nt.Length == maxh && n <= maxh
      ensures var start := if maxh < curidx then curidx - maxh else 0;
              nc[..n] == cmds[start..curidx] && nt[..n] == ctag[start..curidx]
    {
      nc := new Command[maxh](i => []);
      nt := new int[maxh](junk);
      var start := if maxh < curidx then curidx - maxh else 0;
      var i := start;
      n := 0;
      while n < maxh && i < curidx
        modifies nc, nt
        invariant start <= i <= curidx && 0 <= n <= maxh && i == start + n
        invariant nc[..n] == cmds[start..i] && nt[..n] == ctag[start..i]
      {
        nt[n] := ctag[i];
        nc[n] := cmds[i];
        i, n := i + 1, n + 1;
      }
    }

    /** hist_setmax; `memory` says whether the new arrays can be allocated. */
    method SetMax(maxh: int, memory: bool, junk: nat -> int)
      requires Valid()
      modifies this
      ensures Valid() && (fresh(cmds) || cmds == old(cmds)) && (fresh(ctag) || ctag == old(ctag))
      ensures St() == if memory then Do(old(St()), Resize(maxh)) else old(St())
      ensures memory && 0 < maxh <= DEF_MAXHIST ==>
                && nbuf == maxh && log == old(log) && curidx == (if maxh < old(curidx) then maxh else old(curidx))
                && cmds[..curidx] == old(cmds[..curidx])[old(curidx) - curidx..]
      ensures !(memory && 0 < maxh <= DEF_MAXHIST) ==> St() == old(St())
    {
      if maxh > DEF_MAXHIST || maxh <= 0 { return; }
      SameSize(St());
      if maxh != nbuf && memory { Move(maxh, junk); }
    }

    /** The copy to new arrays of another size. */
    method Move(maxh: nat, junk: nat -> int)
      requires Valid() && 0 < maxh <= DEF_MAXHIST
      modifies this
      ensures Valid() && fresh(cmds) && fresh(ctag) && St() == Do(old(St()), Resize(maxh))
    {
      ghost var start := if maxh < curidx then curidx - maxh else 0;
      ghost var h' := ResizeOutcome(St(), maxh, start, maxl);
      var nc, nt, n := CopyNewest(maxh, junk);
      assert cmds[start..curidx] == cmds[..curidx][start..] && ctag[start..curidx] == ctag[..curidx][start..];
      cmds, ctag, nbuf, curidx := nc, nt, maxh, n;
      assert St() == h';
    }

    /** hist_add, when its one allocation succeeds. */
    method AddLine(s1: Command, s2: Command) returns (pt: Command)
      requires Valid() && |s1| <= maxl
      modifies this, cmds, ctag
      ensures Valid() && cmds == old(cmds) && ctag == old(ctag)
      ensures pt == (s1 + s2)[..if |s1| + |s2| < maxl then |s1| + |s2| else maxl]
      ensures nbuf == old(nbuf) && log == old(log) + [pt] && curidx == if old(curidx) == nbuf then nbuf else old(curidx) + 1
      ensures cmds[..curidx] == (if old(curidx) == nbuf then old(cmds[..curidx])[1..] else old(cmds[..curidx])) + [pt]
      ensures St() == Do(old(St()), Add(pt))
      ensures forall i :: curidx <= i < nbuf ==> ctag[i] == old(ctag[i])
    {
      pt := Joined(s1, s2, maxl);
      ghost var h := St();
      ghost var h' := AddOutcome(h, pt, maxl);
      if curidx == nbuf { DropOldest(); }
      Append(pt);
      assert cmds[..curidx] == h'.entries && ctag[..curidx] == TagsOf(h');
      assert St() == h';
    }

    /** Store the new entry and its tag in the first free slot. */
    method Append(pt: Command)
      requires cmds.Length == ctag.Length == nbuf && curidx < nbuf
      modifies this`curidx, this`curtag, this`log, cmds, ctag
      ensures curidx == old(curidx) + 1 && curtag == old(curtag) + 1 && log == old(log) + [pt]
      ensures cmds[..curidx] == old(cmds[..curidx]) + [pt] && ctag[..curidx] == old(ctag[..curidx]) + [curtag]
      ensures forall i :: curidx <= i < nbuf ==> ctag[i] == old(ctag[i])
    {
      cmds[curidx] := pt;
      curtag := curtag + 1;
      ctag[curidx] := curtag;
      if curidx < nbuf { curidx := curidx + 1; }
      log := log + [pt];
    }

    /** Move commands and tags over by one. */
    method DropOldest()
      requires cmds.Length == ctag.Length == nbuf && curidx == nbuf && nbuf > 0
      modifies this`curidx, cmds, ctag
      ensures curidx == old(curidx) - 1
      ensures cmds[..curidx] == old(cmds[..curidx])[1..] && ctag[..curidx] == old(ctag[..curidx])[1..]
    {
      forall k | 0 <= k < nbuf - 1 {
        cmds[k] := cmds[k + 1];
      }
      forall k | 0 <= k < nbuf - 1 {
        ctag[k] := ctag[k + 1];
      }
      curidx := curidx - 1;
    }

    /** hist_getcmd: the off-th newest command; offset 0 is an empty line. */
    method GetCmd(off: int) returns (line: Option<Command>)
      requires Valid()
      ensures line.Some? <==> 0 <= off <= |St().entries|
      ensures line.Some? ==> line.value == if off == 0 then [] else log[|log| - off]
    {
      if off <= curidx && off >= 0 {
        line := Some(if off != 0 then cmds[curidx - off] else []);
        assert off != 0 ==> cmds[curidx - off] == St().entries[curidx - off];
      } else {
        line := None;
      }
    }

    /** getidx: the backward scan for a tag.  It starts one slot past the newest entry; `beyond` is what
        it reads there when that slot is past the end of the array. */
    method GetIdx(tag: int, beyond: int) returns (i: int)
      requires Valid()
      ensures var first := if curidx < nbuf then ctag[curidx] else beyond;
              var h := St();
              if first == tag then i == |h.entries|
              else if |h.log| - |h.entries| < tag <= |h.log| then 0 <= i < |h.entries| && h.entries[i] == h.log[tag - 1]
              else i == -1
    {
      i := curidx;
      while i >= 0
        invariant -1 <= i <= curidx
        invariant i < curidx ==> (if curidx < nbuf then ctag[curidx] else beyond) != tag
        invariant forall k :: i < k < curidx ==> ctag[k] != tag
        decreases i
      {
        if (if i < nbuf then ctag[i] else beyond) == tag { break; }
        i := i - 1;
      }
      assert forall k :: 0 <= k < curidx ==> ctag[k] == ctag[..curidx][k];
      assert |log| - curidx < tag <= |log| ==> ctag[tag - 1 - (|log| - curidx)] == tag;
      assert 0 <= i < curidx ==> cmds[i] == St().entries[i];
    }

    /** repeat: the entry again, with whatever followed the reference. */
    method Repeat(idx: nat, xtra: Command) returns (p: Command)
      requires Valid() && idx < curidx
      modifies this, cmds, ctag
      ensures Valid() && cmds == old(cmds) && ctag == old(ctag)
      ensures p == Joined(old(St()).entries[idx], xtra, maxl) && St() == Do(old(St()), Add(p))
      ensures log == old(log) + [p]
    {
      assert cmds[idx] == St().entries[idx];
      p := AddLine(cmds[idx], xtra);
    }
  }

  /** A reachable misreading: with the tag 1 left in unused memory, `!1` after one command answers the
      unused slot and not that command. */
  method MisreadTag(maxh: nat, maxl: nat, junk: nat -> int, line: Command) returns (i: int, entries: nat)
    requires 1 < maxh <= DEF_MAXHIST && |line| <= maxl && junk(1) == 1
    ensures entries == 1 && i == 1
  {
    var h := new History(maxh, maxl, junk);
    var pt := h.AddLine(line, []);
    assert h.ctag[1] == 1;
    entries := h.curidx;
    i := h.GetIdx(1, 0);
  }
}
