// Report slots (trx.h, trxlib.c:144-219) and the comparison that qsort is given
// (trxmgrClient.c:289-299).  A slot is twelve words: size, resource type and ten callers.
module Slots {
  import opened Words

  const MAXCALLERS := 10

  datatype ResType = Memory | File

  type Trace = t: seq<Word> | |t| == MAXCALLERS witness [0, 0, 0, 0, 0, 0, 0, 0, 0, 0]

  datatype Slot = Slot(size: int, kind: ResType, callers: Trace)

  /** `k` is the first position at which `a` and `b` disagree. */
  ghost predicate FirstDiff(a: seq<Word>, b: seq<Word>, k: int) {
    && 0 <= k < |a| && k < |b|
    && a[k] != b[k]
    && forall j :: 0 <= j < k ==> a[j] == b[j]
  }

  /** Lexicographic order on call stacks; a proper prefix comes first. */
  ghost predicate Less(a: seq<Word>, b: seq<Word>) {
    a < b || exists k :: FirstDiff(a, b, k) && a[k] < b[k]
  }

  ghost predicate Sorted(v: seq<Slot>) {
    forall i, j :: 0 <= i < j < |v| ==> !Less(v[j].callers, v[i].callers)
  }

  /** The comparison routine: a word-by-word scan of the ten callers. */
  method CmpBackTraces(t1: Slot, t2: Slot) returns (r: int)
    ensures r == -1 || r == 0 || r == 1
    ensures r == -1 <==> Less(t1.callers, t2.callers)
    ensures r == 1 <==> Less(t2.callers, t1.callers)
    ensures r == 0 <==> t1.callers == t2.callers
  {
    for pc := 0 to MAXCALLERS
      invariant t1.callers[..pc] == t2.callers[..pc]
    {
      assert forall j :: 0 <= j < pc ==> t1.callers[..pc][j] == t2.callers[..pc][j];
      if t1.callers[pc] < t2.callers[pc] {
        FirstDiffOrders(t1.callers, t2.callers, pc);
        return -1;
      } else if t1.callers[pc] > t2.callers[pc] {
        FirstDiffOrders(t2.callers, t1.callers, pc);
        return 1;
      }
    }
    assert t1.callers == t2.callers;
    return 0;
  }

  lemma FirstDiffUnique(a: seq<Word>, b: seq<Word>, k: int, m: int)
    requires FirstDiff(a, b, k) && (FirstDiff(a, b, m) || FirstDiff(b, a, m))
    ensures k == m
  {
  }

  lemma FirstDiffOrders(a: seq<Word>, b: seq<Word>, k: int)
    requires FirstDiff(a, b, k) && a[k] < b[k]
    ensures Less(a, b) && !Less(b, a) && a != b
  {
    forall m | FirstDiff(b, a, m)
      ensures m == k
    {
      FirstDiffUnique(a, b, k, m);
    }
  }

  /** Any two sequences are equal, or one is a proper prefix, or they first differ somewhere. */
  lemma FindDiff(a: seq<Word>, b: seq<Word>) returns (k: int)
    ensures a == b || a < b || b < a || FirstDiff(a, b, k)
  {
    k := 0;
    while k < |a| && k < |b| && a[k] == b[k]
      invariant 0 <= k <= |a| && k <= |b|
      invariant forall j :: 0 <= j < k ==> a[j] == b[j]
    {
      k := k + 1;
    }
  }

  /** `Less` is a strict total order, so cmpBackTraces is a total preorder on slots. */
  lemma LessIsStrictTotalOrder(a: seq<Word>, b: seq<Word>, c: seq<Word>)
    ensures !Less(a, a)
    ensures Less(a, b) ==> !Less(b, a)
    ensures Less(a, b) || a == b || Less(b, a)
    ensures Less(a, b) && Less(b, c) ==> Less(a, c)
  {
    var ab := FindDiff(a, b);
    if FirstDiff(a, b, ab) {
      if a[ab] < b[ab] { FirstDiffOrders(a, b, ab); }
      else { assert FirstDiff(b, a, ab); FirstDiffOrders(b, a, ab); }
    }
    if Less(a, b) && Less(b, c) {
      LessTransitive(a, b, c);
    }
  }

  lemma LessTransitive(a: seq<Word>, b: seq<Word>, c: seq<Word>)
    requires Less(a, b) && Less(b, c)
    ensures Less(a, c)
  {
    if a < b && b < c {
    } else if a < b {
      var m :| FirstDiff(b, c, m) && b[m] < c[m];
      if m < |a| { assert FirstDiff(a, c, m); } else { assert a <= c[..m]; }
    } else {
      var k :| FirstDiff(a, b, k) && a[k] < b[k];
      if b < c {
        assert FirstDiff(a, c, k);
      } else {
        var m :| FirstDiff(b, c, m) && b[m] < c[m];
        assert FirstDiff(a, c, if k < m then k else m);
      }
    }
  }
}
