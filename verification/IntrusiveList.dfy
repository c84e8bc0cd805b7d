// The doubly linked lists of trxlist.h.  Each element carries a forward link and the address of
// the link that points to it, which is either a list head or another element's forward link.
module IntrusiveList {
  import opened Words

  type Addr = Word  // 0 is NULL

  /** The address of a link cell. */
  datatype Link = HeadOf(tag: nat) | NextOf(elm: Addr)

  ghost predicate NoDuplicates<T>(l: seq<T>) {
    forall i, j :: 0 <= i < j < |l| ==> l[i] != l[j]
  }

  /** `l` without the first occurrence of `e`. */
  function Delete<T(==)>(l: seq<T>, e: T): seq<T> {
    if l == [] then [] else if l[0] == e then l[1..] else [l[0]] + Delete(l[1..], e)
  }

  function DeleteFromAll<T(==)>(lists: seq<seq<T>>, e: T): (r: seq<seq<T>>)
    ensures |r| == |lists|
    ensures forall t :: 0 <= t < |lists| ==> r[t] == Delete(lists[t], e)
  {
    seq(|lists|, t requires 0 <= t < |lists| => Delete(lists[t], e))
  }

  lemma {:induction false} DeleteAt<T>(l: seq<T>, e: T, k: nat)
    requires NoDuplicates(l) && k < |l| && l[k] == e
    ensures Delete(l, e) == l[..k] + l[k + 1..]
  {
    if k > 0 {
      DeleteAt(l[1..], e, k - 1);
      assert [l[0]] + (l[1..][..k - 1] + l[1..][k..]) == l[..k] + l[k + 1..];
    }
  }

  lemma {:induction false} DeleteAbsent<T>(l: seq<T>, e: T)
    requires e !in l
    ensures Delete(l, e) == l
  {
    if l != [] { DeleteAbsent(l[1..], e); }
  }

  /** Element `k` of `l` has the right forward and backward links. */
  ghost predicate Linked(next: map<Addr, Addr>, prev: map<Addr, Link>, t: nat, l: seq<Addr>, k: nat)
    requires k < |l|
  {
    && l[k] != 0 && l[k] in next && l[k] in prev
    && next[l[k]] == (if k + 1 < |l| then l[k + 1] else 0)
    && prev[l[k]] == (if k == 0 then HeadOf(t) else NextOf(l[k - 1]))
  }

  /** The list of tag `t` is threaded through the links: forward, backward and at its head. */
  ghost predicate Threaded(heads: seq<Addr>, next: map<Addr, Addr>, prev: map<Addr, Link>, t: nat, l: seq<Addr>)
    requires t < |heads|
  {
    && (heads[t] == if l == [] then 0 else l[0])
    && (forall k :: 0 <= k < |l| ==> Linked(next, prev, t, l, k))
  }

  ghost predicate Disjoint(lists: seq<seq<Addr>>) {
    && (forall t :: 0 <= t < |lists| ==> NoDuplicates(lists[t]))
    && (forall t, u, e :: 0 <= t < |lists| && 0 <= u < |lists| && e in lists[t] && e in lists[u] ==> t == u)
  }

  ghost predicate Represents(heads: seq<Addr>, next: map<Addr, Addr>, prev: map<Addr, Link>, lists: seq<seq<Addr>>) {
    && |heads| == |lists|
    && Disjoint(lists)
    && forall t :: 0 <= t < |lists| ==> Threaded(heads, next, prev, t, lists[t])
  }

  ghost predicate Listed(lists: seq<seq<Addr>>, e: Addr) {
    exists t :: 0 <= t < |lists| && e in lists[t]
  }

  /** All the list links of the process: the heads and the two links inside each element. */
  class ListHeap {
    var heads: seq<Addr>
    var next: map<Addr, Addr>
    var prev: map<Addr, Link>
    ghost var lists: seq<seq<Addr>>

    ghost predicate Valid()
      reads this
    {
      Represents(heads, next, prev, lists)
    }

    constructor (n: nat)
      ensures Valid() && lists == seq(n, i => [])
    {
      heads, next, prev := seq(n, i => 0), map[], map[];
      lists := seq(n, i => []);
    }

    /** What the link cell at `a` holds. */
    function Deref(a: Link): Addr
      reads this
    {
      match a
      case HeadOf(t) => if t < |heads| then heads[t] else 0
      case NextOf(e) => if e in next then next[e] else 0
    }

    /** `*a = value` */
    method Store(a: Link, value: Addr)
      requires a.HeadOf? ==> a.tag < |heads|
      modifies this
      ensures prev == old(prev) && lists == old(lists)
      ensures heads == if a.HeadOf? then old(heads)[a.tag := value] else old(heads)
      ensures next == if a.NextOf? then old(next)[a.elm := value] else old(next)
    {
      match a
      case HeadOf(t) => heads := heads[t := value];
      case NextOf(e) => next := next[e := value];
    }

    method InsertHead(t: nat, elm: Addr)
      requires Valid() && t < |lists| && elm != 0 && !Listed(lists, elm)
      modifies this
      ensures Valid() && lists == old(lists)[t := [elm] + old(lists)[t]]
    {
      next := next[elm := heads[t]];
      if next[elm] != 0 {
        prev := prev[heads[t] := NextOf(elm)];
      }
      heads := heads[t := elm];
      prev := prev[elm := HeadOf(t)];
      lists := lists[t := [elm] + lists[t]];
      InsertedDisjoint(old(lists), t, elm);
      forall u | 0 <= u < |lists|
        ensures Threaded(heads, next, prev, u, lists[u])
      {
        InsertThreads(old(heads), old(next), old(prev), old(lists), heads, next, prev, t, elm, u);
      }
    }

    /** LIST_REMOVE: only the element is given, not the list that holds it. */
    method Remove(elm: Addr)
      requires Valid() && Listed(lists, elm)
      modifies this
      ensures Valid() && lists == DeleteFromAll(old(lists), elm)
    {
      ghost var t :| 0 <= t < |lists| && elm in lists[t];
      ghost var k :| 0 <= k < |lists[t]| && lists[t][k] == elm;
      assert Threaded(heads, next, prev, t, lists[t]);
      assert Linked(next, prev, t, lists[t], k);
      if next[elm] != 0 {
        prev := prev[next[elm] := prev[elm]];
      }
      Store(prev[elm], next[elm]);
      lists := DeleteFromAll(lists, elm);
      DeletedDisjoint(old(lists), elm);
      forall u | 0 <= u < |lists|
        ensures Threaded(heads, next, prev, u, lists[u])
      {
        RemoveThreads(old(heads), old(next), old(prev), old(lists), heads, next, prev, t, k, u);
      }
    }

    /** LIST_FOREACH: the elements met when walking the forward links from the head. */
    method Walk(t: nat) returns (visited: seq<Addr>)
      requires Valid() && t < |lists|
      ensures visited == lists[t]
    {
      visited := [];
      var v := heads[t];
      assert Threaded(heads, next, prev, t, lists[t]);
      while v != 0
        invariant |visited| <= |lists[t]| && visited == lists[t][..|visited|]
        invariant v == if |visited| < |lists[t]| then lists[t][|visited|] else 0
        decreases |lists[t]| - |visited|
      {
        assert Linked(next, prev, t, lists[t], |visited|);
        visited := visited + [v];
        v := next[v];
      }
      assert |visited| < |lists[t]| ==> Linked(next, prev, t, lists[t], |visited|);
    }

    /** LIST_PREV as the macro computes it: the contents of the link the element points back to. */
    method ListPrev(elm: Addr) returns (r: Addr)
      requires Valid() && Listed(lists, elm)
      ensures r == elm
    {
      PrevPointsBack(this, elm);
      r := Deref(prev[elm]);
    }
  }

  // ---------------------------------------------------------------- properties of the threading

  /** The back link of a listed element is the address of a link that points to that element, so
      what LIST_PREV yields is the element itself and never its predecessor. */
  lemma PrevPointsBack(h: ListHeap, elm: Addr)
    requires h.Valid() && Listed(h.lists, elm)
    ensures elm in h.prev && h.Deref(h.prev[elm]) == elm
  {
    var t :| 0 <= t < |h.lists| && elm in h.lists[t];
    var k :| 0 <= k < |h.lists[t]| && h.lists[t][k] == elm;
    assert Threaded(h.heads, h.next, h.prev, t, h.lists[t]);
    assert Linked(h.next, h.prev, t, h.lists[t], k);
    if k > 0 { assert Linked(h.next, h.prev, t, h.lists[t], k - 1); }
  }

  /** It is the only link, among the heads and the links of listed elements, that does. */
  lemma OneLinkPointsTo(h: ListHeap, elm: Addr, a: Link)
    requires h.Valid() && Listed(h.lists, elm)
    requires if a.HeadOf? then a.tag < |h.heads| else Listed(h.lists, a.elm)
    requires h.Deref(a) == elm
    ensures elm in h.prev && h.prev[elm] == a
  {
    var t :| 0 <= t < |h.lists| && elm in h.lists[t];
    var j :| 0 <= j < |h.lists[t]| && h.lists[t][j] == elm;
    assert Threaded(h.heads, h.next, h.prev, t, h.lists[t]);
    assert Linked(h.next, h.prev, t, h.lists[t], j);
    match a
    case HeadOf(u) =>
      assert Threaded(h.heads, h.next, h.prev, u, h.lists[u]);
      assert h.lists[u][0] == elm;
    case NextOf(e) =>
      var u :| 0 <= u < |h.lists| && e in h.lists[u];
      assert Threaded(h.heads, h.next, h.prev, u, h.lists[u]);
      var k :| 0 <= k < |h.lists[u]| && h.lists[u][k] == e;
      assert Linked(h.next, h.prev, u, h.lists[u], k);
      assert h.lists[u][k + 1] == elm;
  }

  lemma InsertedDisjoint(lists: seq<seq<Addr>>, t: nat, elm: Addr)
    requires Disjoint(lists) && t < |lists| && !Listed(lists, elm)
    ensures Disjoint(lists[t := [elm] + lists[t]])
  {
    assert elm !in lists[t];
  }

  lemma InsertThreads(heads: seq<Addr>, next: map<Addr, Addr>, prev: map<Addr, Link>, lists: seq<seq<Addr>>,
                      heads': seq<Addr>, next': map<Addr, Addr>, prev': map<Addr, Link>, t: nat, elm: Addr, u: nat)
    requires Represents(heads, next, prev, lists) && t < |lists| && u < |lists|
    requires elm != 0 && !Listed(lists, elm)
    requires heads' == heads[t := elm] && next' == next[elm := heads[t]]
    requires prev' == (if heads[t] != 0 then prev[heads[t] := NextOf(elm)] else prev)[elm := HeadOf(t)]
    ensures Threaded(heads', next', prev', u, lists[t := [elm] + lists[t]][u])
  {
    assert Threaded(heads, next, prev, u, lists[u]) && Threaded(heads, next, prev, t, lists[t]);
    var l := lists[u];
    assert elm !in l;
    if u == t {
      var l' := [elm] + l;
      forall k | 0 <= k < |l'|
        ensures Linked(next', prev', t, l', k)
      {
        if k > 0 { assert l'[k] == l[k - 1] && Linked(next, prev, t, l, k - 1); }
        if k > 1 { assert l'[k - 1] == l[k - 2]; }
      }
    } else {
      if lists[t] != [] { assert lists[t][0] in lists[t] && lists[t][0] !in l; }
      MembersLinked(next, prev, u, l);
      UntouchedStaysThreaded(heads, next, prev, heads', next', prev', u, l);
    }
  }

  lemma MembersLinked(next: map<Addr, Addr>, prev: map<Addr, Link>, t: nat, l: seq<Addr>)
    requires forall k :: 0 <= k < |l| ==> Linked(next, prev, t, l, k)
    ensures forall e :: e in l ==> e in next && e in prev
  {
    forall e | e in l
      ensures e in next && e in prev
    {
      var k :| 0 <= k < |l| && l[k] == e;
      assert Linked(next, prev, t, l, k);
    }
  }

  /** A list none of whose links was written is still threaded. */
  lemma UntouchedStaysThreaded(heads: seq<Addr>, next: map<Addr, Addr>, prev: map<Addr, Link>,
                               heads': seq<Addr>, next': map<Addr, Addr>, prev': map<Addr, Link>, t: nat, l: seq<Addr>)
    requires t < |heads| == |heads'| && heads'[t] == heads[t] && Threaded(heads, next, prev, t, l)
    requires forall e :: e in l ==> e in next && e in next' && next'[e] == next[e]
    requires forall e :: e in l ==> e in prev && e in prev' && prev'[e] == prev[e]
    ensures Threaded(heads', next', prev', t, l)
  {
    forall k | 0 <= k < |l|
      ensures Linked(next', prev', t, l, k)
    {
      assert Linked(next, prev, t, l, k) && l[k] in l;
    }
  }

  lemma DeletedDisjoint(lists: seq<seq<Addr>>, elm: Addr)
    requires Disjoint(lists)
    ensures Disjoint(DeleteFromAll(lists, elm))
  {
    var lists' := DeleteFromAll(lists, elm);
    forall t | 0 <= t < |lists|
      ensures NoDuplicates(lists'[t]) && forall e :: e in lists'[t] ==> e in lists[t]
    {
      DeleteKeeps(lists[t], elm);
    }
  }

  lemma {:induction false} DeleteKeeps<T>(l: seq<T>, e: T)
    requires NoDuplicates(l)
    ensures NoDuplicates(Delete(l, e))
    ensures forall x :: x in Delete(l, e) <==> x in l && x != e
  {
    if e in l {
      var k :| 0 <= k < |l| && l[k] == e;
      DeleteAt(l, e, k);
      assert l == l[..k] + [l[k]] + l[k + 1..];
    } else {
      DeleteAbsent(l, e);
    }
  }

  /** The writes of LIST_REMOVE on element `k` of list `t`. */
  ghost predicate Unlinked(heads: seq<Addr>, next: map<Addr, Addr>, prev: map<Addr, Link>, t: nat, e: Addr,
                           heads': seq<Addr>, next': map<Addr, Addr>, prev': map<Addr, Link>)
    requires t < |heads| && e in next && e in prev
  {
    && prev' == (if next[e] != 0 then prev[next[e] := prev[e]] else prev)
    && heads' == (if prev[e].HeadOf? then heads[t := next[e]] else heads)
    && next' == (if prev[e].NextOf? then next[prev[e].elm := next[e]] else next)
  }

  lemma RemoveThreads(heads: seq<Addr>, next: map<Addr, Addr>, prev: map<Addr, Link>, lists: seq<seq<Addr>>,
                      heads': seq<Addr>, next': map<Addr, Addr>, prev': map<Addr, Link>, t: nat, k: nat, u: nat)
    requires Represents(heads, next, prev, lists) && t < |lists| && u < |lists| && k < |lists[t]|
    requires lists[t][k] in next && lists[t][k] in prev
    requires Unlinked(heads, next, prev, t, lists[t][k], heads', next', prev')
    ensures Threaded(heads', next', prev', u, Delete(lists[u], lists[t][k]))
  {
    var l, e := lists[t], lists[t][k];
    assert Threaded(heads, next, prev, u, lists[u]) && Threaded(heads, next, prev, t, l);
    if u != t {
      assert e in l && e !in lists[u];
      DeleteAbsent(lists[u], e);
      if k > 0 { assert l[k - 1] in l && l[k - 1] !in lists[u]; }
      if k + 1 < |l| { assert l[k + 1] in l && l[k + 1] !in lists[u]; }
      assert Linked(next, prev, t, l, k);
      MembersLinked(next, prev, u, lists[u]);
      UntouchedStaysThreaded(heads, next, prev, heads', next', prev', u, lists[u]);
    } else {
      DeleteAt(l, e, k);
      var l' := l[..k] + l[k + 1..];
      forall i | 0 <= i < |l'|
        ensures Linked(next', prev', t, l', i)
      {
        RemoveLinks(heads, next, prev, heads', next', prev', t, l, k, i);
      }
      assert Linked(next, prev, t, l, k);
      if l' != [] { assert l'[0] == l[if k == 0 then 1 else 0]; }
    }
  }

  lemma RemoveLinks(heads: seq<Addr>, next: map<Addr, Addr>, prev: map<Addr, Link>,
                    heads': seq<Addr>, next': map<Addr, Addr>, prev': map<Addr, Link>, t: nat, l: seq<Addr>, k: nat, i: nat)
    requires t < |heads| && Threaded(heads, next, prev, t, l) && NoDuplicates(l)
    requires k < |l| && i < |l| - 1 && l[k] in next && l[k] in prev
    requires Unlinked(heads, next, prev, t, l[k], heads', next', prev')
    ensures Linked(next', prev', t, l[..k] + l[k + 1..], i)
  {
    var l' := l[..k] + l[k + 1..];
    var j := if i < k then i else i + 1;
    LinksAfterRemove(heads, next, prev, heads', next', prev', t, l, k, j);
    assert l'[i] == l[j];
    if i + 1 < |l'| { assert l'[i + 1] == l[if i + 1 < k then i + 1 else i + 2]; }
    if i > 0 { assert l'[i - 1] == l[if i - 1 < k then i - 1 else i]; }
  }

  /** An element that stays: its forward link skips the removed one, and so does its back link. */
  lemma LinksAfterRemove(heads: seq<Addr>, next: map<Addr, Addr>, prev: map<Addr, Link>,
                         heads': seq<Addr>, next': map<Addr, Addr>, prev': map<Addr, Link>, t: nat, l: seq<Addr>, k: nat, j: nat)
    requires t < |heads| && Threaded(heads, next, prev, t, l) && NoDuplicates(l)
    requires k < |l| && j < |l| && j != k && l[k] in next && l[k] in prev
    requires Unlinked(heads, next, prev, t, l[k], heads', next', prev')
    ensures l[j] != 0 && l[j] in next' && l[j] in prev'
    ensures next'[l[j]] == var m := (if j + 1 == k then k + 1 else j + 1); if m < |l| then l[m] else 0
    ensures prev'[l[j]] == var m := (if j == k + 1 then k else j); if m == 0 then HeadOf(t) else NextOf(l[m - 1])
  {
    assert Linked(next, prev, t, l, j) && Linked(next, prev, t, l, k);
  }
}
