// What an edited line is: the text before and after the cursor, and what each key does to it.
module Zipper {
  datatype Line = Line(left: seq<char>, right: seq<char>)

  predicate IsAlnum(c: char) {
    'a' <= c <= 'z' || 'A' <= c <= 'Z' || '0' <= c <= '9'
  }

  /** A word starts inside `s` at `m`; a word at the very beginning does not count. */
  predicate StartsWord(s: seq<char>, m: nat) {
    1 <= m < |s| && IsAlnum(s[m]) && !IsAlnum(s[m - 1])
  }

  predicate EndsWord(s: seq<char>, n: nat) {
    1 <= n < |s| && IsAlnum(s[n - 1]) && !IsAlnum(s[n])
  }

  /** The last position up to `m` where a word starts, 0 if there is none. */
  function LastStart(s: seq<char>, m: nat): nat {
    if m == 0 || StartsWord(s, m) then m else LastStart(s, m - 1)
  }

  /** The first position from `n` on where a word ends; the end of `s` if there is none. */
  function FirstEnd(s: seq<char>, n: nat): nat
    requires n <= |s|
    decreases |s| - n
  {
    if n == |s| || EndsWord(s, n) then n else FirstEnd(s, n + 1)
  }

  function NextAlnum(s: seq<char>, n: nat): nat
    requires n <= |s|
    decreases |s| - n
  {
    if n == |s| || IsAlnum(s[n]) then n else NextAlnum(s, n + 1)
  }

  /** Where WORD_BACKWARD goes: a word that starts at position 1, after a single separator, is not
      stopped at. */
  function BackwardTarget(s: seq<char>): nat {
    var m := LastStart(s, |s|);
    if m >= 2 then m else 0
  }

  /** Where KILLWORD deletes from. */
  function KillTarget(s: seq<char>): nat
    requires s != []
  {
    var m := LastStart(s, |s|);
    if m >= 1 then m else if IsAlnum(s[0]) then 0 else 1
  }

  function ForwardTarget(s: seq<char>): nat {
    FirstEnd(s, 0)
  }

  /** Where KILL_WORD_FORWARD deletes to: the next word, less one separator that is kept. */
  function KillForwardTarget(s: seq<char>): nat {
    FirstEndInRange(s, 0);
    var j := NextAlnum(s, ForwardTarget(s));
    if 0 < j < |s| then j - 1 else j
  }

  lemma {:induction false} FirstEndInRange(s: seq<char>, n: nat)
    requires n <= |s|
    ensures n <= FirstEnd(s, n) <= |s|
    decreases |s| - n
  {
    if n < |s| && !EndsWord(s, n) { FirstEndInRange(s, n + 1); }
  }

  lemma {:induction false} NextAlnumInRange(s: seq<char>, n: nat)
    requires n <= |s|
    ensures n <= NextAlnum(s, n) <= |s|
    ensures forall k :: n <= k < NextAlnum(s, n) ==> !IsAlnum(s[k])
    ensures NextAlnum(s, n) < |s| ==> IsAlnum(s[NextAlnum(s, n)])
    decreases |s| - n
  {
    if n < |s| && !IsAlnum(s[n]) { NextAlnumInRange(s, n + 1); }
  }

  /** `LastStart` is what its name says. */
  lemma {:induction false} LastStartIsLast(s: seq<char>, m: nat)
    ensures LastStart(s, m) <= m
    ensures LastStart(s, m) == 0 || StartsWord(s, LastStart(s, m))
    ensures forall k :: LastStart(s, m) < k <= m ==> !StartsWord(s, k)
  {
    if m > 0 && !StartsWord(s, m) { LastStartIsLast(s, m - 1); }
  }

  /** Nothing below position `k` can be the last start when `k` is one. */
  lemma {:induction false} LastStartIs(s: seq<char>, m: nat, k: nat)
    requires k <= m && (k == 0 || StartsWord(s, k))
    requires forall j :: k < j <= m ==> !StartsWord(s, j)
    ensures LastStart(s, m) == k
  {
    if m > k { LastStartIs(s, m - 1, k); }
  }

  lemma {:induction false} FirstEndIs(s: seq<char>, n: nat, k: nat)
    requires n <= k <= |s| && (k == |s| || EndsWord(s, k))
    requires forall j :: n <= j < k ==> !EndsWord(s, j)
    ensures FirstEnd(s, n) == k
    decreases |s| - n
  {
    if n < k { FirstEndIs(s, n + 1, k); }
  }

  lemma {:induction false} NextAlnumIs(s: seq<char>, n: nat, k: nat)
    requires n <= k <= |s| && (k == |s| || IsAlnum(s[k]))
    requires forall j :: n <= j < k ==> !IsAlnum(s[j])
    ensures NextAlnum(s, n) == k
    decreases |s| - n
  {
    if n < k { NextAlnumIs(s, n + 1, k); }
  }

  /** KILLWORD deletes exactly the span that WORD_BACKWARD crosses if and only if the line starts with
      an alphanumeric or a word starts beyond its second position. */
  lemma KillMatchesMotion(s: seq<char>)
    requires s != []
    ensures KillTarget(s) == BackwardTarget(s) <==> IsAlnum(s[0]) || exists m :: 2 <= m && StartsWord(s, m)
  {
    LastStartIsLast(s, |s|);
    if IsAlnum(s[0]) { assert !StartsWord(s, 1); }
  }

  /** The two differ on a line that starts with a space. */
  lemma KillDiffersAfterSpace()
    ensures KillTarget(" ls") == 1 && BackwardTarget(" ls") == 0
  {
    assert StartsWord(" ls", 1) && !StartsWord(" ls", 2) && !StartsWord(" ls", 3);
    LastStartIs(" ls", 3, 1);
  }

  // ---------------------------------------------------------------- what each key does

  function Typed(l: Line, c: char): Line {
    Line(l.left + [c], l.right)
  }

  function Backspaced(l: Line): Line {
    if l.left == [] then l else Line(l.left[..|l.left| - 1], l.right)
  }

  function Deleted(l: Line): Line {
    if l.right == [] then l else Line(l.left, l.right[1..])
  }

  /** The cursor moved to position `n` of the whole line. */
  function MovedTo(l: Line, n: nat): Line
    requires n <= |l.left| + |l.right|
  {
    Line((l.left + l.right)[..n], (l.left + l.right)[n..])
  }

  function MovedLeft(l: Line): Line {
    if l.left == [] then l else MovedTo(l, |l.left| - 1)
  }

  function MovedRight(l: Line): Line {
    if l.right == [] then l else MovedTo(l, |l.left| + 1)
  }

  function MovedWordBack(l: Line): Line {
    LastStartIsLast(l.left, |l.left|);
    MovedTo(l, BackwardTarget(l.left))
  }

  function MovedWordForward(l: Line): Line {
    FirstEndInRange(l.right, 0);
    MovedTo(l, |l.left| + ForwardTarget(l.right))
  }

  function WordKilled(l: Line): Line {
    LastStartIsLast(l.left, |l.left|);
    if l.left == [] then l else Line(l.left[..KillTarget(l.left)], l.right)
  }

  function WordForwardKilled(l: Line): Line {
    FirstEndInRange(l.right, 0);
    NextAlnumInRange(l.right, ForwardTarget(l.right));
    Line(l.left, l.right[KillForwardTarget(l.right)..])
  }

  // ---------------------------------------------------------------- the same on text and cursor

  /** The text with the cursor in front of position `at`. */
  ghost predicate Is(l: Line, text: seq<char>, at: int) {
    l.left + l.right == text && |l.left| == at
  }

  /** The last place inside `s` where a word starts. */
  ghost predicate LastWordAt(s: seq<char>, m: nat) {
    StartsWord(s, m) && forall j :: m < j ==> !StartsWord(s, j)
  }

  /** The first place behind the beginning of `s` where a word ends, or the end of `s`. */
  ghost predicate FirstWordEnd(s: seq<char>, e: nat) {
    && e <= |s| && (s != [] ==> e > 0) && (e == |s| || (IsAlnum(s[e - 1]) && !IsAlnum(s[e])))
    && forall j :: 0 < j < e ==> !(IsAlnum(s[j - 1]) && !IsAlnum(s[j]))
  }

  ghost predicate NoWordInside(s: seq<char>) {
    forall j :: !StartsWord(s, j)
  }

  lemma {:induction false} LastWord(s: seq<char>)
    ensures LastStart(s, |s|) > 0 ==> LastWordAt(s, LastStart(s, |s|))
    ensures LastStart(s, |s|) == 0 ==> NoWordInside(s)
  {
    LastStartIsLast(s, |s|);
  }

  lemma {:induction false} FirstEndIsFirst(s: seq<char>, n: nat)
    requires n <= |s|
    ensures n <= FirstEnd(s, n) <= |s|
    ensures FirstEnd(s, n) == |s| || EndsWord(s, FirstEnd(s, n))
    ensures forall j :: n <= j < FirstEnd(s, n) ==> !EndsWord(s, j)
    decreases |s| - n
  {
    if n < |s| && !EndsWord(s, n) { FirstEndIsFirst(s, n + 1); }
  }

  lemma WordEnd(s: seq<char>)
    ensures FirstWordEnd(s, ForwardTarget(s))
  {
    FirstEndIsFirst(s, 0);
    if s != [] { FirstEndPositive(s, 0); }
    forall j | 0 < j < ForwardTarget(s)
      ensures !(IsAlnum(s[j - 1]) && !IsAlnum(s[j]))
    {
      assert !EndsWord(s, j);
    }
  }

  // ---------------------------------------------------------------- the scanning loops find these targets

  /** Scanning back over separators down to `e`, then over a word down to `i`. */
  lemma {:induction false} BackScan(s: seq<char>, e: nat, i: nat)
    requires i <= e < |s|
    requires forall k :: e < k < |s| ==> !IsAlnum(s[k])
    requires forall k :: i < k <= e ==> IsAlnum(s[k])
    requires i == 0 || !IsAlnum(s[i])
    requires i == e ==> i == 0
    ensures LastStart(s, |s|) == if i < e && !IsAlnum(s[i]) then i + 1 else 0
  {
    var m := if i < e && !IsAlnum(s[i]) then i + 1 else 0;
    LastStartIs(s, |s|, m);
  }

  /** Scanning forward over separators up to `a`, then over a word up to `e`. */
  lemma ForwardScan(s: seq<char>, a: nat, e: nat)
    requires a <= e <= |s|
    requires forall k :: 0 <= k < a ==> !IsAlnum(s[k])
    requires forall k :: a <= k < e ==> IsAlnum(s[k])
    requires e == |s| || !IsAlnum(s[e])
    requires a == e ==> e == |s|
    ensures ForwardTarget(s) == e
  {
    FirstEndIs(s, 0, e);
  }

  lemma ForwardNotAtStart(s: seq<char>, e: nat)
    requires s != [] && e == ForwardTarget(s)
    ensures e > 0
  {
    FirstEndPositive(s, 0);
  }

  lemma {:induction false} FirstEndPositive(s: seq<char>, n: nat)
    requires n <= |s| && s != []
    ensures FirstEnd(s, n) > 0
    decreases |s| - n
  {
    if n < |s| && !EndsWord(s, n) { FirstEndPositive(s, n + 1); }
  }
}
