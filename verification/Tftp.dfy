// The TFTP sender of the image server (imgd/python/tftpd.py): cutting a file into blocks and the
// send/acknowledge loop.
module Tftp {
  import opened Words
  import opened Options
  import Arith

  const BLKSIZE := 512
  const MAX_RETRIES := 10

  // ---------------------------------------------------------------- blocks

  function Group(s: seq<Byte>, n: nat): (r: seq<seq<Byte>>)
    requires n > 0
    decreases |s|
  {
    if |s| == 0 then [] else if |s| <= n then [s] else [s[..n]] + Group(s[n..], n)
  }

  /** The blocks sent for a file; None where the original fails on the last element of an empty list. */
  function Dataset(s: seq<Byte>): Option<seq<seq<Byte>>> {
    var g := Group(s, BLKSIZE);
    if g == [] then None
    else if |g[|g| - 1]| == BLKSIZE then Some(g + [[]])
    else Some(g)
  }

  function Concat(chunks: seq<seq<Byte>>): seq<Byte> {
    if chunks == [] then [] else Concat(chunks[..|chunks| - 1]) + chunks[|chunks| - 1]
  }

  /** All blocks but the last are full, and the last is short: what ends a transfer. */
  ghost predicate WellFormed(chunks: seq<seq<Byte>>) {
    && chunks != [] && |chunks[|chunks| - 1]| < BLKSIZE
    && forall k :: 0 <= k < |chunks| - 1 ==> |chunks[k]| == BLKSIZE
  }

  lemma {:induction false} ConcatCons(c: seq<Byte>, rest: seq<seq<Byte>>)
    ensures Concat([c] + rest) == c + Concat(rest)
  {
    if rest == [] {
      assert [c] + rest == [c];
      assert [c][..0] == [];
    } else {
      var n := |rest| - 1;
      assert ([c] + rest)[..n + 1] == [c] + rest[..n];
      ConcatCons(c, rest[..n]);
    }
  }

  lemma {:induction false} GroupCuts(s: seq<Byte>, n: nat)
    requires n > 0 && s != []
    ensures Concat(Group(s, n)) == s
    ensures |Group(s, n)| == (|s| + n - 1) / n >= 1
    ensures forall k :: 0 <= k < |Group(s, n)| - 1 ==> |Group(s, n)[k]| == n
    ensures 1 <= |Group(s, n)[|Group(s, n)| - 1]| <= n
    decreases |s|
  {
    if |s| <= n {
      assert [s][..0] == [];
      CountOne(|s|, n);
    } else {
      GroupCuts(s[n..], n);
      ConcatCons(s[..n], Group(s[n..], n));
      CountStep(|s|, n);
    }
  }

  lemma CountOne(m: nat, n: nat)
    requires 1 <= m <= n
    ensures (m + n - 1) / n == 1
  {
    Arith.DivModUnique(m + n - 1, n, 1, m - 1);
  }

  lemma CountStep(m: nat, n: nat)
    requires m > n > 0
    ensures (m + n - 1) / n == 1 + (m - n + n - 1) / n
  {
    var q, r := (m - 1) / n, (m - 1) % n;
    assert m + n - 1 == (q + 1) * n + r;
    Arith.DivModUnique(m + n - 1, n, q + 1, r);
  }

  /** Reassembling the blocks gives the file back, and only the last block is short. */
  lemma DatasetRoundTrip(s: seq<Byte>)
    ensures s == [] <==> Dataset(s) == None
    ensures s != [] ==>
              var chunks := Dataset(s).value;
              Concat(chunks) == s && WellFormed(chunks) && |chunks| == |s| / BLKSIZE + 1
  {
    if s != [] {
      GroupCuts(s, BLKSIZE);
      LastSize(s);
      var g := Group(s, BLKSIZE);
      if |g[|g| - 1]| == BLKSIZE {
        assert (g + [[]])[..|g|] == g;
      }
    }
  }

  lemma {:induction false} LastSize(s: seq<Byte>)
    requires s != []
    ensures var g := Group(s, BLKSIZE);
            g != [] && |s| == (|g| - 1) * BLKSIZE + |g[|g| - 1]|
    decreases |s|
  {
    if |s| > BLKSIZE { LastSize(s[BLKSIZE..]); }
  }

  // ---------------------------------------------------------------- packets

  /** A DATA packet.  The block number is formatted as four hex digits; from 65536 on there are five,
      which the conversion to bytes rejects. */
  function DataMsg(n: nat, chunk: seq<Byte>): Option<seq<Byte>> {
    if n < 0x1_0000 then Some([0, 3, n / 256, n % 256] + chunk) else None
  }

  /** The number the sender reads in any packet it gets: bytes 2 and 3, whatever the opcode.  With no
      byte there the conversion fails; with one, that byte is the number. */
  function AckNum(m: seq<Byte>): Option<nat> {
    if |m| <= 2 then None
    else if |m| == 3 then Some(m[2])
    else Some(m[2] as int * 256 + m[3] as int)
  }

  // ---------------------------------------------------------------- the send loop as transitions

  datatype Phase = Sending | Done | Aborted | Failed

  /** `index` counts the blocks acknowledged so far; Failed is an uncaught exception. */
  datatype Sender = Sender(index: nat, retries: nat, phase: Phase)

  /** What recvfrom returns: nothing in time, or some packet. */
  datatype Input = Timeout | Packet(m: seq<Byte>)

  /** Where the loop is when it turns to block `index`. */
  function Enter(chunks: seq<seq<Byte>>, index: nat): Sender {
    Sender(index, 0, if index >= |chunks| then Done else if index + 1 < 0x1_0000 then Sending else Failed)
  }

  function Start(file: seq<Byte>): Sender {
    match Dataset(file)
    case None => Sender(0, 0, Failed)
    case Some(chunks) => Enter(chunks, 0)
  }

  function OnInput(chunks: seq<seq<Byte>>, s: Sender, i: Input): Sender {
    if s.phase != Sending then s
    else match i
      case Timeout =>
        if s.retries + 1 > MAX_RETRIES then Sender(s.index, s.retries + 1, Aborted)
        else Sender(s.index, s.retries + 1, Sending)
      case Packet(m) =>
        match AckNum(m)
        case None => s.(phase := Failed)
        case Some(n) => if n == s.index + 1 then Enter(chunks, s.index + 1) else s
  }

  function After(chunks: seq<seq<Byte>>, s: Sender, inputs: seq<Input>): Sender {
    if inputs == [] then s
    else OnInput(chunks, After(chunks, s, inputs[..|inputs| - 1]), inputs[|inputs| - 1])
  }

  /** A block is abandoned on its eleventh timeout, and never before. */
  lemma {:induction false} RetriesBounded(chunks: seq<seq<Byte>>, s: Sender, inputs: seq<Input>)
    requires s.phase == Sending ==> s.retries <= MAX_RETRIES
    requires s.phase != Aborted
    ensures var t := After(chunks, s, inputs);
            && (t.phase == Sending ==> t.retries <= MAX_RETRIES)
            && (t.phase == Aborted ==> t.retries == MAX_RETRIES + 1)
  {
    if inputs != [] { RetriesBounded(chunks, s, inputs[..|inputs| - 1]); }
  }

  /** Some block up to number `index`, as a packet. */
  ghost predicate IsDataOf(chunks: seq<seq<Byte>>, m: seq<Byte>, index: nat) {
    exists k :: 0 <= k <= index && k < |chunks| && DataMsg(k + 1, chunks[k]) == Some(m)
  }

  // ---------------------------------------------------------------- what goes over the wire

  /** Block `k` of a file, the empty block behind a last full one included. */
  function FileBlock(file: seq<Byte>, k: nat): seq<Byte>
    requires k * BLKSIZE <= |file|
  {
    file[k * BLKSIZE..if |file| < (k + 1) * BLKSIZE then |file| else (k + 1) * BLKSIZE]
  }

  lemma {:induction false} GroupAt(s: seq<Byte>, k: nat)
    requires k < |Group(s, BLKSIZE)|
    ensures k * BLKSIZE < |s| && Group(s, BLKSIZE)[k] == FileBlock(s, k)
    decreases k
  {
    if k > 0 {
      GroupAt(s[BLKSIZE..], k - 1);
      SliceOfTail(s, BLKSIZE, (k - 1) * BLKSIZE, if |s| < (k + 1) * BLKSIZE then |s| - BLKSIZE else k * BLKSIZE);
    }
  }

  lemma SliceOfTail(s: seq<Byte>, n: nat, lo: nat, hi: nat)
    requires lo <= hi <= |s| - n
    ensures s[n..][lo..hi] == s[n + lo..n + hi]
  {
  }

  /** Block k of the dataset is block k of the file. */
  lemma {:induction false} DatasetAt(s: seq<Byte>, k: nat)
    requires Dataset(s).Some? && k < |Dataset(s).value|
    ensures k * BLKSIZE <= |s| && Dataset(s).value[k] == FileBlock(s, k)
  {
    var g := Group(s, BLKSIZE);
    LastSize(s);
    if k < |g| {
      GroupAt(s, k);
    } else {
      assert k * BLKSIZE == |s|;
      assert FileBlock(s, k) == [];
    }
  }

  /** The packet that carries block `k`: opcode 3, its number from 1 in two bytes, and the bytes. */
  ghost predicate Carries(m: seq<Byte>, file: seq<Byte>, k: nat) {
    var n := k + 1;
    && n < 0x1_0000 && k * BLKSIZE <= |file|
    && |m| >= 4 && m[0] == 0 && m[1] == 3 && m[2] == n / 256 && m[3] == n % 256 && m[4..] == FileBlock(file, k)
  }

  /** The blocks sent one after the other: from the first on, each again or the next. */
  ghost predicate InOrder(blocks: seq<nat>) {
    && (blocks != [] ==> blocks[0] == 0)
    && forall i :: 0 <= i && i + 1 < |blocks| ==> blocks[i + 1] == blocks[i] || blocks[i + 1] == blocks[i] + 1
  }

  /** The sender takes the packet for the acknowledgement of block number `n`. */
  predicate Acknowledges(i: Input, n: nat) {
    i.Packet? && ((|i.m| == 3 && i.m[2] == n) || (|i.m| > 3 && i.m[2] as int * 256 + i.m[3] as int == n))
  }

  predicate TooShort(i: Input) {
    i.Packet? && |i.m| <= 2
  }

  function Timeouts(inputs: seq<Input>): nat {
    if inputs == [] then 0
    else Timeouts(inputs[..|inputs| - 1]) + if inputs[|inputs| - 1].Timeout? then 1 else 0
  }

  /** Why the sender leaves block number `n` after these inputs: the last one acknowledges it, cannot be
      read, or is the eleventh timeout; or it has not left it.  No earlier one was any of these. */
  ghost predicate Leaves(inputs: seq<Input>, n: nat, result: Phase) {
    var last := |inputs| - 1;
    && (forall i :: 0 <= i < last ==> !Acknowledges(inputs[i], n) && !TooShort(inputs[i]))
    && (last >= 1 ==> Timeouts(inputs[..last]) <= MAX_RETRIES)
    && (result == Done <==> last >= 0 && Acknowledges(inputs[last], n))
    && (result == Failed <==> last >= 0 && TooShort(inputs[last]))
    && (result == Aborted <==> Timeouts(inputs) > MAX_RETRIES)
  }

  /** The same packet `n` times. */
  function Copies(m: seq<Byte>, n: nat): seq<seq<Byte>> {
    if n == 0 then [] else Copies(m, n - 1) + [m]
  }

  lemma {:induction false} CopiesAre(m: seq<Byte>, n: nat)
    ensures |Copies(m, n)| == n && forall i :: 0 <= i < n ==> Copies(m, n)[i] == m
  {
    if n > 0 { CopiesAre(m, n - 1); }
  }

  lemma OneCopyMore(before: seq<seq<Byte>>, m: seq<Byte>, n: nat)
    ensures (before + Copies(m, n)) + [m] == before + Copies(m, n + 1)
  {
  }

  /** What the loop makes of one input. */
  function Verdict(i: Input, retries: nat, n: nat): Phase {
    if i.Timeout? then if retries + 1 > MAX_RETRIES then Aborted else Sending
    else if TooShort(i) then Failed
    else if Acknowledges(i, n) then Done
    else Sending
  }

  // ---------------------------------------------------------------- the code

  class Server {
    /** Every packet put on the wire, in order. */
    var sent: seq<seq<Byte>>

    constructor ()
      ensures sent == []
    {
      sent := [];
    }

    /** The inner loop: send one block until it is acknowledged, once before each recvfrom.  The result is
        Done when it is, Sending when the script of inputs ends first. */
    method SendBlock(index: nat, msg: seq<Byte>, inputs: seq<Input>) returns (result: Phase, used: nat)
      modifies this
      ensures used <= |inputs| && Leaves(inputs[..used], index + 1, result)
      ensures if result == Sending then used == |inputs| else used > 0
      ensures sent == old(sent) + Copies(msg, used + if result == Sending then 1 else 0)
    {
      used, result := 0, Sending;
      var retries := 0;
      while true
        invariant used <= |inputs| && result == Sending
        invariant Waits(inputs[..used], index + 1) && Timeouts(inputs[..used]) == retries
        invariant sent == old(sent) + Copies(msg, used)
        decreases |inputs| - used
      {
        OneCopyMore(old(sent), msg, used);
        sent := sent + [msg];
        if used == |inputs| { break; }
        var input := inputs[used];
        OneMore(inputs, used, index + 1);
        result := Judge(input, retries, index);
        used := used + 1;
        if result != Sending { return; }
        if input.Timeout? { retries := retries + 1; }
      }
      WaitsLeave(inputs[..used], index + 1);
    }

    /** The outcome of one recvfrom. */
    method Judge(input: Input, retries: nat, index: nat) returns (result: Phase)
      ensures result == Verdict(input, retries, index + 1)
    {
      result := Sending;
      match input
      case Timeout =>
        if retries + 1 > MAX_RETRIES { return Aborted; }
      case Packet(m) =>
        var ackNum := AckNum(m);
        if ackNum == None { return Failed; }
        if ackNum.value == index + 1 { return Done; }
    }

    /** The transfer that answers an option acknowledgement; `inputs` is what recvfrom returns, call
        after call.  The outcome is still Sending when the script of inputs ends first.  `blocks` are the
        blocks put on the wire, one after the other. */
    method SendFile(data: seq<Byte>, inputs: seq<Input>) returns (outcome: Phase, index: nat, ghost blocks: seq<nat>)
      modifies this
      ensures var st := match Dataset(data)
                        case None => Start(data)
                        case Some(chunks) => After(chunks, Start(data), inputs);
              outcome == st.phase && index == st.index
      ensures old(sent) <= sent && CarryAll(sent[|old(sent)|..], data, blocks) && InOrder(blocks)
      ensures data == [] ==> outcome == Failed && index == 0 && blocks == []
      ensures index <= |data| / BLKSIZE + 1 && (outcome == Done <==> index == |data| / BLKSIZE + 1 && data != [])
      ensures forall k: nat :: (k < index ==> k in blocks) && (k in blocks ==> k <= index)
      ensures outcome == Sending || outcome == Aborted ==> index in blocks
    {
      outcome, index, blocks := Failed, 0, [];
      var dataset := Group(data, BLKSIZE);
      if dataset == [] { return; }
      if |dataset[|dataset| - 1]| == BLKSIZE { dataset := dataset + [[]]; }
      DatasetRoundTrip(data);
      ghost var tries;
      outcome, index, tries := SendAll(dataset, inputs);
      blocks := TriesWired(data, dataset, tries);
      assert sent[|old(sent)|..] == Wire(dataset, tries);
    }

    /** One block, from the input at `used` on. */
    method SendNext(dataset: seq<seq<Byte>>, index: nat, inputs: seq<Input>, used: nat,
                    ghost start: seq<seq<Byte>>, ghost tries: seq<nat>)
      returns (outcome: Phase, n: nat, ghost tries': seq<nat>)
      requires index < |dataset| && index + 1 < 0x1_0000 && used <= |inputs|
      requires Reached(dataset, inputs, used, index) && OnWire(start, sent, dataset, tries) && |tries| == index
      modifies this
      ensures used + n <= |inputs| && (outcome == Sending ==> used + n == |inputs|)
      ensures OnWire(start, sent, dataset, tries') && |tries'| == index + 1
      ensures if outcome == Done then Reached(dataset, inputs, used + n, index + 1)
              else Stopped(dataset, inputs, used + n, index, outcome)
    {
      var msg := DataMsg(index + 1, dataset[index]);
      outcome, n := SendBlock(index, msg.value, inputs[used..]);
      AfterLeaves(dataset, Enter(dataset, 0), inputs, used, n, index, outcome);
      tries' := tries + [n + if outcome == Sending then 1 else 0];
      OneBlockMore(start, dataset, tries, n + if outcome == Sending then 1 else 0);
    }

    /** The loop over the blocks; `tries` says how often each was sent. */
    method SendAll(dataset: seq<seq<Byte>>, inputs: seq<Input>) returns (outcome: Phase, index: nat, ghost tries: seq<nat>)
      modifies this
      ensures var now := After(dataset, Enter(dataset, 0), inputs); now.phase == outcome && now.index == index
      ensures index <= |dataset| && (outcome == Done <==> index == |dataset|)
      ensures OnWire(old(sent), sent, dataset, tries)
      ensures index <= |tries| <= index + 1 && (outcome == Sending || outcome == Aborted ==> |tries| == index + 1)
    {
      outcome, index, tries := Done, 0, [];
      var used: nat := 0;
      AtStart(dataset, inputs, sent);
      while index < |dataset|
        invariant used <= |inputs| && index <= |dataset| && outcome == Done
        invariant Reached(dataset, inputs, used, index)
        invariant |tries| == index && OnWire(old(sent), sent, dataset, tries)
        decreases |dataset| - index
      {
        if DataMsg(index + 1, dataset[index]) == None {
          outcome := Failed;
          break;
        }
        var n;
        outcome, n, tries := SendNext(dataset, index, inputs, used, old(sent), tries);
        used := used + n;
        if outcome != Done { break; }
        index := index + 1;
      }
      ItStops(dataset, inputs, used, index, outcome);
    }
  }

  /** The transitions have got through `index` blocks. */
  ghost predicate Reached(dataset: seq<seq<Byte>>, inputs: seq<Input>, used: nat, index: nat)
    requires used <= |inputs|
  {
    After(dataset, Enter(dataset, 0), inputs[..used]) == Enter(dataset, index)
  }

  /** They have ended there, or the inputs have. */
  ghost predicate Stopped(dataset: seq<seq<Byte>>, inputs: seq<Input>, used: nat, index: nat, outcome: Phase)
    requires used <= |inputs|
  {
    var now := After(dataset, Enter(dataset, 0), inputs[..used]);
    now.phase == outcome && now.index == index
  }

  lemma AtStart(dataset: seq<seq<Byte>>, inputs: seq<Input>, sent: seq<seq<Byte>>)
    ensures Reached(dataset, inputs, 0, 0) && OnWire(sent, sent, dataset, [])
  {
    assert inputs[..0] == [];
  }

  lemma {:induction false} ItStops(dataset: seq<seq<Byte>>, inputs: seq<Input>, used: nat, index: nat, outcome: Phase)
    requires used <= |inputs| && index <= |dataset| && (outcome == Sending ==> used == |inputs|)
    requires Stopped(dataset, inputs, used, index, outcome)
             || (Reached(dataset, inputs, used, index)
                 && if index < |dataset| then outcome == Failed && index + 1 >= 0x1_0000 else outcome == Done)
    ensures var now := After(dataset, Enter(dataset, 0), inputs); now.phase == outcome && now.index == index
  {
    assert inputs[..|inputs|] == inputs;
    if outcome == Sending { assert inputs[..used] == inputs; } else { StuckStays(dataset, Enter(dataset, 0), inputs, used); }
  }

  /** What has been sent since `start` is each block in turn, as often as it was tried. */
  ghost predicate OnWire(start: seq<seq<Byte>>, now: seq<seq<Byte>>, dataset: seq<seq<Byte>>, tries: seq<nat>) {
    Tried(dataset, tries) && now == start + Wire(dataset, tries)
  }

  /** Every block so far has been tried, and fits its number in a packet. */
  predicate Tried(dataset: seq<seq<Byte>>, tries: seq<nat>) {
    |tries| <= |dataset| && (tries == [] || (|tries| < 0x1_0000 && tries[|tries| - 1] > 0 && Tried(dataset, tries[..|tries| - 1])))
  }

  /** Each block in turn, as often as it was tried. */
  function Wire(dataset: seq<seq<Byte>>, tries: seq<nat>): seq<seq<Byte>>
    requires Tried(dataset, tries)
  {
    if tries == [] then []
    else
      var n := |tries| - 1;
      Wire(dataset, tries[..n]) + Copies(DataMsg(n + 1, dataset[n]).value, tries[n])
  }

  lemma {:induction false} OneBlockMore(before: seq<seq<Byte>>, dataset: seq<seq<Byte>>, tries: seq<nat>, n: nat)
    requires Tried(dataset, tries) && |tries| < |dataset| && |tries| + 1 < 0x1_0000 && n > 0
    ensures Tried(dataset, tries + [n])
    ensures before + Wire(dataset, tries + [n])
            == before + Wire(dataset, tries) + Copies(DataMsg(|tries| + 1, dataset[|tries|]).value, n)
  {
    assert (tries + [n])[..|tries|] == tries;
  }

  /** The packets sent are those of the blocks of the file, in order. */
  lemma {:induction false} TriesWired(data: seq<Byte>, dataset: seq<seq<Byte>>, tries: seq<nat>) returns (blocks: seq<nat>)
    requires Dataset(data) == Some(dataset) && Tried(dataset, tries)
    ensures Wired(Wire(dataset, tries), data, blocks, |tries|)
  {
    blocks := [];
    if tries != [] {
      var n := |tries| - 1;
      blocks := TriesWired(data, dataset, tries[..n]);
      var wire := Wire(dataset, tries[..n]);
      wire, blocks := BlockWired(data, dataset, n, DataMsg(n + 1, dataset[n]).value, wire, blocks, tries[n]);
    }
  }

  lemma {:induction false} AfterAppend(chunks: seq<seq<Byte>>, s: Sender, a: seq<Input>, b: seq<Input>)
    ensures After(chunks, s, a + b) == After(chunks, After(chunks, s, a), b)
  {
    if b == [] {
      assert a + b == a;
    } else {
      assert (a + b)[..|a + b| - 1] == a + b[..|b| - 1];
      AfterAppend(chunks, s, a, b[..|b| - 1]);
    }
  }

  /** The transitions and the reasons to leave a block are the same. */
  lemma {:induction false} LeavesIsAfter(chunks: seq<seq<Byte>>, heard: seq<Input>, index: nat, result: Phase)
    requires Leaves(heard, index + 1, result)
    ensures var now := After(chunks, Sender(index, 0, Sending), heard);
            if result == Done then now == Enter(chunks, index + 1) else now == Sender(index, Timeouts(heard), result)
  {
    if heard != [] {
      var before, last := heard[..|heard| - 1], heard[|heard| - 1];
      assert |before| > 0 ==> before[..|before| - 1] == heard[..|heard| - 1][..|before| - 1];
      LeavesBefore(heard, index + 1, result);
      LeavesIsAfter(chunks, before, index, Sending);
      OnInputIs(chunks, index, Timeouts(before), last);
    }
  }

  lemma {:induction false} LeavesBefore(heard: seq<Input>, n: nat, result: Phase)
    requires heard != [] && Leaves(heard, n, result)
    ensures Timeouts(heard[..|heard| - 1]) <= MAX_RETRIES && Leaves(heard[..|heard| - 1], n, Sending)
    ensures result == Verdict(heard[|heard| - 1], Timeouts(heard[..|heard| - 1]), n)
  {
    var before := heard[..|heard| - 1];
    assert forall i :: 0 <= i < |before| ==> before[i] == heard[i];
    if before != [] {
      var n := |before| - 1;
      assert Timeouts(before) == Timeouts(before[..n]) + if before[n].Timeout? then 1 else 0;
    }
  }

  lemma SplitAt(s: seq<Input>, from: nat, n: nat)
    requires from + n <= |s|
    ensures s[..from + n] == s[..from] + s[from..][..n]
  {
    assert s[from..][..n] == s[from..from + n];
  }

  lemma {:induction false} AfterLeaves(chunks: seq<seq<Byte>>, s: Sender, inputs: seq<Input>, from: nat, n: nat, index: nat, result: Phase)
    requires from + n <= |inputs| && After(chunks, s, inputs[..from]) == Sender(index, 0, Sending)
    requires Leaves(inputs[from..][..n], index + 1, result)
    ensures var now := After(chunks, s, inputs[..from + n]);
            if result == Done then now == Enter(chunks, index + 1)
            else now == Sender(index, Timeouts(inputs[from..][..n]), result)
  {
    SplitAt(inputs, from, n);
    AfterAppend(chunks, s, inputs[..from], inputs[from..][..n]);
    LeavesIsAfter(chunks, inputs[from..][..n], index, result);
  }

  ghost predicate CarryAll(wire: seq<seq<Byte>>, data: seq<Byte>, blocks: seq<nat>) {
    |wire| == |blocks| && forall i :: 0 <= i < |wire| ==> Carries(wire[i], data, blocks[i])
  }

  /** All blocks before `index` have been on the wire, in order, and no other. */
  ghost predicate Wired(wire: seq<seq<Byte>>, data: seq<Byte>, blocks: seq<nat>, index: nat) {
    && CarryAll(wire, data, blocks) && InOrder(blocks)
    && (if index == 0 then blocks == [] else blocks != [] && blocks[|blocks| - 1] == index - 1)
    && forall k: nat :: k in blocks <==> k < index
  }

  /** One more block has been sent, so and so many times. */
  lemma {:induction false} BlockWired(data: seq<Byte>, chunks: seq<seq<Byte>>, index: nat, msg: seq<Byte>, wire: seq<seq<Byte>>,
                                      blocks: seq<nat>, n: nat)
    returns (wire': seq<seq<Byte>>, blocks': seq<nat>)
    requires Dataset(data) == Some(chunks) && index < |chunks| && DataMsg(index + 1, chunks[index]) == Some(msg)
    requires Wired(wire, data, blocks, index) && n > 0
    ensures wire' == wire + Copies(msg, n) && Wired(wire', data, blocks', index + 1)
  {
    DatasetAt(data, index);
    CopiesAre(msg, n);
    var now, more := Copies(msg, n), seq(n, i => index);
    wire', blocks' := wire + now, blocks + more;
    BlocksGoOn(blocks, more, index);
    MsgCarries(msg, data, index, chunks[index]);
    forall i | 0 <= i < |wire'|
      ensures Carries(wire'[i], data, blocks'[i])
    {
      if i < |wire| { assert wire'[i] == wire[i] && blocks'[i] == blocks[i]; }
    }
  }

  lemma MsgCarries(msg: seq<Byte>, data: seq<Byte>, k: nat, chunk: seq<Byte>)
    requires DataMsg(k + 1, chunk) == Some(msg) && k * BLKSIZE <= |data| && chunk == FileBlock(data, k)
    ensures Carries(msg, data, k)
  {
  }

  lemma BlocksGoOn(blocks: seq<nat>, more: seq<nat>, index: nat)
    requires InOrder(blocks) && forall i :: 0 <= i < |more| ==> more[i] == index
    requires if index == 0 then blocks == [] else blocks != [] && blocks[|blocks| - 1] == index - 1
    ensures InOrder(blocks + more)
    ensures forall k :: k in blocks + more <==> k in blocks || (more != [] && k == index)
  {
    var all := blocks + more;
    forall i | 0 <= i && i + 1 < |all|
      ensures all[i + 1] == all[i] || all[i + 1] == all[i] + 1
    {
      if i + 1 < |blocks| { assert all[i] == blocks[i] && all[i + 1] == blocks[i + 1]; }
    }
    if more != [] { assert more[0] == index; }
  }

  /** One more input while the block is still being sent. */
  /** Inputs on which the sender goes on waiting for block number `n`. */
  predicate Waits(heard: seq<Input>, n: nat) {
    heard == []
    || (var last := |heard| - 1;
        && Waits(heard[..last], n)
        && !Acknowledges(heard[last], n) && !TooShort(heard[last]) && Timeouts(heard) <= MAX_RETRIES)
  }

  lemma {:induction false} WaitsLeave(heard: seq<Input>, n: nat)
    requires Waits(heard, n)
    ensures Leaves(heard, n, Sending)
    ensures forall i :: 0 <= i < |heard| ==> !Acknowledges(heard[i], n) && !TooShort(heard[i])
    ensures Timeouts(heard) <= MAX_RETRIES
  {
    if heard != [] {
      var before := heard[..|heard| - 1];
      WaitsLeave(before, n);
      assert forall i :: 0 <= i < |before| ==> before[i] == heard[i];
    }
  }

  /** One more input while the sender waits. */
  lemma {:induction false} OneMore(inputs: seq<Input>, used: nat, n: nat)
    requires used < |inputs| && Waits(inputs[..used], n)
    ensures var retries := Timeouts(inputs[..used]);
            && Timeouts(inputs[..used + 1]) == retries + (if inputs[used].Timeout? then 1 else 0)
            && Leaves(inputs[..used + 1], n, Verdict(inputs[used], retries, n))
            && (Verdict(inputs[used], retries, n) == Sending ==> Waits(inputs[..used + 1], n))
  {
    var before, now := inputs[..used], inputs[..used + 1];
    assert now[..used] == before && now[used] == inputs[used];
    WaitsLeave(before, n);
    assert forall i :: 0 <= i < used ==> before[i] == now[i];
  }

  /** What one input does to a sender that is sending block number `index` + 1. */
  lemma OnInputIs(chunks: seq<seq<Byte>>, index: nat, retries: nat, i: Input)
    requires retries <= MAX_RETRIES
    ensures var verdict, t := Verdict(i, retries, index + 1), OnInput(chunks, Sender(index, retries, Sending), i);
            if verdict == Done then t == Enter(chunks, index + 1)
            else t == Sender(index, if i.Timeout? then retries + 1 else retries, verdict)
  {
  }

  /** Once the loop has been left, further input changes nothing. */
  lemma {:induction false} StuckStays(chunks: seq<seq<Byte>>, s: Sender, inputs: seq<Input>, used: nat)
    requires used <= |inputs| && After(chunks, s, inputs[..used]).phase != Sending
    ensures After(chunks, s, inputs) == After(chunks, s, inputs[..used])
    decreases |inputs|
  {
    if used < |inputs| {
      var n := |inputs| - 1;
      assert inputs[..n][..used] == inputs[..used];
      StuckStays(chunks, s, inputs[..n], used);
    } else {
      assert inputs[..used] == inputs;
    }
  }
}
