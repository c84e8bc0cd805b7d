// A whole transfer: the sender of module Tftp, an RFC 1350 receiver (sections 2 and 6), and a
// network that may lose, duplicate and reorder every packet and deliver strays to the sender.
module TftpTransfer {
  import opened Words
  import opened Options
  import opened Tftp

  /** `received` is what has been written so far, `next` the block number expected. */
  datatype Receiver = Receiver(received: seq<Byte>, next: nat, finished: bool)

  /** The network keeps every packet ever sent: delivering any of them, any number of times and in any
      order, or never, covers loss, duplication and reordering. */
  datatype System = System(sender: Sender, receiver: Receiver, toReceiver: set<seq<Byte>>, toSender: set<seq<Byte>>)

  function Ack(n: nat): (m: seq<Byte>)
    requires n < 0x1_0000
    ensures AckNum(m) == Some(n)
  {
    [0, 4, n / 256, n % 256]
  }

  const OPT_ACK: seq<Byte> := [0, 4, 0, 0]

  /** `strays` are the packets besides the receiver's acknowledgements that can reach the sender's port
      during the transfer: ERROR packets, copies of the read request, acknowledgements of an earlier
      transfer. */
  function Init(file: seq<Byte>, strays: set<seq<Byte>>): System {
    System(Start(file), Receiver([], 1, false), {}, {OPT_ACK} + strays)
  }

  /** The block number of a DATA packet. */
  function BlockNum(m: seq<Byte>): nat
    requires |m| >= 4
  {
    m[2] as int * 256 + m[3] as int
  }

  /** RFC 1350: the expected block is stored and acknowledged, a block of less than 512 bytes is the
      last, and an earlier block is acknowledged again because its acknowledgement may be lost. */
  function OnData(r: Receiver, m: seq<Byte>): (Receiver, set<seq<Byte>>)
    requires |m| >= 4
  {
    var n := BlockNum(m);
    if n == r.next % 0x1_0000 && !r.finished then
      (Receiver(r.received + m[4..], r.next + 1, |m| - 4 < BLKSIZE), {Ack(n)})
    else if n < r.next then (r, {Ack(n)})
    else (r, {})
  }

  datatype Action = Transmit | Expire | DeliverAck(m: seq<Byte>) | DeliverData(m: seq<Byte>)

  ghost predicate Next(file: seq<Byte>, s: System, a: Action, s': System) {
    match a
    case Transmit =>
      && s.sender.phase == Sending && Dataset(file).Some? && s.sender.index < |Dataset(file).value|
      && var m := DataMsg(s.sender.index + 1, Dataset(file).value[s.sender.index]);
         m.Some? && s' == s.(toReceiver := s.toReceiver + {m.value})
    case Expire =>
      && Dataset(file).Some?
      && s' == s.(sender := OnInput(Dataset(file).value, s.sender, Timeout))
    case DeliverAck(m) =>
      && Dataset(file).Some? && m in s.toSender
      && s' == s.(sender := OnInput(Dataset(file).value, s.sender, Packet(m)))
    case DeliverData(m) =>
      && m in s.toReceiver && |m| >= 4
      && var (r, acks) := OnData(s.receiver, m);
         s' == s.(receiver := r, toSender := s.toSender + acks)
  }

  ghost predicate Run(file: seq<Byte>, strays: set<seq<Byte>>, ss: seq<System>, actions: seq<Action>) {
    && |ss| == |actions| + 1 && ss[0] == Init(file, strays)
    && forall i :: 0 <= i < |actions| ==> Next(file, ss[i], actions[i], ss[i + 1])
  }

  // ---------------------------------------------------------------- what strays can do

  /** Some stray is taken as the acknowledgement of block `n`. */
  ghost predicate Poses(strays: set<seq<Byte>>, n: nat) {
    exists m :: m in strays && AckNum(m) == Some(n)
  }

  /** No stray is taken as the acknowledgement of a block of the file. */
  ghost predicate Harmless(strays: set<seq<Byte>>, blocks: nat) {
    forall m :: m in strays && AckNum(m).Some? ==> AckNum(m).value == 0 || AckNum(m).value > blocks
  }

  /** An ERROR packet with code k counts as the acknowledgement of block k: "file not found" alone ends
      the transfer of any file of a single block. */
  lemma ErrorTakenAsAck(file: seq<Byte>, text: seq<Byte>)
    requires 0 < |file| < BLKSIZE
    ensures Dataset(file) == Some([file])
    ensures AckNum([0, 5, 0, 1] + text) == Some(1)
    ensures OnInput([file], Start(file), Packet([0, 5, 0, 1] + text)).phase == Done
  {
    var m := [0, 5, 0, 1] + text;
    assert Group(file, BLKSIZE) == [file];
    assert m[2] == 0 && m[3] == 1;
  }

  /** A late copy of the read request counts by the first two letters of the file name. */
  lemma RequestTakenAsAck(first: Byte, second: Byte, rest: seq<Byte>)
    ensures AckNum([0, 1, first, second] + rest) == Some(first as int * 256 + second as int)
  {
    var m := [0, 1, first, second] + rest;
    assert m[2] == first && m[3] == second;
  }

  // ---------------------------------------------------------------- safety

  /** What holds in every state: `received` is a prefix of whole blocks and the sender is at most one
      block behind.  It is not ahead when the strays are harmless, and its success is genuine when no
      stray poses as the last acknowledgement. */
  ghost predicate Lockstep(chunks: seq<seq<Byte>>, strays: set<seq<Byte>>, s: System) {
    var got := s.receiver.next - 1;
    && 0 <= got <= |chunks| && got < 0x1_0000
    && s.receiver.received == Concat(chunks[..got])
    && (s.receiver.finished <==> got == |chunks|)
    && s.sender.index <= |chunks| && s.sender.index < 0x1_0000 && got <= s.sender.index + 1
    && (Harmless(strays, |chunks|) ==> s.sender.index <= got)
    && (s.sender.phase == Done ==> s.sender.index == |chunks| && (Poses(strays, |chunks|) || got == |chunks|))
    && (s.sender.phase == Sending ==> s.sender.index < |chunks| && s.sender.index + 1 < 0x1_0000)
    && (forall m :: m in s.toReceiver ==> IsDataOf(chunks, m, s.sender.index))
    && (forall m :: m in s.toSender ==> m in strays || (AckNum(m).Some? && AckNum(m).value <= got))
  }

  lemma InitLockstep(file: seq<Byte>, strays: set<seq<Byte>>)
    requires file != []
    ensures Dataset(file).Some? && Lockstep(Dataset(file).value, strays, Init(file, strays))
  {
    DatasetRoundTrip(file);
    assert Dataset(file).value[..0] == [];
  }

  lemma StepKeepsLockstep(file: seq<Byte>, chunks: seq<seq<Byte>>, strays: set<seq<Byte>>, s: System, a: Action, s': System)
    requires Dataset(file) == Some(chunks) && Lockstep(chunks, strays, s) && Next(file, s, a, s')
    ensures Lockstep(chunks, strays, s')
  {
    DatasetRoundTrip(file);
    match a
    case Transmit =>
      var m := DataMsg(s.sender.index + 1, chunks[s.sender.index]).value;
      assert IsDataOf(chunks, m, s.sender.index);
    case Expire =>
    case DeliverAck(m) => AckKeepsLockstep(chunks, strays, s, m, s');
    case DeliverData(m) => DataKeepsLockstep(chunks, strays, s, m, s');
  }

  /** Any packet on the sender's port, stray or not. */
  lemma AckKeepsLockstep(chunks: seq<seq<Byte>>, strays: set<seq<Byte>>, s: System, m: seq<Byte>, s': System)
    requires Lockstep(chunks, strays, s) && m in s.toSender
    requires s' == s.(sender := OnInput(chunks, s.sender, Packet(m)))
    ensures Lockstep(chunks, strays, s')
  {
    forall d | d in s.toReceiver
      ensures IsDataOf(chunks, d, s'.sender.index)
    {
      assert IsDataOf(chunks, d, s.sender.index);
    }
    if AckNum(m) == Some(s.sender.index + 1) && m in strays { assert Poses(strays, s.sender.index + 1); }
  }

  lemma DataBytes(n: nat, chunk: seq<Byte>, m: seq<Byte>)
    requires DataMsg(n, chunk) == Some(m)
    ensures |m| >= 4 && BlockNum(m) == n < 0x1_0000 && m[4..] == chunk
  {
  }

  /** What the receiver does with block `n` when it expects `next`. */
  lemma DataEffect(r: Receiver, m: seq<Byte>, n: nat)
    requires |m| >= 4 && BlockNum(m) == n && 1 <= n < 0x1_0000 && r.next <= 0x1_0000
    ensures n == r.next && !r.finished ==>
              OnData(r, m) == (Receiver(r.received + m[4..], r.next + 1, |m| - 4 < BLKSIZE), {[0, 4, n / 256, n % 256]})
    ensures n < r.next ==> OnData(r, m) == (r, {[0, 4, n / 256, n % 256]})
    ensures n > r.next ==> OnData(r, m) == (r, {})
  {
  }

  lemma DataKeepsLockstep(chunks: seq<seq<Byte>>, strays: set<seq<Byte>>, s: System, m: seq<Byte>, s': System)
    requires WellFormed(chunks) && Lockstep(chunks, strays, s) && m in s.toReceiver && |m| >= 4
    requires var (r, acks) := OnData(s.receiver, m); s' == s.(receiver := r, toSender := s.toSender + acks)
    ensures Lockstep(chunks, strays, s')
  {
    assert IsDataOf(chunks, m, s.sender.index);
    var k :| 0 <= k <= s.sender.index && k < |chunks| && DataMsg(k + 1, chunks[k]) == Some(m);
    DataBytes(k + 1, chunks[k], m);
    DataEffect(s.receiver, m, k + 1);
    if k == s.receiver.next - 1 { NextBlock(chunks, strays, s, m, s'); }
  }

  /** The block that the receiver expects. */
  lemma NextBlock(chunks: seq<seq<Byte>>, strays: set<seq<Byte>>, s: System, m: seq<Byte>, s': System)
    requires WellFormed(chunks) && Lockstep(chunks, strays, s)
    requires var k := s.receiver.next - 1;
             && k < |chunks| && k + 1 < 0x1_0000 && k <= s.sender.index && |m| >= 4 && m[4..] == chunks[k]
             && s' == s.(receiver := Receiver(s.receiver.received + m[4..], k + 2, |m| - 4 < BLKSIZE),
                         toSender := s.toSender + {Ack(k + 1)})
    ensures Lockstep(chunks, strays, s')
  {
    var k := s.receiver.next - 1;
    assert chunks[..k + 1][..k] == chunks[..k];
  }

  lemma {:induction false} RunKeepsLockstep(file: seq<Byte>, chunks: seq<seq<Byte>>, strays: set<seq<Byte>>,
                                            ss: seq<System>, actions: seq<Action>, i: nat)
    requires file != [] && Dataset(file) == Some(chunks) && Run(file, strays, ss, actions) && i < |ss|
    ensures Lockstep(chunks, strays, ss[i])
    decreases i
  {
    if i == 0 {
      InitLockstep(file, strays);
    } else {
      RunKeepsLockstep(file, chunks, strays, ss, actions, i - 1);
      StepOfRun(file, chunks, strays, ss, actions, i - 1);
    }
  }

  lemma {:induction false} StepOfRun(file: seq<Byte>, chunks: seq<seq<Byte>>, strays: set<seq<Byte>>,
                                     ss: seq<System>, actions: seq<Action>, i: nat)
    requires file != [] && Dataset(file) == Some(chunks) && Run(file, strays, ss, actions) && i + 1 < |ss|
    requires Lockstep(chunks, strays, ss[i])
    ensures Lockstep(chunks, strays, ss[i + 1])
  {
    RunTakesStep(file, strays, ss, actions, i);
    StepKeepsLockstep(file, chunks, strays, ss[i], actions[i], ss[i + 1]);
  }

  lemma RunTakesStep(file: seq<Byte>, strays: set<seq<Byte>>, ss: seq<System>, actions: seq<Action>, i: nat)
    requires Run(file, strays, ss, actions) && i < |actions|
    ensures Next(file, ss[i], actions[i], ss[i + 1])
  {
  }

  /** An empty file fails before anything is sent, and nothing can follow. */
  lemma EmptyFileFails(strays: set<seq<Byte>>, ss: seq<System>, actions: seq<Action>)
    requires Run([], strays, ss, actions)
    ensures ss == [Init([], strays)] && ss[0].sender.phase == Failed
  {
    if actions != [] {
      var a, s := actions[0], ss[1];
      RunTakesStep([], strays, ss, actions, 0);
      NothingFollows(strays, a, s);
    }
    DatasetRoundTrip([]);
  }

  lemma NothingFollows(strays: set<seq<Byte>>, a: Action, s: System)
    ensures !Next([], Init([], strays), a, s)
  {
    DatasetRoundTrip([]);
  }

  /** The receiver holds a prefix of the file, and all of it once it has finished. */
  lemma LockstepIsSafe(file: seq<Byte>, chunks: seq<seq<Byte>>, strays: set<seq<Byte>>, s: System)
    requires file != [] && Dataset(file) == Some(chunks) && Lockstep(chunks, strays, s)
    ensures s.receiver.received <= file
    ensures s.receiver.next == |chunks| + 1 ==> s.receiver.received == file && s.receiver.finished
  {
    DatasetRoundTrip(file);
    ConcatPrefix(chunks, s.receiver.next - 1);
    assert chunks[..|chunks|] == chunks;
  }

  /** The sender's success means that the receiver has the file. */
  ghost predicate Genuine(file: seq<Byte>, s: System) {
    s.sender.phase == Done ==> s.receiver.received == file && s.receiver.finished
  }

  /** Blocks acknowledged that the receiver does not have. */
  ghost predicate Ahead(s: System) {
    s.sender.index > s.receiver.next - 1
  }

  /** Safety: whatever the network does and whatever strays it delivers, the receiver holds a prefix of
      the file made of whole blocks and the sender is at most one block behind it.  It is never ahead if
      no stray is taken as the acknowledgement of a block, and its success is genuine if none is taken
      as that of the last block. */
  lemma TransferIsSafe(file: seq<Byte>, strays: set<seq<Byte>>, ss: seq<System>, actions: seq<Action>, i: nat)
    requires Run(file, strays, ss, actions) && i < |ss|
    ensures ss[i].receiver.received <= file
    ensures file != [] ==> Dataset(file).Some? && ss[i].receiver.next - 1 <= ss[i].sender.index + 1
    ensures file != [] && Harmless(strays, |Dataset(file).value|) ==> !Ahead(ss[i])
    ensures file != [] && !Poses(strays, |Dataset(file).value|) ==> Genuine(file, ss[i])
    ensures file == [] ==> ss[i].sender.phase == Failed && ss[i].toReceiver == {} && ss[i].receiver.received == []
  {
    if file == [] {
      EmptyFileFails(strays, ss, actions);
    } else {
      DatasetRoundTrip(file);
      var chunks := Dataset(file).value;
      RunKeepsLockstep(file, chunks, strays, ss, actions, i);
      LockstepIsSafe(file, chunks, strays, ss[i]);
    }
  }

  lemma {:induction false} ConcatPrefix(chunks: seq<seq<Byte>>, k: nat)
    requires k <= |chunks|
    ensures Concat(chunks[..k]) <= Concat(chunks)
    decreases |chunks|
  {
    if k < |chunks| {
      var n := |chunks| - 1;
      assert chunks[..n][..k] == chunks[..k];
      ConcatPrefix(chunks[..n], k);
    } else {
      assert chunks[..k] == chunks;
    }
  }

  // ---------------------------------------------------------------- exactly when

  ghost predicate NeverAhead(file: seq<Byte>, strays: set<seq<Byte>>) {
    forall ss: seq<System>, actions: seq<Action>, i: nat :: Run(file, strays, ss, actions) && i < |ss| ==> !Ahead(ss[i])
  }

  ghost predicate AlwaysGenuine(file: seq<Byte>, strays: set<seq<Byte>>) {
    forall ss: seq<System>, actions: seq<Action>, i: nat :: Run(file, strays, ss, actions) && i < |ss| ==> Genuine(file, ss[i])
  }

  /** The sender never gets ahead of the receiver, in any run, if and only if no stray is taken as the
      acknowledgement of a block of the file. */
  lemma NeverAheadExactly(file: seq<Byte>, strays: set<seq<Byte>>)
    requires file != []
    ensures Dataset(file).Some?
    ensures NeverAhead(file, strays) <==> Harmless(strays, |Dataset(file).value|)
  {
    DatasetRoundTrip(file);
    var chunks := Dataset(file).value;
    if Harmless(strays, |chunks|) {
      forall ss: seq<System>, actions: seq<Action>, i: nat | Run(file, strays, ss, actions) && i < |ss|
        ensures !Ahead(ss[i])
      {
        TransferIsSafe(file, strays, ss, actions, i);
      }
    } else {
      var m :| m in strays && AckNum(m).Some? && 1 <= AckNum(m).value <= |chunks|;
      var ss, actions := StrayRun(file, strays, m);
      assert Ahead(ss[|ss| - 1]);
    }
  }

  /** A reported success is genuine, in every run, if and only if no stray is taken as the
      acknowledgement of the last block. */
  lemma GenuineExactly(file: seq<Byte>, strays: set<seq<Byte>>)
    requires file != []
    ensures Dataset(file).Some?
    ensures AlwaysGenuine(file, strays) <==> !Poses(strays, |Dataset(file).value|)
  {
    DatasetRoundTrip(file);
    var chunks := Dataset(file).value;
    if Poses(strays, |chunks|) {
      var m :| m in strays && AckNum(m) == Some(|chunks|);
      var ss, actions := StrayRun(file, strays, m);
      assert !Genuine(file, ss[|ss| - 1]);
    } else {
      forall ss: seq<System>, actions: seq<Action>, i: nat | Run(file, strays, ss, actions) && i < |ss|
        ensures Genuine(file, ss[i])
      {
        TransferIsSafe(file, strays, ss, actions, i);
      }
    }
  }

  /** A run that goes well up to the block before the one that the stray poses for. */
  lemma StrayRun(file: seq<Byte>, strays: set<seq<Byte>>, m: seq<Byte>) returns (ss: seq<System>, actions: seq<Action>)
    requires Dataset(file).Some? && WellFormed(Dataset(file).value)
    requires m in strays && AckNum(m).Some? && 1 <= AckNum(m).value <= |Dataset(file).value|
    ensures Run(file, strays, ss, actions)
    ensures var s, k := ss[|ss| - 1], AckNum(m).value;
            s.sender == Enter(Dataset(file).value, k) && s.receiver.next == k && !s.receiver.finished
  {
    var chunks, k := Dataset(file).value, AckNum(m).value;
    ss, actions := LosslessRun(file, strays, k - 1);
    var s := ss[|ss| - 1];
    ss, actions := Extend(file, strays, ss, actions, DeliverAck(m), s.(sender := OnInput(chunks, s.sender, Packet(m))));
  }

  // ---------------------------------------------------------------- which files can be sent

  ghost predicate CanFinish(file: seq<Byte>, strays: set<seq<Byte>>) {
    exists ss: seq<System>, actions: seq<Action>, i: nat :: Run(file, strays, ss, actions) && i < |ss| && ss[i].sender.phase == Done
  }

  /** A transfer can succeed exactly for the files that are not empty and need at most 65535 blocks. */
  lemma SendableFiles(file: seq<Byte>, strays: set<seq<Byte>>)
    ensures CanFinish(file, strays) <==> 0 < |file| < 0xffff * BLKSIZE
  {
    DatasetRoundTrip(file);
    if CanFinish(file, strays) {
      var ss: seq<System>, actions: seq<Action>, i: nat :| Run(file, strays, ss, actions) && i < |ss| && ss[i].sender.phase == Done;
      if file == [] { EmptyFileFails(strays, ss, actions); }
      else { RunKeepsLockstep(file, Dataset(file).value, strays, ss, actions, i); }
    }
    if 0 < |file| < 0xffff * BLKSIZE {
      var ss, actions := LosslessRun(file, strays, |Dataset(file).value|);
      assert ss[|ss| - 1].sender.phase == Done;
    }
  }

  /** A state of the run in which nothing is ever lost, after `k` blocks. */
  ghost predicate Caught(chunks: seq<seq<Byte>>, strays: set<seq<Byte>>, s: System, k: nat) {
    && s.sender == Enter(chunks, k) && s.receiver.next == k + 1 && (s.receiver.finished <==> k == |chunks|)
    && strays <= s.toSender
  }

  lemma {:induction false} LosslessRun(file: seq<Byte>, strays: set<seq<Byte>>, k: nat)
    returns (ss: seq<System>, actions: seq<Action>)
    requires Dataset(file).Some? && WellFormed(Dataset(file).value)
    requires k <= |Dataset(file).value| && k <= 0xffff
    ensures Run(file, strays, ss, actions) && Caught(Dataset(file).value, strays, ss[|ss| - 1], k)
  {
    var chunks := Dataset(file).value;
    if k == 0 {
      ss, actions := [Init(file, strays)], [];
    } else {
      ss, actions := LosslessRun(file, strays, k - 1);
      var s0 := ss[|ss| - 1];
      var m := DataMsg(k, chunks[k - 1]).value;
      var s1 := s0.(toReceiver := s0.toReceiver + {m});
      DataBytes(k, chunks[k - 1], m);
      DataEffect(s0.receiver, m, k);
      ss, actions := Extend(file, strays, ss, actions, Transmit, s1);
      var (r, acks) := OnData(s1.receiver, m);
      var s2 := s1.(receiver := r, toSender := s1.toSender + acks);
      ss, actions := Extend(file, strays, ss, actions, DeliverData(m), s2);
      var s3 := s2.(sender := OnInput(chunks, s2.sender, Packet(Ack(k))));
      ss, actions := Extend(file, strays, ss, actions, DeliverAck(Ack(k)), s3);
    }
  }

  lemma Extend(file: seq<Byte>, strays: set<seq<Byte>>, ss: seq<System>, actions: seq<Action>, a: Action, s: System)
    returns (ss': seq<System>, actions': seq<Action>)
    requires Run(file, strays, ss, actions) && Next(file, ss[|ss| - 1], a, s)
    ensures Run(file, strays, ss', actions') && ss' == ss + [s]
  {
    ss', actions' := ss + [s], actions + [a];
  }
}
