// Commands between the manager and its clients (trxcommon.c:73-229): a fixed header that carries the
// total length, an optional payload, and an acknowledgement for every command.
module Framing {
  import opened Words
  import opened Options

  const CMDLEN := 24
  const CMD_ACK: Byte := 12
  const MAGIC: seq<Byte> := [84, 112, 77, 100]  // "TpMd"

  datatype Cmd = Cmd(seqno: Word, code: Byte, aux0: Word, aux1: Word)

  datatype Message = Message(cmd: Cmd, payload: seq<Byte>)

  // ---------------------------------------------------------------- frames

  /** cmd_t in memory; the three bytes after `cmd` are padding with arbitrary contents. */
  function Header(c: Cmd, len: Word, pad: seq<Byte>): (h: seq<Byte>)
    requires |pad| == 3
    ensures |h| == CMDLEN
  {
    MAGIC + WordBytes(len) + WordBytes(c.seqno) + [c.code] + pad + WordBytes(c.aux0) + WordBytes(c.aux1)
  }

  function Frame(m: Message, pad: seq<Byte>): seq<Byte>
    requires |pad| == 3
  {
    Header(m.cmd, Uint32(CMDLEN + |m.payload|), pad) + m.payload
  }

  function HeaderCmd(h: seq<Byte>): Cmd
    requires |h| == CMDLEN
  {
    Cmd(BytesWord(h[8..12]), h[12], BytesWord(h[16..20]), BytesWord(h[20..24]))
  }

  function HeaderLen(h: seq<Byte>): Word
    requires |h| == CMDLEN
  {
    BytesWord(h[4..8])
  }

  /** The `int more` of rcvCmd: a length of less than a header, or of 2^31 bytes more, makes it negative. */
  function Declared(h: seq<Byte>): int
    requires |h| == CMDLEN
  {
    Int32(HeaderLen(h) - CMDLEN)
  }

  /** What rcvCmd takes off a stream: a whole header with the magic, and as much payload as it says. */
  function Parse(stream: seq<Byte>): Option<(Message, seq<Byte>)> {
    if |stream| < CMDLEN || stream[..4] != MAGIC then None
    else
      var h := stream[..CMDLEN];
      var more := Declared(h);
      if more < 0 || |stream| - CMDLEN < more then None
      else Some((Message(HeaderCmd(h), stream[CMDLEN..CMDLEN + more]), stream[CMDLEN + more..]))
  }

  function Min(a: nat, b: nat): nat {
    if a < b then a else b
  }

  /** How much of the stream rcvCmd consumes, whether it succeeds or not. */
  function Taken(stream: seq<Byte>): (n: nat)
    ensures n <= |stream|
  {
    if |stream| < CMDLEN then |stream|
    else
      var more := Declared(stream[..CMDLEN]);
      if stream[..4] != MAGIC || more < 0 then CMDLEN else Min(CMDLEN + more, |stream|)
  }

  /** The messages on a stream that ends on a frame boundary. */
  function ParseAll(stream: seq<Byte>): Option<seq<Message>>
    decreases |stream|
  {
    if stream == [] then Some([])
    else match Parse(stream)
      case None => None
      case Some((m, rest)) =>
        match ParseAll(rest)
        case None => None
        case Some(ms) => Some([m] + ms)
  }

  function Frames(ms: seq<Message>, pads: seq<seq<Byte>>): seq<Byte>
    requires |pads| == |ms| && forall i :: 0 <= i < |pads| ==> |pads[i]| == 3
  {
    if ms == [] then [] else Frame(ms[0], pads[0]) + Frames(ms[1..], pads[1..])
  }

  /** Lengths are ints on both sides. */
  const INT_LIMIT := 0x8000_0000

  predicate Sendable(m: Message) {
    |m.payload| < INT_LIMIT
  }

  /** Which byte of a header is what, and that it is read back. */
  lemma HeaderFields(c: Cmd, len: Word, pad: seq<Byte>)
    requires |pad| == 3
    ensures var h := Header(c, len, pad);
            && h[0] == 84 && h[1] == 112 && h[2] == 77 && h[3] == 100 && h[4..8] == WordBytes(len)
            && h[8..12] == WordBytes(c.seqno) && h[12] == c.code && h[13..16] == pad
            && h[16..20] == WordBytes(c.aux0) && h[20..24] == WordBytes(c.aux1)
    ensures var h := Header(c, len, pad);
            h[..4] == MAGIC && HeaderLen(h) == len && HeaderCmd(h) == c
  {
    var h := Header(c, len, pad);
    assert h[4..8] == WordBytes(len) && h[8..12] == WordBytes(c.seqno);
    assert h[16..20] == WordBytes(c.aux0) && h[20..24] == WordBytes(c.aux1);
    WordRoundTrip(len);
    WordRoundTrip(c.seqno);
    WordRoundTrip(c.aux0);
    WordRoundTrip(c.aux1);
  }

  /** What rcvCmd makes of any stream: refused and the header consumed for a wrong magic or a length below
      a header's or 2^31 or more beyond it; consumed to its end when it is too short; otherwise the fields
      and the payload, and exactly what follows is left. */
  lemma ReceivedExactly(stream: seq<Byte>)
    ensures |stream| < 24 ==> Parse(stream) == None && Taken(stream) == |stream|
    ensures |stream| >= 24 ==>
              var len, magic := BytesWord(stream[4..8]), stream[..4] == [84, 112, 77, 100];
              && (!magic || len < 24 || len >= 24 + 0x8000_0000 ==> Parse(stream) == None && Taken(stream) == 24)
              && (magic && 24 <= len < 24 + 0x8000_0000 && |stream| < len ==>
                    Parse(stream) == None && Taken(stream) == |stream|)
              && (magic && 24 <= len < 24 + 0x8000_0000 && |stream| >= len ==>
                    && Taken(stream) == len
                    && Parse(stream) == Some((Message(Cmd(BytesWord(stream[8..12]), stream[12], BytesWord(stream[16..20]),
                                                         BytesWord(stream[20..24])), stream[24..len]), stream[len..])))
  {
    if |stream| >= 24 {
      var h := stream[..CMDLEN];
      assert h[4..8] == stream[4..8] && h[8..12] == stream[8..12] && h[16..20] == stream[16..20] && h[20..24] == stream[20..24];
    }
  }

  /** A header that declares `more` bytes, followed by a body and by whatever comes next. */
  lemma ParseDeclared(c: Cmd, more: nat, pad: seq<Byte>, rest: seq<Byte>)
    requires |pad| == 3 && more < INT_LIMIT
    ensures Parse(Header(c, CMDLEN + more, pad) + rest)
            == if |rest| < more then None else Some((Message(c, rest[..more]), rest[more..]))
  {
    var h := Header(c, CMDLEN + more, pad);
    HeaderFields(c, CMDLEN + more, pad);
    assert (h + rest)[..CMDLEN] == h && (h + rest)[..4] == h[..4];
    if |rest| >= more {
      assert (h + rest)[CMDLEN..CMDLEN + more] == rest[..more];
      assert (h + rest)[CMDLEN + more..] == rest[more..];
    }
  }

  lemma ParseFrame(m: Message, pad: seq<Byte>, rest: seq<Byte>)
    requires |pad| == 3 && Sendable(m)
    ensures Parse(Frame(m, pad) + rest) == Some((m, rest))
  {
    var more := |m.payload|;
    FrameParts(m, pad, rest);
    ParseDeclared(m.cmd, more, pad, m.payload + rest);
    PayloadAndRest(m.payload, rest);
  }

  lemma PayloadAndRest(p: seq<Byte>, rest: seq<Byte>)
    ensures (p + rest)[..|p|] == p && (p + rest)[|p|..] == rest
  {
  }

  lemma FrameParts(m: Message, pad: seq<Byte>, rest: seq<Byte>)
    requires |pad| == 3 && Sendable(m)
    ensures Frame(m, pad) + rest == Header(m.cmd, CMDLEN + |m.payload|, pad) + (m.payload + rest)
  {
    var len := CMDLEN + |m.payload|;
    assert Uint32(len) == len;
    FrameIsHeaderAndBody(Header(m.cmd, len, pad), m.payload, rest);
  }

  lemma FrameIsHeaderAndBody(h: seq<Byte>, p: seq<Byte>, rest: seq<Byte>)
    ensures (h + p) + rest == h + (p + rest)
  {
  }

  lemma {:induction false} ParseAllCons(m: Message, pad: seq<Byte>, rest: seq<Byte>, ms: seq<Message>)
    requires |pad| == 3 && Sendable(m) && ParseAll(rest) == Some(ms)
    ensures ParseAll(Frame(m, pad) + rest) == Some([m] + ms)
  {
    ParseFrame(m, pad, rest);
  }

  /** The receiver of a stream of frames sees exactly the messages sent, in order. */
  lemma {:induction false} FramingRoundTrip(ms: seq<Message>, pads: seq<seq<Byte>>)
    requires |pads| == |ms| && forall i :: 0 <= i < |pads| ==> |pads[i]| == 3
    requires forall i :: 0 <= i < |ms| ==> Sendable(ms[i])
    ensures ParseAll(Frames(ms, pads)) == Some(ms)
  {
    if ms != [] {
      var rest := Frames(ms[1..], pads[1..]);
      assert Frames(ms, pads) == Frame(ms[0], pads[0]) + rest;
      FramingRoundTrip(ms[1..], pads[1..]);
      ParseAllCons(ms[0], pads[0], rest, ms[1..]);
      assert [ms[0]] + ms[1..] == ms;
    }
  }

  // ---------------------------------------------------------------- payloads from a callback

  /** What the calls of a callback hand over, up to the one that answers 0. */
  function Joined(pieces: seq<seq<Byte>>): seq<Byte> {
    if pieces == [] || pieces[0] == [] then [] else pieces[0] + Joined(pieces[1..])
  }

  /** That is, every piece up to the first empty one. */
  lemma {:induction false} JoinedStops(pieces: seq<seq<Byte>>, k: nat)
    requires k < |pieces| && pieces[k] == []
    ensures Joined(pieces) == Joined(pieces[..k])
  {
    if k > 0 && pieces[0] != [] {
      JoinedStops(pieces[1..], k - 1);
      assert pieces[..k][1..] == pieces[1..][..k - 1];
    }
  }

  lemma {:induction false} JoinedGrows(pieces: seq<seq<Byte>>, p: seq<Byte>)
    requires forall i :: 0 <= i < |pieces| ==> pieces[i] != []
    ensures Joined(pieces + [p]) == Joined(pieces) + p
  {
    if pieces != [] {
      assert (pieces + [p])[1..] == pieces[1..] + [p];
      JoinedGrows(pieces[1..], p);
    }
  }

  /** The callback is not even called when the declared length is 0. */
  function CallbackBody(more: nat, pieces: seq<seq<Byte>>): seq<Byte> {
    if more == 0 then [] else Joined(pieces)
  }

  function CallbackFrame(c: Cmd, more: nat, pad: seq<Byte>, pieces: seq<seq<Byte>>): seq<Byte>
    requires |pad| == 3 && more < INT_LIMIT
  {
    Header(c, CMDLEN + more, pad) + CallbackBody(more, pieces)
  }

  /** Nothing checks the length of what a callback hands over: whatever follows, the receiver takes the
      payload for what it is exactly when the pieces add up to the length declared. */
  lemma {:induction false} CallbackFramed(c: Cmd, more: nat, pad: seq<Byte>, pieces: seq<seq<Byte>>, rest: seq<Byte>)
    requires |pad| == 3 && more < INT_LIMIT
    ensures Parse(CallbackFrame(c, more, pad, pieces) + rest) == Some((Message(c, CallbackBody(more, pieces)), rest))
            <==> more == 0 || |Joined(pieces)| == more
  {
    var body := CallbackBody(more, pieces);
    FrameIsHeaderAndBody(Header(c, CMDLEN + more, pad), body, rest);
    ParseDeclared(c, more, pad, body + rest);
    if |body| == more { PayloadAndRest(body, rest); }
  }

  /** So it is for the whole stream: the commands that follow are read as they were sent if and only if
      the pieces add up. */
  lemma {:induction false} CallbackThenFrames(c: Cmd, more: nat, pad: seq<Byte>, pieces: seq<seq<Byte>>,
                                              ms: seq<Message>, pads: seq<seq<Byte>>)
    requires |pad| == 3 && more < INT_LIMIT
    requires |pads| == |ms| && forall i :: 0 <= i < |pads| ==> |pads[i]| == 3
    requires forall i :: 0 <= i < |ms| ==> Sendable(ms[i])
    ensures ParseAll(CallbackFrame(c, more, pad, pieces) + Frames(ms, pads))
              == Some([Message(c, CallbackBody(more, pieces))] + ms)
            <==> more == 0 || |Joined(pieces)| == more
  {
    var body, rest := CallbackBody(more, pieces), Frames(ms, pads);
    var stream := CallbackFrame(c, more, pad, pieces) + rest;
    FrameIsHeaderAndBody(Header(c, CMDLEN + more, pad), body, rest);
    ParseDeclared(c, more, pad, body + rest);
    FramingRoundTrip(ms, pads);
    assert ParseAll(stream).Some? ==> |ParseAll(stream).value[0].payload| == more;
    if |body| == more { PayloadAndRest(body, rest); }
  }

  // ---------------------------------------------------------------- the code

  /** One direction of a socket.  The size of each partial transfer is the environment's choice. */
  class Pipe {
    var bytes: seq<Byte>

    constructor ()
      ensures bytes == []
    {
      bytes := [];
    }

    /** write: `limit` bytes at most are taken; a negative one stands for an error. */
    method Write(data: seq<Byte>, limit: int) returns (nw: int)
      requires data != []
      modifies this
      ensures if limit < 0 then nw == -1 && bytes == old(bytes)
              else nw == Min(limit, |data|) && bytes == old(bytes) + data[..nw]
    {
      if limit < 0 { return -1; }
      nw := Min(limit, |data|);
      bytes := bytes + data[..nw];
    }

    /** read: at most `max` bytes, `limit` of them if there are as many; 0 at the end of the stream. */
    method Read(max: nat, limit: nat) returns (data: seq<Byte>)
      requires limit > 0
      modifies this
      ensures data == old(bytes)[..Min(Min(max, limit), |old(bytes)|)]
      ensures bytes == old(bytes)[|data|..]
    {
      var n := Min(Min(max, limit), |bytes|);
      data := bytes[..n];
      bytes := bytes[n..];
    }
  }

  /** The loop of sendCmdMore around write: write what is left until nothing is.  `limits` says how much
      each write takes, possibly nothing; those beyond its end are unlimited. */
  method SendPayload(out: Pipe, payload: seq<Byte>, limits: seq<int>) returns (pos: nat, sent: bool)
    modifies out
    ensures pos <= |payload| && out.bytes == old(out.bytes) + payload[..pos] && (sent <==> pos == |payload|)
    ensures NoneFails(limits) ==> sent
  {
    var more, call := |payload|, 0;
    pos := 0;
    while more > 0
      invariant 0 <= more && pos + more == |payload| && out.bytes == old(out.bytes) + payload[..pos]
      decreases if call < |limits| then |limits| - call else 0, more
    {
      var nw := out.Write(payload[pos..], if call < |limits| then limits[call] else more);
      call := call + 1;
      if nw < 0 { return pos, false; }
      assert payload[..pos] + payload[pos..][..nw] == payload[..pos + nw];
      more := more - nw;
      pos := pos + nw;
    }
    sent := true;
  }

  predicate NoneFails(limits: seq<int>) {
    forall i :: 0 <= i < |limits| ==> limits[i] >= 0
  }

  /** The write of the header, which must go out whole. */
  method SendHeader(out: Pipe, pkt: seq<Byte>, limit: int) returns (k: nat, sent: bool)
    requires |pkt| == CMDLEN
    modifies out
    ensures k <= CMDLEN && out.bytes == old(out.bytes) + pkt[..k] && (sent <==> k == CMDLEN)
    ensures limit >= CMDLEN ==> sent
  {
    var nw := out.Write(pkt, limit);
    if nw != CMDLEN { return if nw < 0 then 0 else nw, false; }
    return CMDLEN, true;
  }

  /** A proper prefix of `frame` has been written. */
  predicate CutShort(now: seq<Byte>, start: seq<Byte>, frame: seq<Byte>) {
    exists k :: 0 <= k < |frame| && now == start + frame[..k]
  }

  /** sendCmdMore with an explicit buffer.  `first` says how much the write of the header takes. */
  method SendCmdMore(out: Pipe, m: Message, pad: seq<Byte>, first: int, limits: seq<int>) returns (sent: bool)
    requires |pad| == 3 && Sendable(m)
    modifies out
    ensures sent ==> out.bytes == old(out.bytes) + Frame(m, pad)
    ensures !sent ==> CutShort(out.bytes, old(out.bytes), Frame(m, pad))
    ensures first >= CMDLEN && NoneFails(limits) ==> sent
  {
    ghost var start := out.bytes;
    var pkt := Header(m.cmd, Uint32(CMDLEN + |m.payload|), pad);
    var k;
    k, sent := SendHeader(out, pkt, first);
    HeaderSent(start, pkt, m.payload, k);
    if sent {
      k, sent := SendPayload(out, m.payload, limits);
      BodySent(start, pkt, m.payload, k);
    }
  }

  /** Part of a header on the stream, or the header and part of the payload. */
  lemma HeaderSent(start: seq<Byte>, pkt: seq<Byte>, body: seq<Byte>, k: nat)
    requires k <= |pkt|
    ensures k < |pkt| ==> CutShort(start + pkt[..k], start, pkt + body)
    ensures k == |pkt| ==> start + pkt[..k] == start + pkt
  {
    assert start + pkt[..k] == start + (pkt + body)[..k];
  }

  lemma BodySent(start: seq<Byte>, pkt: seq<Byte>, body: seq<Byte>, k: nat)
    requires k <= |body|
    ensures k < |body| ==> CutShort((start + pkt) + body[..k], start, pkt + body)
    ensures k == |body| ==> (start + pkt) + body[..k] == start + (pkt + body)
  {
    assert (start + pkt) + body[..k] == start + (pkt + body)[..|pkt| + k];
  }

  /** The loop of sendCmdMore around its callback; `limits(i)` is what the writes of piece i take. */
  method SendPieces(out: Pipe, pieces: seq<seq<Byte>>, limits: nat -> seq<int>) returns (pos: nat, sent: bool)
    modifies out
    ensures pos <= |Joined(pieces)| && out.bytes == old(out.bytes) + Joined(pieces)[..pos]
    ensures sent <==> pos == |Joined(pieces)|
    ensures (forall i: nat :: NoneFails(limits(i))) ==> sent
  {
    ghost var start, all := out.bytes, Joined(pieces);
    var i := 0;
    pos := 0;
    while i < |pieces| && pieces[i] != []
      invariant i <= |pieces| && pos <= |all| && Joined(pieces[i..]) == all[pos..]
      invariant out.bytes == start + all[..pos]
    {
      var k, ok := SendPayload(out, pieces[i], limits(i));
      PieceSent(start, all, pos, pieces, i, k);
      pos := pos + k;
      if !ok { return pos, false; }
      i := i + 1;
    }
    return pos, true;
  }

  lemma {:induction false} PieceSent(start: seq<Byte>, all: seq<Byte>, pos: nat, pieces: seq<seq<Byte>>, i: nat, k: nat)
    requires i < |pieces| && pieces[i] != [] && pos <= |all| && Joined(pieces[i..]) == all[pos..]
    requires k <= |pieces[i]|
    ensures pos + |pieces[i]| <= |all| && (start + all[..pos]) + pieces[i][..k] == start + all[..pos + k]
    ensures k == |pieces[i]| ==> Joined(pieces[i + 1..]) == all[pos + k..]
  {
    var piece, after := pieces[i], Joined(pieces[i + 1..]);
    assert pieces[i..][0] == piece && pieces[i..][1..] == pieces[i + 1..];
    PieceSplit(all, pos, piece, after, k);
    assert (start + all[..pos]) + piece[..k] == start + all[..pos + k];
  }

  lemma PieceSplit(all: seq<Byte>, pos: nat, piece: seq<Byte>, after: seq<Byte>, k: nat)
    requires pos <= |all| && all[pos..] == piece + after && k <= |piece|
    ensures pos + |piece| <= |all| && all[..pos] + piece[..k] == all[..pos + k]
    ensures all[pos + |piece|..] == after
  {
    PayloadAndRest(piece, after);
    assert all[pos..][..k] == piece[..k] && all[pos..][|piece|..] == after;
  }

  /** The header, and unless the declared length is 0 what the callback hands over. */
  method SendParts(out: Pipe, pkt: seq<Byte>, more: nat, pieces: seq<seq<Byte>>, first: int, limits: nat -> seq<int>)
    returns (sent: bool)
    requires |pkt| == CMDLEN
    modifies out
    ensures sent ==> out.bytes == old(out.bytes) + (pkt + CallbackBody(more, pieces))
    ensures !sent ==> CutShort(out.bytes, old(out.bytes), pkt + CallbackBody(more, pieces))
    ensures first >= CMDLEN && (forall i: nat :: NoneFails(limits(i))) ==> sent
  {
    ghost var start, body := out.bytes, CallbackBody(more, pieces);
    var k;
    k, sent := SendHeader(out, pkt, first);
    HeaderSent(start, pkt, body, k);
    if sent {
      if more == 0 {
        AppendNothing(pkt);
      } else {
        k, sent := SendPieces(out, pieces, limits);
        BodySent(start, pkt, body, k);
      }
    }
  }

  /** sendCmdMore with a callback, whose answers are `pieces`. */
  method SendFromCallback(out: Pipe, c: Cmd, more: nat, pad: seq<Byte>, pieces: seq<seq<Byte>>,
                          first: int, limits: nat -> seq<int>) returns (sent: bool)
    requires |pad| == 3 && more < INT_LIMIT
    modifies out
    ensures sent ==> out.bytes == old(out.bytes) + CallbackFrame(c, more, pad, pieces)
    ensures !sent ==> CutShort(out.bytes, old(out.bytes), CallbackFrame(c, more, pad, pieces))
    ensures first >= CMDLEN && (forall i: nat :: NoneFails(limits(i))) ==> sent
  {
    var len := Uint32(CMDLEN + more);
    assert len == CMDLEN + more;
    sent := SendParts(out, Header(c, len, pad), more, pieces, first, limits);
  }

  lemma MoveBytes(done: seq<Byte>, before: seq<Byte>, got: seq<Byte>, after: seq<Byte>)
    requires |got| <= |before| && got == before[..|got|] && after == before[|got|..]
    ensures (done + got) + after == done + before
  {
  }

  predicate AllPositive(limits: seq<nat>) {
    forall i :: 0 <= i < |limits| ==> limits[i] > 0
  }

  /** The payload loop of rcvCmd: read until `more` bytes are there or the stream has ended. */
  method RcvPayload(in_: Pipe, more: nat, limits: seq<nat>) returns (pmore: seq<Byte>)
    requires AllPositive(limits)
    modifies in_
    ensures |pmore| == Min(more, |old(in_.bytes)|)
    ensures pmore + in_.bytes == old(in_.bytes)
  {
    var left, call := more, 0;
    pmore := [];
    while left > 0
      invariant 0 <= left && |pmore| + left == more
      invariant pmore + in_.bytes == old(in_.bytes)
      decreases left
    {
      ghost var before := in_.bytes;
      var got := in_.Read(left, if call < |limits| then limits[call] else left);
      call := call + 1;
      MoveBytes(pmore, before, got, in_.bytes);
      pmore := pmore + got;
      if |got| == 0 { return; }
      left := left - |got|;
    }
  }

  /** rcvCmd up to its callback: None is the error return.  A header that arrives in one piece and
      any positive partial reads of the payload give exactly the message that was framed. */
  method RcvCmd(in_: Pipe, limits: seq<nat>) returns (r: Option<Message>)
    requires AllPositive(limits)
    modifies in_
    ensures match Parse(old(in_.bytes))
            case None => r == None
            case Some((m, rest)) => r == Some(m) && in_.bytes == rest
    ensures in_.bytes == old(in_.bytes)[Taken(old(in_.bytes))..]
  {
    var pkt := in_.Read(CMDLEN, CMDLEN);
    if |pkt| != CMDLEN { return None; }
    ghost var stream := pkt + in_.bytes;
    assert stream == old(in_.bytes) && stream[..CMDLEN] == pkt && stream[..4] == pkt[..4];
    if pkt[..4] != MAGIC { return None; }
    var more := Declared(pkt);
    if more < 0 { return None; }  // no buffer of that size can be had
    var pmore := RcvPayload(in_, more, limits);
    if |pmore| < more { return None; }
    assert pmore == stream[CMDLEN..][..more] == stream[CMDLEN..CMDLEN + more];
    assert in_.bytes == stream[CMDLEN..][more..] == stream[CMDLEN + more..];
    return Some(Message(HeaderCmd(pkt), pmore));
  }

  // ---------------------------------------------------------------- acknowledgements

  /** sendAck: the sequence number of the command comes back. */
  function AckFor(c: Cmd, val: Word): Message {
    Message(Cmd(c.seqno, CMD_ACK, val, 0), [])
  }

  /** recvAck on a packet that has arrived: its value, -1 if it is no ack or out of sequence. */
  function AckValue(pkt: Cmd, seqno: Word): int {
    if pkt.code != CMD_ACK then -1 else if pkt.seqno != seqno then -1 else Int32(pkt.aux0)
  }

  /** The caller's next sequence number, advanced whatever the packet was. */
  function NextSeq(seqno: Word): Word {
    Uint32(seqno + 1)
  }

  /** The replies of a peer that handles every command it parses with `handler`. */
  function Replies(ms: seq<Message>, handler: Message -> Word): seq<Message> {
    if ms == [] then [] else [AckFor(ms[0].cmd, handler(ms[0]))] + Replies(ms[1..], handler)
  }

  /** A session in lock step: the acknowledgements come back whole and in order, and the k-th is
      accepted for the k-th command with the value its handler returned. */
  lemma {:induction false} RepliesArrive(ms: seq<Message>, handler: Message -> Word, pads: seq<seq<Byte>>)
    requires |pads| == |ms| && forall i :: 0 <= i < |pads| ==> |pads[i]| == 3
    ensures |Replies(ms, handler)| == |ms|
    ensures ParseAll(Frames(Replies(ms, handler), pads)) == Some(Replies(ms, handler))
  {
    RepliesSendable(ms, handler);
    FramingRoundTrip(Replies(ms, handler), pads);
  }

  lemma {:induction false} SessionInStep(ms: seq<Message>, handler: Message -> Word, first: Word, k: nat)
    requires k < |ms| && ms[k].cmd.seqno == Uint32(first + k)
    ensures |Replies(ms, handler)| == |ms|
    ensures AckValue(Replies(ms, handler)[k].cmd, Uint32(first + k)) == Int32(handler(ms[k]))
    ensures NextSeq(Uint32(first + k)) == Uint32(first + k + 1)
  {
    RepliesAt(ms, handler, k);
    Uint32Absorbs(first + k, 1);
  }

  lemma {:induction false} RepliesAt(ms: seq<Message>, handler: Message -> Word, k: nat)
    requires k < |ms|
    ensures |Replies(ms, handler)| == |ms| && Replies(ms, handler)[k] == AckFor(ms[k].cmd, handler(ms[k]))
  {
    if |ms| > 1 {
      RepliesAt(ms[1..], handler, if k == 0 then 0 else k - 1);
    } else {
      assert ms[1..] == [];
    }
  }

  lemma {:induction false} RepliesSendable(ms: seq<Message>, handler: Message -> Word)
    ensures |Replies(ms, handler)| == |ms|
    ensures forall i :: 0 <= i < |ms| ==> Sendable(Replies(ms, handler)[i])
  {
    if ms != [] { RepliesSendable(ms[1..], handler); }
  }

  /** The fields of an acknowledgement, by their place on the stream. */
  lemma HeaderBytes(stream: seq<Byte>)
    requires |stream| >= CMDLEN
    ensures HeaderCmd(stream[..CMDLEN]) == Cmd(BytesWord(stream[8..12]), stream[12], BytesWord(stream[16..20]), BytesWord(stream[20..24]))
  {
    var h := stream[..CMDLEN];
    assert h[8..12] == stream[8..12] && h[16..20] == stream[16..20] && h[20..24] == stream[20..24];
  }

  /** Its value; -1 for anything that is no ack, or the ack of another command. */
  lemma AckRefused(pkt: Cmd, seqno: Word)
    ensures pkt.code != 12 || pkt.seqno != seqno ==> AckValue(pkt, seqno) == -1
    ensures pkt.code == 12 && pkt.seqno == seqno ==> AckValue(pkt, seqno) == Int32(pkt.aux0)
  {
  }

  // ---------------------------------------------------------------- whole exchanges

  /** The calling side: the sequence number it expects its next acknowledgement to carry. */
  class Caller {
    var seqno: Word

    constructor (seqno: Word)
      ensures this.seqno == seqno
    {
      this.seqno := seqno;
    }

    /** recvAck; `arrived` is what select answers.  A header that comes in short is consumed, and the
        sequence number advances whatever was read. */
    method RecvAck(in_: Pipe, arrived: bool) returns (val: int)
      modifies this, in_
      ensures !arrived ==> val == -1 && seqno == old(seqno) && in_.bytes == old(in_.bytes)
      ensures arrived ==> seqno == (old(seqno) + 1) % 0x1_0000_0000 && in_.bytes == old(in_.bytes)[Min(CMDLEN, |old(in_.bytes)|)..]
      ensures arrived && |old(in_.bytes)| < CMDLEN ==> val == -1
      ensures arrived && |old(in_.bytes)| >= CMDLEN ==>
                val == AckValue(HeaderCmd(old(in_.bytes)[..CMDLEN]), old(seqno))
      ensures arrived && |old(in_.bytes)| >= 24 ==>
                var b := old(in_.bytes);
                val == if b[12] == 12 && BytesWord(b[8..12]) == old(seqno) then Int32(BytesWord(b[16..20])) else -1
    {
      val := -1;
      if arrived {
        var pkt := in_.Read(CMDLEN, CMDLEN);
        if |pkt| == CMDLEN {
          var c := HeaderCmd(pkt);
          HeaderBytes(old(in_.bytes));
          if c.code == CMD_ACK {
            if seqno == c.seqno { val := Int32(c.aux0); }
          }
        }
        seqno := Uint32(seqno + 1);
      }
    }
  }

  /** rcvCmd with its callback: the command is handled and its acknowledgement sent. */
  method Serve(in_: Pipe, out: Pipe, handler: Message -> Word, pad: seq<Byte>, limits: seq<nat>) returns (r: Option<Message>)
    requires in_ != out && |pad| == 3 && AllPositive(limits)
    modifies in_, out
    ensures match Parse(old(in_.bytes))
            case None => r == None && out.bytes == old(out.bytes)
            case Some((m, rest)) =>
              && r == Some(m) && in_.bytes == rest
              && out.bytes == old(out.bytes) + Frame(Message(Cmd(m.cmd.seqno, 12, handler(m), 0), []), pad)
  {
    r := RcvCmd(in_, limits);
    if r.Some? {
      var sent := SendCmdMore(out, AckFor(r.value.cmd, handler(r.value)), pad, CMDLEN, []);
    }
  }

  /** One command and its acknowledgement, over channels that start and end empty. */
  method Exchange(caller: Caller, up: Pipe, down: Pipe, handler: Message -> Word, m: Message, pad: seq<Byte>,
                  writes: seq<int>, reads_: seq<nat>)
    returns (seen: Option<Message>, val: int)
    requires up != down && up.bytes == [] && down.bytes == []
    requires |pad| == 3 && Sendable(m) && m.cmd.seqno == caller.seqno
    requires NoneFails(writes) && AllPositive(reads_)
    modifies caller, up, down
    ensures up.bytes == [] && down.bytes == []
    ensures seen == Some(m) && val == Int32(handler(m)) && caller.seqno == NextSeq(old(caller.seqno))
  {
    var sent := SendCmdMore(up, m, pad, CMDLEN, writes);
    assert up.bytes == Frame(m, pad) + [];
    ParseFrame(m, pad, []);
    seen := Serve(up, down, handler, pad, reads_);
    AckOnTheWire(m, handler(m), pad, down.bytes);
    val := caller.RecvAck(down, true);
  }

  lemma AckOnTheWire(m: Message, val: Word, pad: seq<Byte>, stream: seq<Byte>)
    requires |pad| == 3 && stream == [] + Frame(AckFor(m.cmd, val), pad)
    ensures |stream| == CMDLEN && stream[CMDLEN..] == [] && HeaderCmd(stream[..CMDLEN]) == AckFor(m.cmd, val).cmd
  {
    var ack := AckFor(m.cmd, val);
    EmptyFrame(ack, pad);
    HeaderFields(ack.cmd, CMDLEN, pad);
    assert stream == Header(ack.cmd, CMDLEN, pad) && stream[..CMDLEN] == stream;
  }

  lemma EmptyFrame(m: Message, pad: seq<Byte>)
    requires |pad| == 3 && m.payload == []
    ensures Frame(m, pad) == Header(m.cmd, CMDLEN, pad)
  {
    assert Uint32(CMDLEN + |m.payload|) == CMDLEN;
    AppendNothing(Header(m.cmd, CMDLEN, pad));
  }

  lemma AppendNothing(h: seq<Byte>)
    ensures h + [] == h
  {
  }

  datatype Request = Request(code: Byte, aux0: Word, aux1: Word, payload: seq<Byte>)

  /** The commands as sent, numbered from `first` on. */
  function Numbered(requests: seq<Request>, first: Word): seq<Message> {
    seq(|requests|, i requires 0 <= i < |requests| =>
      Message(Cmd(Uint32(first + i), requests[i].code, requests[i].aux0, requests[i].aux1), requests[i].payload))
  }

  /** A whole conversation: however writes and reads are cut up, the callbacks see exactly the commands
      sent, with their payloads and in order, the caller gets each callback's answer, and both streams
      end on a frame boundary. */
  method Converse(caller: Caller, up: Pipe, down: Pipe, handler: Message -> Word, requests: seq<Request>, pad: seq<Byte>,
                  writes: nat -> seq<int>, reads_: nat -> seq<nat>)
    returns (seen: seq<Message>, vals: seq<int>)
    requires up != down && up.bytes == [] && down.bytes == [] && |pad| == 3
    requires forall i :: 0 <= i < |requests| ==> |requests[i].payload| < INT_LIMIT
    requires forall i: nat :: NoneFails(writes(i)) && AllPositive(reads_(i))
    modifies caller, up, down
    ensures up.bytes == [] && down.bytes == []
    ensures seen == Numbered(requests, old(caller.seqno))
    ensures |vals| == |requests| && forall i :: 0 <= i < |vals| ==> vals[i] == Int32(handler(seen[i]))
    ensures caller.seqno == Uint32(old(caller.seqno) + |requests|)
  {
    seen, vals := [], [];
    ghost var first := caller.seqno;
    for i := 0 to |requests|
      invariant up.bytes == [] && down.bytes == []
      invariant seen == Numbered(requests, first)[..i] && caller.seqno == Uint32(first + i)
      invariant |vals| == i && forall k :: 0 <= k < i ==> vals[k] == Int32(handler(seen[k]))
    {
      var q := requests[i];
      var m := Message(Cmd(caller.seqno, q.code, q.aux0, q.aux1), q.payload);
      var got, val := Exchange(caller, up, down, handler, m, pad, writes(i), reads_(i));
      seen, vals := seen + [got.value], vals + [val];
      Uint32Absorbs(first + i, 1);
    }
  }
}
