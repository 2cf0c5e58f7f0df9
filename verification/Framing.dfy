/** The wire format of the game protocol: a packed 12-byte little-endian header
    followed by header.len bytes of body, and what a byte stream means under it. */
module Framing {
  import opened Bits
  import opened Common
  import opened LittleEndian

  const PH_LEN: nat := 12
  const FLAG_COMPRESS: nat := 0x80
  const MAX_UZLIB_CHAR: nat := 400 * 1024

  type half = h: nat | h < 0x1_0000

  /* The header fields; unused keeps its 16 raw bits. */
  datatype Head = Head(len: word, cmd: half, cmdEx: half, flags: half, unused: half)

  datatype Packet = Packet(head: Head, body: seq<byte>)

  /* What the framer needs from elsewhere: the command table and zlib's uncompress, which yields
     nothing when it does not return Z_OK. */
  datatype Peer = Peer(known: half -> bool, inflate: seq<byte> -> Option<seq<byte>>)

  function DecodeHead(b: seq<byte>): Head
    requires |b| == PH_LEN
  {
    Head(WordOf(b[..4]), HalfOf(b[4..6]), HalfOf(b[6..8]), HalfOf(b[8..10]), HalfOf(b[10..12]))
  }

  function EncodeHead(h: Head): (b: seq<byte>)
    ensures |b| == PH_LEN
  {
    WordBytes(h.len) + HalfBytes(h.cmd) + HalfBytes(h.cmdEx) + HalfBytes(h.flags) + HalfBytes(h.unused)
  }

  lemma HeadRoundTrip(h: Head)
    ensures DecodeHead(EncodeHead(h)) == h
  {
    hide WordOf, HalfOf, WordBytes, HalfBytes;
    var b := EncodeHead(h);
    assert b[..4] == WordBytes(h.len);
    assert b[4..6] == HalfBytes(h.cmd);
    assert b[6..8] == HalfBytes(h.cmdEx);
    assert b[8..10] == HalfBytes(h.flags);
    assert b[10..12] == HalfBytes(h.unused);
  }

  /** Where the fields lie in the twelve bytes, whether written or read. */
  lemma HeadLayout(b: seq<byte>, h: Head)
    requires |b| == 12
    ensures b == EncodeHead(h) || h == DecodeHead(b) ==>
              && h.len == Number(b, 0, 4) && h.cmd == Number(b, 4, 2) && h.cmdEx == Number(b, 6, 2)
              && h.flags == Number(b, 8, 2) && h.unused == Number(b, 10, 2)
  {
    HeadRoundTrip(h);
    hide EncodeHead, WordOf, HalfOf, Number;
    if b == EncodeHead(h) || h == DecodeHead(b) {
      assert h == DecodeHead(b);
      WordNumber(b, 0);
      PairNumber(b, 4);
      PairNumber(b, 6);
      PairNumber(b, 8);
      PairNumber(b, 10);
      assert b[..4] == b[0..4];
    }
  }

  /* What is handed on for a complete packet: the body itself, or its inflation with the length
     rewritten when the compress flag is set. */
  function Deliver(peer: Peer, h: Head, body: seq<byte>): Option<Packet> {
    if And(h.flags, FLAG_COMPRESS) == 0 then Some(Packet(h, body))
    else
      match peer.inflate(body)
      case Some(out) => if |out| <= MAX_UZLIB_CHAR then Some(Packet(h.(len := |out|), out)) else None
      case None => None
  }

  /* The meaning of a stream: its packets in order, the incomplete packet left at the end, and
     whether an unknown command or an undecodable body stopped it. */
  datatype Parsed = Parsed(packets: seq<Packet>, rest: seq<byte>, failed: bool)

  const FAILURE: Parsed := Parsed([], [], true)

  function Prepend(packets: seq<Packet>, r: Parsed): Parsed {
    Parsed(packets + r.packets, r.rest, r.failed)
  }

  function Deframe(peer: Peer, s: seq<byte>): (r: Parsed)
    ensures if r.failed then r.rest == [] else Incomplete(peer, r.rest)
    decreases |s|
  {
    if |s| < PH_LEN then Parsed([], s, false)
    else
      var h := DecodeHead(s[..PH_LEN]);
      if !peer.known(h.cmd) then FAILURE
      else if |s| < PH_LEN + h.len then Parsed([], s, false)
      else
        match Deliver(peer, h, s[PH_LEN..PH_LEN + h.len])
        case None => FAILURE
        case Some(p) => Prepend([p], Deframe(peer, s[PH_LEN + h.len..]))
  }

  /* A proper prefix of a packet, whose command is known as soon as it is readable. */
  predicate Incomplete(peer: Peer, s: seq<byte>) {
    |s| >= PH_LEN ==>
      var h := DecodeHead(s[..PH_LEN]);
      peer.known(h.cmd) && |s| < PH_LEN + h.len
  }

  lemma DeframeIncomplete(peer: Peer, s: seq<byte>)
    requires Incomplete(peer, s)
    ensures Deframe(peer, s) == Parsed([], s, false)
  {
  }

  lemma DeframeUnknown(peer: Peer, head: seq<byte>, tail: seq<byte>)
    requires |head| == PH_LEN && !peer.known(DecodeHead(head).cmd)
    ensures Deframe(peer, head + tail) == FAILURE
  {
    assert (head + tail)[..PH_LEN] == head;
  }

  lemma DeframePacket(peer: Peer, head: seq<byte>, body: seq<byte>, tail: seq<byte>)
    requires |head| == PH_LEN && peer.known(DecodeHead(head).cmd) && |body| == DecodeHead(head).len
    ensures Deframe(peer, head + body + tail) ==
            match Deliver(peer, DecodeHead(head), body)
            case None => FAILURE
            case Some(p) => Prepend([p], Deframe(peer, tail))
  {
    var s := head + body + tail;
    assert s[..PH_LEN] == head && s[PH_LEN..PH_LEN + |body|] == body && s[PH_LEN + |body|..] == tail;
  }

  /** Cutting a stream in two: the second part is read with the first part's leftover in front. */
  lemma {:induction false} DeframeAppend(peer: Peer, s: seq<byte>, t: seq<byte>)
    ensures var r := Deframe(peer, s);
            Deframe(peer, s + t) == if r.failed then r else Prepend(r.packets, Deframe(peer, r.rest + t))
    decreases |s|
  {
    hide Deframe, Deliver, DecodeHead;
    PrependNothing(Deframe(peer, s + t));
    if Incomplete(peer, s) {
      DeframeIncomplete(peer, s);
    } else {
      var head := s[..PH_LEN];
      var h := DecodeHead(head);
      if !peer.known(h.cmd) {
        DeframeUnknown(peer, head, s[PH_LEN..]);
        DeframeUnknown(peer, head, s[PH_LEN..] + t);
        assert s == head + s[PH_LEN..] && s + t == head + (s[PH_LEN..] + t);
      } else {
        var body, tail := s[PH_LEN..PH_LEN + h.len], s[PH_LEN + h.len..];
        DeframePacket(peer, head, body, tail);
        DeframePacket(peer, head, body, tail + t);
        assert s == head + body + tail && s + t == head + body + (tail + t);
        DeframeAppend(peer, tail, t);
        var q := Deframe(peer, tail);
        if Deliver(peer, h, body).Some? && !q.failed {
          PrependTwice([Deliver(peer, h, body).value], q.packets, Deframe(peer, q.rest + t));
        }
      }
    }
  }

  lemma PrependNothing(r: Parsed)
    ensures Prepend([], r) == r
  {
    assert [] + r.packets == r.packets;
  }

  lemma PrependTwice(p: seq<Packet>, q: seq<Packet>, r: Parsed)
    ensures Prepend(p, Prepend(q, r)) == Prepend(p + q, r)
  {
    assert p + (q + r.packets) == (p + q) + r.packets;
  }

  // ----- Feeding a stream in chunks -----

  /* read_size_ counts the pending bytes on 32 bits: at 2^32 it restarts from zero, and what is
     pending from then on is that many bytes of the header. */
  function Wrapped(rest: seq<byte>): seq<byte> {
    if |rest| < U32 then rest else rest[..|rest| - U32]
  }

  /* One call of parse, started with the given bytes pending. */
  function Feed(peer: Peer, pending: seq<byte>, data: seq<byte>): Parsed {
    var r := Deframe(peer, pending + data);
    r.(rest := Wrapped(r.rest))
  }

  /* Successive calls, up to the first that fails. */
  function FeedAll(peer: Peer, pending: seq<byte>, chunks: seq<seq<byte>>): Parsed
    decreases |chunks|
  {
    if |chunks| == 0 then Parsed([], pending, false)
    else
      var r := Feed(peer, pending, chunks[0]);
      if r.failed then r else Prepend(r.packets, FeedAll(peer, r.rest, chunks[1..]))
  }

  /* Every packet met while reading s is at most 2^32 bytes long, header included. */
  predicate Sized(peer: Peer, s: seq<byte>)
    decreases |s|
  {
    |s| >= PH_LEN ==>
      var h := DecodeHead(s[..PH_LEN]);
      peer.known(h.cmd) ==>
        if |s| < PH_LEN + h.len then |s| < U32
        else
          && PH_LEN + h.len <= U32
          && (Deliver(peer, h, s[PH_LEN..PH_LEN + h.len]).Some? ==> Sized(peer, s[PH_LEN + h.len..]))
  }

  lemma SizedPacket(peer: Peer, head: seq<byte>, body: seq<byte>, tail: seq<byte>)
    requires |head| == PH_LEN && peer.known(DecodeHead(head).cmd) && |body| == DecodeHead(head).len
    ensures Sized(peer, head + body + tail) <==>
            PH_LEN + |body| <= U32 && (Deliver(peer, DecodeHead(head), body).Some? ==> Sized(peer, tail))
  {
    hide DecodeHead, Deliver;
    var s := head + body + tail;
    assert s[..PH_LEN] == head && s[PH_LEN..PH_LEN + |body|] == body && s[PH_LEN + |body|..] == tail;
  }

  lemma SizedIncomplete(peer: Peer, s: seq<byte>, t: seq<byte>)
    requires Incomplete(peer, s) && Sized(peer, s + t)
    ensures |s| < U32
  {
    hide DecodeHead, Deliver;
    if |s| >= PH_LEN {
      assert (s + t)[..PH_LEN] == s[..PH_LEN];
    }
  }

  lemma {:induction false} SizedPrefix(peer: Peer, s: seq<byte>, t: seq<byte>)
    requires Sized(peer, s + t)
    ensures var r := Deframe(peer, s); |r.rest| < U32 && (!r.failed ==> Sized(peer, r.rest + t))
    decreases |s|
  {
    hide Deframe, Sized, Deliver, DecodeHead;
    if Incomplete(peer, s) {
      DeframeIncomplete(peer, s);
      SizedIncomplete(peer, s, t);
    } else {
      var head := s[..PH_LEN];
      var h := DecodeHead(head);
      if !peer.known(h.cmd) {
        DeframeUnknown(peer, head, s[PH_LEN..]);
        assert s == head + s[PH_LEN..];
      } else {
        var body, tail := s[PH_LEN..PH_LEN + h.len], s[PH_LEN + h.len..];
        DeframePacket(peer, head, body, tail);
        SizedPacket(peer, head, body, tail + t);
        assert s == head + body + tail && s + t == head + body + (tail + t);
        if Deliver(peer, h, body).Some? {
          SizedPrefix(peer, tail, t);
        }
      }
    }
  }

  /** Chunking invariance: however a stream is split into calls, the packets delivered, the packet
      left pending and the failure, if any, are those of the whole stream. */
  lemma {:induction false} ChunkingInvariance(peer: Peer, pending: seq<byte>, chunks: seq<seq<byte>>)
    requires Incomplete(peer, pending) && Sized(peer, pending + Flatten(chunks))
    ensures FeedAll(peer, pending, chunks) == Deframe(peer, pending + Flatten(chunks))
    decreases |chunks|
  {
    if |chunks| == 0 {
      assert pending + [] == pending;
      DeframeIncomplete(peer, pending);
    } else {
      var s, t := pending + chunks[0], Flatten(chunks[1..]);
      assert pending + Flatten(chunks) == s + t;
      DeframeAppend(peer, s, t);
      SizedPrefix(peer, s, t);
      var r := Deframe(peer, s);
      if !r.failed {
        ChunkingInvariance(peer, r.rest, chunks[1..]);
      }
    }
  }

  predicate CallSized(chunks: seq<seq<byte>>) {
    forall c :: c in chunks ==> |c| < U32
  }

  /* No way of cutting s into calls changes the result. */
  ghost predicate Robust(peer: Peer, s: seq<byte>) {
    forall chunks: seq<seq<byte>> ::
      CallSized(chunks) && Flatten(chunks) == s ==> FeedAll(peer, [], chunks) == Deframe(peer, s)
  }

  lemma SizedRobust(peer: Peer, s: seq<byte>)
    requires Sized(peer, s)
    ensures Robust(peer, s)
  {
    hide Sized, Deframe, FeedAll;
    forall chunks: seq<seq<byte>> | CallSized(chunks) && Flatten(chunks) == s
      ensures FeedAll(peer, [], chunks) == Deframe(peer, s)
    {
      assert [] + Flatten(chunks) == s;
      ChunkingInvariance(peer, [], chunks);
    }
  }

  /** The limit is exact: a packet reads the same under every chunking if and only if header and body
      together take at most 2^32 bytes.  Above that, a call that ends when the 32-bit count of
      pending bytes has wrapped to zero makes the parser take the end of the body for a header. */
  lemma RobustIff(peer: Peer, h: Head, body: seq<byte>)
    requires peer.known(h.cmd) && |body| == h.len && Deliver(peer, h, body).Some?
    ensures Robust(peer, EncodeHead(h) + body) <==> PH_LEN + h.len <= U32
  {
    var head := EncodeHead(h);
    var s := head + body;
    HeadRoundTrip(h);
    DeframePacket(peer, head, body, []);
    assert s + [] == s && s[..PH_LEN] == head && s[PH_LEN..PH_LEN + h.len] == body && s[PH_LEN + h.len..] == [];
    assert |Deframe(peer, s).packets| == 1;
    if PH_LEN + h.len <= U32 {
      SizedRobust(peer, s);
    } else {
      WrapLosesPacket(peer, h, body);
    }
  }

  /** Nor does it matter how an incomplete packet is cut, as long as its bytes can be counted on 32 bits. */
  lemma IncompleteRobustIff(peer: Peer, s: seq<byte>)
    requires Incomplete(peer, s)
    ensures Robust(peer, s) <==> |s| < U32
  {
    hide Sized, FeedAll, Deframe, DecodeHead, Flatten, CallSized;
    if |s| < U32 {
      IncompleteSized(peer, s);
      SizedRobust(peer, s);
    } else {
      DeframeIncomplete(peer, s);
      IncompleteWraps(peer, s);
    }
  }

  lemma IncompleteWraps(peer: Peer, s: seq<byte>)
    requires Incomplete(peer, s) && |s| >= U32
    ensures exists chunks: seq<seq<byte>> :: CallSized(chunks) && Flatten(chunks) == s
              && FeedAll(peer, [], chunks) == Parsed([], s[U32..], false)
  {
    hide DecodeHead, FeedAll, Flatten;
    var head, b, c := s[..PH_LEN], s[PH_LEN..U32], s[U32..];
    WrapSteps(peer, head, b, c);
    FlattenThree(head, b, c);
    assert head + (b + c) == s;
    assert CallSized([head, b, c]);
  }

  lemma IncompleteSized(peer: Peer, s: seq<byte>)
    requires Incomplete(peer, s) && |s| < U32
    ensures Sized(peer, s)
  {
    hide DecodeHead;
  }

  lemma WrapLosesPacket(peer: Peer, h: Head, body: seq<byte>)
    requires peer.known(h.cmd) && |body| == h.len && PH_LEN + h.len > U32
    ensures exists chunks: seq<seq<byte>> :: CallSized(chunks) && Flatten(chunks) == EncodeHead(h) + body
              && FeedAll(peer, [], chunks).packets == []
  {
    var head := EncodeHead(h);
    HeadRoundTrip(h);
    var n := U32 - PH_LEN;
    var b, c := body[..n], body[n..];
    var chunks: seq<seq<byte>> := [head, b, c];
    FlattenThree(head, b, c);
    assert b + c == body;
    WrapSteps(peer, head, b, c);
  }

  lemma FlattenThree(a: seq<byte>, b: seq<byte>, c: seq<byte>)
    ensures Flatten([a, b, c]) == a + (b + c)
  {
    assert [a] + [b, c] == [a, b, c];
    FlattenAppend([a], [b, c]);
    FlattenOne(a);
    FlattenTwo(b, c);
  }

  /* A call that ends when the count has wrapped to zero leaves nothing pending. */
  lemma WrapTwice(peer: Peer, head: seq<byte>, b: seq<byte>)
    requires |head| == PH_LEN && peer.known(DecodeHead(head).cmd)
    requires PH_LEN + |b| == U32 && |b| < DecodeHead(head).len
    ensures FeedAll(peer, [], [head, b]) == Parsed([], [], false)
  {
    hide DecodeHead;
    assert [] + head == head && head[..PH_LEN] == head;
    DeframeIncomplete(peer, head);
    assert (head + b)[..PH_LEN] == head;
    DeframeIncomplete(peer, head + b);
    FeedOne(peer, head, b);
    assert [head, b][1..] == [b];
    PrependNothing(FeedAll(peer, head, [b]));
  }

  lemma FeedOne(peer: Peer, pending: seq<byte>, data: seq<byte>)
    requires !Feed(peer, pending, data).failed
    ensures FeedAll(peer, pending, [data]) == Feed(peer, pending, data)
  {
    hide Feed;
    assert [data][1..] == [];
    var r := Feed(peer, pending, data);
    assert r.packets + [] == r.packets;
  }

  lemma WrapSteps(peer: Peer, head: seq<byte>, b: seq<byte>, c: seq<byte>)
    requires |head| == PH_LEN && peer.known(DecodeHead(head).cmd)
    requires PH_LEN + |b| == U32 && |c| < PH_LEN && |b| < DecodeHead(head).len
    ensures FeedAll(peer, [], [head, b, c]) == Parsed([], c, false)
  {
    hide DecodeHead, FeedAll;
    WrapTwice(peer, head, b);
    assert [] + c == c;
    DeframeIncomplete(peer, c);
    FeedOne(peer, [], c);
    FeedAllAppend(peer, [], [head, b], [c]);
    PrependNothing(FeedAll(peer, [], [c]));
    assert [head, b] + [c] == [head, b, c];
  }

  /* Calls made in turn, up to the first that fails. */
  lemma {:induction false} FeedAllAppend(peer: Peer, pending: seq<byte>, chunks: seq<seq<byte>>, more: seq<seq<byte>>)
    ensures var r := FeedAll(peer, pending, chunks);
            FeedAll(peer, pending, chunks + more)
            == if r.failed then r else Prepend(r.packets, FeedAll(peer, r.rest, more))
    decreases |chunks|
  {
    hide Feed;
    if |chunks| == 0 {
      assert chunks + more == more;
      PrependNothing(FeedAll(peer, pending, more));
    } else {
      var r := Feed(peer, pending, chunks[0]);
      assert (chunks + more)[1..] == chunks[1..] + more;
      if !r.failed {
        FeedAllAppend(peer, r.rest, chunks[1..], more);
        var q := FeedAll(peer, r.rest, chunks[1..]);
        PrependTwice(r.packets, q.packets, FeedAll(peer, q.rest, more));
      }
    }
  }

  // ----- Sending -----

  /* A message as it is put on the wire. */
  datatype Frame = Frame(head: Head, payload: seq<byte>)

  predicate WellFramed(f: Frame) {
    f.head.len == |f.payload|
  }

  predicate Plain(f: Frame) {
    And(f.head.flags, FLAG_COMPRESS) == 0
  }

  /* A message without compression for a known command. */
  predicate Sendable(peer: Peer, f: Frame) {
    WellFramed(f) && Plain(f) && peer.known(f.head.cmd)
  }

  function Wire(f: Frame): seq<byte> {
    EncodeHead(f.head) + f.payload
  }

  function Stream(frames: seq<Frame>): seq<byte> {
    if |frames| == 0 then [] else Wire(frames[0]) + Stream(frames[1..])
  }

  predicate Deliverable(peer: Peer, f: Frame) {
    WellFramed(f) && peer.known(f.head.cmd) && Deliver(peer, f.head, f.payload).Some?
  }

  function Delivered(peer: Peer, frames: seq<Frame>): seq<Packet>
    requires forall i :: 0 <= i < |frames| ==> Deliverable(peer, frames[i])
  {
    if |frames| == 0 then []
    else
      assert Deliverable(peer, frames[0]);
      [Deliver(peer, frames[0].head, frames[0].payload).value] + Delivered(peer, frames[1..])
  }

  /** Parsing a concatenation of frames gives back exactly those frames, with nothing left over. */
  lemma {:induction false} FramesRoundTrip(peer: Peer, frames: seq<Frame>)
    requires forall i :: 0 <= i < |frames| ==> Deliverable(peer, frames[i])
    ensures Deframe(peer, Stream(frames)) == Parsed(Delivered(peer, frames), [], false)
  {
    if |frames| == 0 {
    } else {
      var f := frames[0];
      HeadRoundTrip(f.head);
      DeframePacket(peer, EncodeHead(f.head), f.payload, Stream(frames[1..]));
      FramesRoundTrip(peer, frames[1..]);
    }
  }

  lemma {:induction false} FramesSized(peer: Peer, frames: seq<Frame>)
    requires forall i :: 0 <= i < |frames| ==> Deliverable(peer, frames[i]) && PH_LEN + |frames[i].payload| <= U32
    ensures Sized(peer, Stream(frames))
  {
    if |frames| == 0 {
    } else {
      var f, s := frames[0], Stream(frames);
      HeadRoundTrip(f.head);
      assert s[..PH_LEN] == EncodeHead(f.head);
      assert s[PH_LEN..PH_LEN + f.head.len] == f.payload && s[PH_LEN + f.head.len..] == Stream(frames[1..]);
      FramesSized(peer, frames[1..]);
    }
  }

  /* The packets with the very contents of the frames. */
  function PlainPackets(frames: seq<Frame>): seq<Packet> {
    seq(|frames|, i requires 0 <= i < |frames| => Packet(frames[i].head, frames[i].payload))
  }

  /** Messages without compression arrive as sent, whatever chunks the network delivers them in. */
  lemma MessagesArrive(peer: Peer, frames: seq<Frame>, chunks: seq<seq<byte>>)
    requires forall i :: 0 <= i < |frames| ==> Sendable(peer, frames[i]) && PH_LEN + |frames[i].payload| <= U32
    requires Flatten(chunks) == Stream(frames)
    ensures FeedAll(peer, [], chunks) == Parsed(PlainPackets(frames), [], false)
  {
    FramesArrive(peer, frames, chunks);
    PlainDelivery(peer, frames);
  }

  lemma {:induction false} PlainDelivery(peer: Peer, frames: seq<Frame>)
    requires forall i :: 0 <= i < |frames| ==> Deliverable(peer, frames[i]) && Plain(frames[i])
    ensures Delivered(peer, frames) == PlainPackets(frames)
  {
    if |frames| == 0 {
    } else {
      PlainDelivery(peer, frames[1..]);
    }
  }

  /** The same for any mix of plain and compressed frames, as long as the compressed ones inflate. */
  lemma FramesArrive(peer: Peer, frames: seq<Frame>, chunks: seq<seq<byte>>)
    requires forall i :: 0 <= i < |frames| ==> Deliverable(peer, frames[i]) && PH_LEN + |frames[i].payload| <= U32
    requires Flatten(chunks) == Stream(frames)
    ensures FeedAll(peer, [], chunks) == Parsed(Delivered(peer, frames), [], false)
  {
    FramesSized(peer, frames);
    FramesRoundTrip(peer, frames);
    assert [] + Flatten(chunks) == Stream(frames);
    ChunkingInvariance(peer, [], chunks);
  }

  // ----- What becomes of one frame -----

  lemma CompressBit(flags: nat)
    ensures And(flags, FLAG_COMPRESS) == 0 <==> flags / 128 % 2 == 0
  {
    hide And;
    assert Pow2(7) == 128;
    AndBit(flags, 7);
  }

  /** What stands behind a frame with a known command, told without the framer's own functions: a frame whose
      bit 7 is clear is a packet as it stands; otherwise its body is inflated, at most 400 KiB, and all of the
      header is kept except the length, which becomes that of the inflated body; otherwise the stream fails. */
  lemma FrameReads(peer: Peer, f: Frame, tail: seq<byte>)
    requires f.head.len == |f.payload| && peer.known(f.head.cmd)
    ensures var r, q := Deframe(peer, EncodeHead(f.head) + f.payload + tail), Deframe(peer, tail);
            if f.head.flags / 128 % 2 == 0 then
              r == Parsed([Packet(f.head, f.payload)] + q.packets, q.rest, q.failed)
            else
              match peer.inflate(f.payload)
              case None => r == Parsed([], [], true)
              case Some(out) =>
                if |out| > 409600 then r == Parsed([], [], true)
                else
                  && |r.packets| == 1 + |q.packets| && r.packets[1..] == q.packets
                  && r.rest == q.rest && r.failed == q.failed
                  && var p := r.packets[0];
                     && p.body == out && p.head.len == |out|
                     && p.head.cmd == f.head.cmd && p.head.cmdEx == f.head.cmdEx
                     && p.head.flags == f.head.flags && p.head.unused == f.head.unused
  {
    hide And, EncodeHead, DecodeHead, Deframe;
    HeadRoundTrip(f.head);
    CompressBit(f.head.flags);
    DeframePacket(peer, EncodeHead(f.head), f.payload, tail);
  }

  /** Every packet has the length its header tells, whether it was inflated or not. */
  lemma {:induction false} LenIsSize(peer: Peer, s: seq<byte>)
    ensures forall p :: p in Deframe(peer, s).packets ==> p.head.len == |p.body|
    decreases |s|
  {
    hide Deframe, DecodeHead;
    if Incomplete(peer, s) {
      DeframeIncomplete(peer, s);
    } else {
      var head := s[..PH_LEN];
      var h := DecodeHead(head);
      if !peer.known(h.cmd) {
        DeframeUnknown(peer, head, s[PH_LEN..]);
        assert s == head + s[PH_LEN..];
      } else {
        var body, tail := s[PH_LEN..PH_LEN + h.len], s[PH_LEN + h.len..];
        DeframePacket(peer, head, body, tail);
        assert s == head + body + tail;
        LenIsSize(peer, tail);
      }
    }
  }

  /** Frames in front are packets in front, whatever follows them. */
  lemma {:induction false} FramesThen(peer: Peer, frames: seq<Frame>, s: seq<byte>)
    requires forall i :: 0 <= i < |frames| ==> Deliverable(peer, frames[i])
    ensures var q := Deframe(peer, s);
            Deframe(peer, Stream(frames) + s) == Parsed(Delivered(peer, frames) + q.packets, q.rest, q.failed)
  {
    hide Deframe, Delivered, Stream;
    FramesRoundTrip(peer, frames);
    DeframeAppend(peer, Stream(frames), s);
    assert [] + s == s;
  }

  /** A complete header with an unknown command stops the stream, whatever follows it. */
  lemma HeadStops(peer: Peer, h: Head, tail: seq<byte>)
    requires !peer.known(h.cmd)
    ensures Deframe(peer, EncodeHead(h) + tail) == Parsed([], [], true)
  {
    hide Deframe, EncodeHead, DecodeHead;
    HeadRoundTrip(h);
    DeframeUnknown(peer, EncodeHead(h), tail);
  }

  /** Any proper part of a frame with a known command is kept for later, and so is any part of a header. */
  lemma FrameWaits(peer: Peer, f: Frame, k: nat)
    requires f.head.len == |f.payload| && k < 12 + |f.payload| && (k < 12 || peer.known(f.head.cmd))
    ensures var part := (EncodeHead(f.head) + f.payload)[..k]; Deframe(peer, part) == Parsed([], part, false)
  {
    hide Deframe, EncodeHead, DecodeHead;
    HeadRoundTrip(f.head);
    var part := (EncodeHead(f.head) + f.payload)[..k];
    assert k >= 12 ==> part[..12] == EncodeHead(f.head);
    DeframeIncomplete(peer, part);
  }

  // ----- The limit for whole streams of plain messages -----

  /* The bytes that plain packets take in a stream. */
  function Size(packets: seq<Packet>): nat {
    if |packets| == 0 then 0 else PH_LEN + |packets[0].body| + Size(packets[1..])
  }

  lemma {:induction false} SizeAppend(a: seq<Packet>, b: seq<Packet>)
    ensures Size(a + b) == Size(a) + Size(b)
  {
    if |a| == 0 {
      assert a + b == b;
    } else {
      assert (a + b)[1..] == a[1..] + b;
      SizeAppend(a[1..], b);
    }
  }

  predicate AllPlain(packets: seq<Packet>) {
    forall i :: 0 <= i < |packets| ==> And(packets[i].head.flags, FLAG_COMPRESS) == 0
  }

  lemma AllPlainAppend(a: seq<Packet>, b: seq<Packet>)
    ensures AllPlain(a + b) <==> AllPlain(a) && AllPlain(b)
  {
    hide And;
    if AllPlain(a + b) {
      forall i | 0 <= i < |a| ensures And(a[i].head.flags, FLAG_COMPRESS) == 0 { assert (a + b)[i] == a[i]; }
      forall i | 0 <= i < |b| ensures And(b[i].head.flags, FLAG_COMPRESS) == 0 { assert (a + b)[|a| + i] == b[i]; }
    }
  }

  /* A packet that comes out plain came in plain. */
  lemma DeliverPlain(peer: Peer, h: Head, body: seq<byte>)
    requires Deliver(peer, h, body).Some? && AllPlain([Deliver(peer, h, body).value])
    ensures Deliver(peer, h, body).value == Packet(h, body)
  {
    hide And;
    assert And([Deliver(peer, h, body).value][0].head.flags, FLAG_COMPRESS) == 0;
  }

  /* Plain packets do not take more bytes than there were. */
  lemma {:induction false} DeframeSize(peer: Peer, s: seq<byte>)
    requires AllPlain(Deframe(peer, s).packets)
    ensures Size(Deframe(peer, s).packets) + |Deframe(peer, s).rest| <= |s|
    decreases |s|
  {
    hide Deframe, Deliver, DecodeHead, AllPlain;
    if Incomplete(peer, s) {
      DeframeIncomplete(peer, s);
    } else {
      var head := s[..PH_LEN];
      var h := DecodeHead(head);
      if !peer.known(h.cmd) {
        DeframeUnknown(peer, head, s[PH_LEN..]);
        assert s == head + s[PH_LEN..];
      } else {
        var body, tail := s[PH_LEN..PH_LEN + h.len], s[PH_LEN + h.len..];
        DeframePacket(peer, head, body, tail);
        assert s == head + body + tail;
        if Deliver(peer, h, body).Some? {
          var p, q := Deliver(peer, h, body).value, Deframe(peer, tail);
          AllPlainAppend([p], q.packets);
          DeliverPlain(peer, h, body);
          DeframeSize(peer, tail);
          assert ([p] + q.packets)[1..] == q.packets;
        }
      }
    }
  }

  lemma {:induction false} FeedAllSize(peer: Peer, pending: seq<byte>, chunks: seq<seq<byte>>)
    requires AllPlain(FeedAll(peer, pending, chunks).packets)
    ensures Size(FeedAll(peer, pending, chunks).packets) <= |pending| + |Flatten(chunks)|
    decreases |chunks|
  {
    hide Deframe, AllPlain;
    if |chunks| == 0 {
    } else {
      var r, q := Feed(peer, pending, chunks[0]), FeedAll(peer, Feed(peer, pending, chunks[0]).rest, chunks[1..]);
      if r.failed {
        DeframeSize(peer, pending + chunks[0]);
      } else {
        AllPlainAppend(r.packets, q.packets);
        DeframeSize(peer, pending + chunks[0]);
        FeedAllSize(peer, r.rest, chunks[1..]);
        SizeAppend(r.packets, q.packets);
      }
    }
  }

  lemma {:induction false} DeliveredSize(peer: Peer, frames: seq<Frame>)
    requires forall i :: 0 <= i < |frames| ==> Sendable(peer, frames[i])
    ensures forall i :: 0 <= i < |frames| ==> Deliverable(peer, frames[i])
    ensures AllPlain(Delivered(peer, frames)) && Size(Delivered(peer, frames)) == |Stream(frames)|
  {
    if |frames| == 0 {
    } else {
      DeliveredSize(peer, frames[1..]);
      hide And;
      assert Deliverable(peer, frames[0]) by { SendableDelivers(peer, frames[0]); }
      forall i | 0 <= i < |frames| ensures Deliverable(peer, frames[i]) {
        SendableDelivers(peer, frames[i]);
      }
      SendableDelivers(peer, frames[0]);
      var p, more := Packet(frames[0].head, frames[0].payload), Delivered(peer, frames[1..]);
      assert Delivered(peer, frames) == [p] + more && ([p] + more)[1..] == more;
      AllPlainAppend([p], more);
    }
  }

  lemma SendableDelivers(peer: Peer, f: Frame)
    requires Sendable(peer, f)
    ensures Deliverable(peer, f) && Deliver(peer, f.head, f.payload) == Some(Packet(f.head, f.payload))
    ensures AllPlain([Packet(f.head, f.payload)])
  {
    hide And;
  }

  /* Header and body of each frame in a call of their own. */
  function FrameChunks(frames: seq<Frame>): seq<seq<byte>> {
    if |frames| == 0 then [] else [EncodeHead(frames[0].head), frames[0].payload] + FrameChunks(frames[1..])
  }

  lemma {:induction false} FrameChunksFlat(peer: Peer, frames: seq<Frame>)
    requires forall i :: 0 <= i < |frames| ==> WellFramed(frames[i])
    ensures Flatten(FrameChunks(frames)) == Stream(frames) && CallSized(FrameChunks(frames))
  {
    if |frames| == 0 {
    } else {
      var f := frames[0];
      FrameChunksFlat(peer, frames[1..]);
      FlattenAppend([EncodeHead(f.head), f.payload], FrameChunks(frames[1..]));
      FlattenTwo(EncodeHead(f.head), f.payload);
    }
  }

  /* Fewer bytes than the frames have cannot bring all of their packets. */
  lemma TooShort(peer: Peer, frames: seq<Frame>, chunks: seq<seq<byte>>)
    requires forall i :: 0 <= i < |frames| ==> Sendable(peer, frames[i])
    requires |Flatten(chunks)| < |Stream(frames)|
    ensures forall i :: 0 <= i < |frames| ==> Deliverable(peer, frames[i])
    ensures FeedAll(peer, [], chunks).packets != Delivered(peer, frames)
  {
    hide And, Delivered, FeedAll, AllPlain, Size, Stream, Flatten, Deliverable;
    DeliveredSize(peer, frames);
    if FeedAll(peer, [], chunks).packets == Delivered(peer, frames) {
      FeedAllSize(peer, [], chunks);
      assert false;
    }
  }

  /* If the first frame is too long, one split loses it, and what is left is too short to make up for it. */
  lemma FirstLost(peer: Peer, frames: seq<Frame>) returns (chunks: seq<seq<byte>>)
    requires |frames| > 0 && forall i :: 0 <= i < |frames| ==> Sendable(peer, frames[i])
    requires PH_LEN + |frames[0].payload| > U32
    ensures CallSized(chunks) && Flatten(chunks) == Stream(frames)
    ensures forall i :: 0 <= i < |frames| ==> Deliverable(peer, frames[i])
    ensures FeedAll(peer, [], chunks).packets != Delivered(peer, frames)
  {
    hide And, DecodeHead, Deliver, Delivered, FeedAll, Flatten, FrameChunks;
    var f, head, n := frames[0], EncodeHead(frames[0].head), U32 - PH_LEN;
    var b, c, tail := f.payload[..n], f.payload[n..], FrameChunks(frames[1..]);
    HeadRoundTrip(f.head);
    WrapTwice(peer, head, b);
    FeedAllAppend(peer, [], [head, b], [c] + tail);
    PrependNothing(FeedAll(peer, [], [c] + tail));
    FrameChunksFlat(peer, frames[1..]);
    FlattenTwo(head, b);
    FlattenOne(c);
    FlattenAppend([c], tail);
    FlattenAppend([head, b], [c] + tail);
    assert b + c == f.payload;
    WireParts(f, b, c, Stream(frames[1..]));
    chunks := [head, b] + ([c] + tail);
    hide Stream;
    TooShort(peer, frames, [c] + tail);
  }

  lemma WireParts(f: Frame, b: seq<byte>, c: seq<byte>, rest: seq<byte>)
    requires f.payload == b + c
    ensures Wire(f) + rest == EncodeHead(f.head) + b + (c + rest)
  {
  }

  lemma {:induction false} SomeLost(peer: Peer, frames: seq<Frame>) returns (chunks: seq<seq<byte>>)
    requires forall i :: 0 <= i < |frames| ==> Sendable(peer, frames[i])
    requires exists i :: 0 <= i < |frames| && PH_LEN + |frames[i].payload| > U32
    ensures CallSized(chunks) && Flatten(chunks) == Stream(frames)
    ensures forall i :: 0 <= i < |frames| ==> Deliverable(peer, frames[i])
    ensures FeedAll(peer, [], chunks).packets != Delivered(peer, frames)
    decreases |frames|
  {
    if PH_LEN + |frames[0].payload| > U32 {
      chunks := FirstLost(peer, frames);
    } else {
      hide And, Deliver, FeedAll;
      var f, first := frames[0], [EncodeHead(frames[0].head), frames[0].payload];
      var i :| 0 <= i < |frames| && PH_LEN + |frames[i].payload| > U32;
      assert frames[1..][i - 1] == frames[i];
      var more := SomeLost(peer, frames[1..]);
      chunks := first + more;
      FlattenAppend(first, more);
      FlattenTwo(first[0], first[1]);
      DeliveredSize(peer, frames);
      FirstArrives(peer, f);
      FeedAllAppend(peer, [], first, more);
      assert Delivered(peer, frames)[1..] == Delivered(peer, frames[1..]);
      var p, q := Packet(f.head, f.payload), FeedAll(peer, [], more).packets;
      assert ([p] + q)[1..] == q;
    }
  }

  lemma FirstArrives(peer: Peer, f: Frame)
    requires Sendable(peer, f) && PH_LEN + |f.payload| <= U32
    ensures FeedAll(peer, [], [EncodeHead(f.head), f.payload])
            == Parsed([Packet(f.head, f.payload)], [], false)
  {
    hide And, FeedAll, Deliver;
    var chunks := [EncodeHead(f.head), f.payload];
    FlattenTwo(EncodeHead(f.head), f.payload);
    SendableDelivers(peer, f);
    assert [f][1..] == [] && Stream([f]) == Wire(f) + [] == Wire(f);
    FramesArrive(peer, [f], chunks);
    assert Delivered(peer, [f]) == [Packet(f.head, f.payload)] + [];
  }

  /** The limit is exact for whole streams: messages without compression arrive alike under every chunking if
      and only if each of them takes at most 2^32 bytes. */
  lemma StreamRobustIff(peer: Peer, frames: seq<Frame>)
    requires forall i :: 0 <= i < |frames| ==> Sendable(peer, frames[i])
    ensures Robust(peer, Stream(frames)) <==>
            forall i :: 0 <= i < |frames| ==> PH_LEN + |frames[i].payload| <= U32
  {
    hide And, Deliver, FeedAll, Sized, Deframe, Stream, Delivered;
    DeliveredSize(peer, frames);
    FramesRoundTrip(peer, frames);
    if i :| 0 <= i < |frames| && PH_LEN + |frames[i].payload| > U32 {
      var chunks := SomeLost(peer, frames);
      assert FeedAll(peer, [], chunks) != Deframe(peer, Stream(frames));
    } else {
      FramesSized(peer, frames);
      SizedRobust(peer, Stream(frames));
    }
  }

  // ----- What reaches the message handler -----

  /* The socket hands on the packets of a call that succeeded, and drops those of the call that failed. */
  function Dispatched(peer: Peer, pending: seq<byte>, chunks: seq<seq<byte>>): seq<Packet>
    decreases |chunks|
  {
    if |chunks| == 0 then []
    else
      var r := Feed(peer, pending, chunks[0]);
      if r.failed then [] else r.packets + Dispatched(peer, r.rest, chunks[1..])
  }

  /* The packets completed by the call that failed, before it failed. */
  function Dropped(peer: Peer, pending: seq<byte>, chunks: seq<seq<byte>>): seq<Packet>
    decreases |chunks|
  {
    if |chunks| == 0 then []
    else
      var r := Feed(peer, pending, chunks[0]);
      if r.failed then r.packets else Dropped(peer, r.rest, chunks[1..])
  }

  /** What is dispatched is what the stream contains, less what the failing call had completed. */
  lemma {:induction false} DispatchedAndDropped(peer: Peer, pending: seq<byte>, chunks: seq<seq<byte>>)
    requires Incomplete(peer, pending) && Sized(peer, pending + Flatten(chunks))
    ensures Dispatched(peer, pending, chunks) + Dropped(peer, pending, chunks)
            == Deframe(peer, pending + Flatten(chunks)).packets
    ensures !Deframe(peer, pending + Flatten(chunks)).failed ==> Dropped(peer, pending, chunks) == []
  {
    ChunkingInvariance(peer, pending, chunks);
    DispatchedSplit(peer, pending, chunks);
  }

  lemma {:induction false} DispatchedSplit(peer: Peer, pending: seq<byte>, chunks: seq<seq<byte>>)
    ensures Dispatched(peer, pending, chunks) + Dropped(peer, pending, chunks) == FeedAll(peer, pending, chunks).packets
    ensures !FeedAll(peer, pending, chunks).failed ==> Dropped(peer, pending, chunks) == []
    decreases |chunks|
  {
    if |chunks| == 0 {
    } else {
      var r := Feed(peer, pending, chunks[0]);
      if !r.failed {
        DispatchedSplit(peer, r.rest, chunks[1..]);
      }
    }
  }

  /** Dispatch is the same under every chunking if and only if the stream does not fail, or fails before its
      first packet: a stream that fails later loses every packet when it comes in one call. */
  lemma DispatchRobustIff(peer: Peer, s: seq<byte>)
    requires Sized(peer, s) && |s| < U32
    ensures (forall chunks: seq<seq<byte>> :: CallSized(chunks) && Flatten(chunks) == s ==>
                Dispatched(peer, [], chunks) == Deframe(peer, s).packets)
            <==> !Deframe(peer, s).failed || Deframe(peer, s).packets == []
  {
    hide Sized, Deframe, Dispatched, Dropped;
    var all := Deframe(peer, s);
    if all.failed && all.packets != [] {
      OneCall(peer, s);
      assert CallSized([s]) && Flatten([s]) == s;
    } else {
      forall chunks: seq<seq<byte>> | CallSized(chunks) && Flatten(chunks) == s
        ensures Dispatched(peer, [], chunks) == all.packets
      {
        assert [] + Flatten(chunks) == s;
        DispatchedAndDropped(peer, [], chunks);
        assert Dispatched(peer, [], chunks) + [] == Dispatched(peer, [], chunks);
      }
    }
  }

  /* All or nothing: what one call dispatches of a stream. */
  lemma OneCall(peer: Peer, s: seq<byte>)
    ensures Flatten([s]) == s
    ensures Dispatched(peer, [], [s]) == if Deframe(peer, s).failed then [] else Deframe(peer, s).packets
  {
    hide Deframe;
    assert [] + s == s && s + [] == s;
    assert Dispatched(peer, [], [s]) == if Deframe(peer, s).failed then [] else Deframe(peer, s).packets + [];
  }

  /** Dispatch, unlike parsing, depends on the chunking once a stream fails: a good message followed by a
      header with an unknown command is handled when they come in two chunks and lost when in one. */
  lemma DispatchDependsOnChunking(peer: Peer, f: Frame, bad: seq<byte>)
    requires Deliverable(peer, f) && PH_LEN + |f.payload| <= U32
    requires |bad| == PH_LEN && !peer.known(DecodeHead(bad).cmd)
    ensures |Dispatched(peer, [], [Wire(f), bad])| == 1 && Dispatched(peer, [], [Wire(f) + bad]) == []
  {
    HeadRoundTrip(f.head);
    DeframePacket(peer, EncodeHead(f.head), f.payload, []);
    DeframePacket(peer, EncodeHead(f.head), f.payload, bad);
    DeframeUnknown(peer, bad, []);
    assert bad + [] == bad && [] + bad == bad && Wire(f) + [] == Wire(f) && [] + Wire(f) == Wire(f);
    assert [] + (Wire(f) + bad) == Wire(f) + bad;
    assert [Wire(f), bad][1..] == [bad];
    var r := Feed(peer, [], Wire(f));
    assert !r.failed && |r.packets| == 1 && r.rest == [];
    assert Feed(peer, [], bad).failed && Feed(peer, [], Wire(f) + bad).failed;
    assert Dispatched(peer, [], [bad]) == [];
  }
}
