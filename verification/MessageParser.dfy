/** The resumable packet parser of a connection: a header assembled in place byte by byte,
    a body buffer allocated per packet, and the list of packets completed so far. */
module MessageParsing {
  import opened Bits
  import opened Common
  import opened LittleEndian
  import opened Framing

  class MsgBuf {
    var data: array<byte>

    constructor (size: nat)
      ensures fresh(data) && data.Length == size
    {
      data := new byte[size];
    }

    method Reset(content: seq<byte>)
      modifies this
      ensures fresh(data) && data[..] == content
    {
      data := new byte[|content|](i requires 0 <= i < |content| => content[i]);
    }
  }

  /* A completed packet; the body buffer is shared, not copied. */
  datatype Message = Message(head: Head, body: MsgBuf)

  /* How half an iteration of parse ended: out of data, rejected, or complete. */
  datatype Outcome = More | Bad | Got

  ghost function Contents(ms: seq<Message>): (ps: seq<Packet>)
    reads set m <- ms :: m.body, set m <- ms :: m.body.data
    ensures |ps| == |ms|
  {
    if |ms| == 0 then []
    else
      var m := ms[|ms| - 1];
      Contents(ms[..|ms| - 1]) + [Packet(m.head, m.body.data[..])]
  }

  lemma {:induction false} ContentsAt(ms: seq<Message>, i: nat)
    requires i < |ms|
    ensures Contents(ms)[i] == Packet(ms[i].head, ms[i].body.data[..])
  {
    if i == |ms| - 1 {
    } else {
      ContentsAt(ms[..|ms| - 1], i);
    }
  }

  class MessageParser {
    const peer: Peer
    var packs: seq<Message>
    var readSize: word
    const head: array<byte>
    var body: MsgBuf?

    ghost var failed: bool  // a call has returned -1; the connection is closed then

    ghost predicate Valid()
      reads this, head, body, if body != null then {body.data} else {}
      reads set m <- packs :: m.body
      ensures Valid() && !failed ==> Steady()
    {
      Separate() && (!failed ==> Steady() && Incomplete(peer, Pending()))
    }

    ghost predicate Separate()
      reads this`packs, set m <- packs :: m.body
    {
      head.Length == PH_LEN && (forall m <- packs :: m.body.data != head)
    }

    /* No failure yet, and once the header is complete there is a buffer of the announced size for
       the body, which belongs to no delivered message. */
    ghost predicate Steady()
      reads this, head, body, set m <- packs :: m.body
      ensures Steady() ==> Separate() && !failed && (readSize >= PH_LEN ==> body != null)
    {
      && Separate() && !failed
      && (readSize >= PH_LEN ==>
            && body != null && body.data != head
            && body.data.Length == Len() && readSize - PH_LEN <= Len()
            && (forall m <- packs :: m.body != body && m.body.data != body.data))
    }

    function Len(): word
      requires head.Length == PH_LEN
      reads head
    {
      WordOf(head[..4])
    }

    /* The bytes of the packet being assembled. */
    ghost function Pending(): (p: seq<byte>)
      requires Steady()
      reads this, head, body, if body != null then {body.data} else {}
      reads set m <- packs :: m.body
      ensures |p| == readSize
    {
      if readSize < PH_LEN then head[..readSize] else head[..] + body.data[..readSize - PH_LEN]
    }

    /* The objects that parse may write to: the parser, its header, and the buffer of an unfinished body. */
    ghost function Writes(): set<object>
      reads this, body
    {
      {this as object, head}
      + (if readSize >= PH_LEN && body != null then {body as MsgBuf as object, body.data} else {})
    }

    /* The packets completed so far, by content. */
    ghost function Packets(): (ps: seq<Packet>)
      reads this`packs, set m <- packs :: m.body, set m <- packs :: m.body.data
      ensures |ps| == |packs|
    {
      Contents(packs)
    }

    constructor (peer: Peer)
      ensures Valid() && !failed && packs == [] && Pending() == []
      ensures this.peer == peer && fresh(Writes())
    {
      this.peer := peer;
      packs, readSize, body := [], 0, null;
      head := new byte[PH_LEN](_ => 0);
      failed := false;
    }

    predicate IsHeadRead()
      reads this
    {
      readSize >= PH_LEN
    }

    /* The subtraction is on 32 bits. */
    predicate IsBodyRead()
      requires head.Length == PH_LEN
      reads this, head
    {
      Len() == (readSize - PH_LEN) % U32
    }

    method ReadHead(data: seq<byte>) returns (app: nat)
      requires head.Length == PH_LEN && readSize < PH_LEN
      modifies this`readSize, head
      ensures app == if |data| < PH_LEN - old(readSize) then |data| else PH_LEN - old(readSize)
      ensures readSize == old(readSize) + app <= PH_LEN
      ensures head[..readSize] == old(head[..readSize]) + data[..app]
    {
      app := PH_LEN - readSize;
      if app > |data| {
        app := |data|;
      }
      forall k | 0 <= k < app { head[readSize + k] := data[k]; }
      readSize := readSize + app;
    }

    /* Both additions and the subtraction are on 32 bits. */
    method ReadBody(data: seq<byte>) returns (app: nat)
      requires Steady() && readSize >= PH_LEN
      modifies this`readSize, body.data
      ensures var got := old(readSize) - PH_LEN;
              && app == (if |data| < Len() - got then |data| else Len() - got)
              && readSize == (old(readSize) + app) % U32
              && body.data[..got + app] == old(body.data[..got]) + data[..app]
    {
      app := (Len() + PH_LEN - readSize) % U32;
      if app > |data| {
        app := |data|;
      }
      var cursor := readSize - PH_LEN;
      forall k | 0 <= k < app { body.data[cursor + k] := data[k]; }
      readSize := (readSize + app) % U32;
    }

    /* What parse does when the last byte of a body has arrived. */
    method Complete() returns (ok: bool)
      requires Separate()
      requires body != null && body.data != head && body.data.Length == Len()
      requires forall m <- packs :: m.body != body && m.body.data != body.data
      modifies this`packs, this`readSize, head, body
      ensures ok <==> old(Deliver(peer, DecodeHead(head[..]), body.data[..])).Some?
      ensures ok ==> readSize == 0 && |packs| == |old(packs)| + 1 && packs[..|old(packs)|] == old(packs)
      ensures ok ==> Packets() == old(Packets()) + [old(Deliver(peer, DecodeHead(head[..]), body.data[..])).value]
      ensures !ok ==> packs == old(packs) && Packets() == old(Packets())
      ensures Separate()
      ensures var h, data := old(DecodeHead(head[..])), old(body.data[..]);
              if h.flags / 128 % 2 == 0 then
                ok && var m := packs[|packs| - 1]; m.head == h && m.body.data[..] == data
              else
                match peer.inflate(data)
                case None => !ok
                case Some(out) =>
                  && ok == (|out| <= 409600)
                  && (ok ==> var m := packs[|packs| - 1]; m.head == h.(len := |out|) && m.body.data[..] == out)
    {
      var h := DecodeHead(head[..]);
      CompressBit(h.flags);
      hide And;
      if And(h.flags, FLAG_COMPRESS) == 0 {
        packs := packs + [Message(h, body)];
      } else {
        var out := peer.inflate(body.data[..]);
        if out == None || |out.value| > MAX_UZLIB_CHAR {
          return false;
        }
        WriteLen(|out.value|);
        body.Reset(out.value);
        packs := packs + [Message(DecodeHead(head[..]), body)];
      }
      readSize := 0;
      ok := true;
    }

    /* head_.len = len */
    method WriteLen(len: word)
      requires head.Length == PH_LEN
      modifies head
      ensures DecodeHead(head[..]) == old(DecodeHead(head[..])).(len := len)
    {
      var b := WordBytes(len);
      ghost var was := head[..];
      head[0], head[1], head[2], head[3] := b[0], b[1], b[2], b[3];
      assert head[..][..4] == b && head[..][4..] == was[4..];
      assert head[..][4..6] == was[4..6] && head[..][6..8] == was[6..8];
      assert head[..][8..10] == was[8..10] && head[..][10..12] == was[10..12];
    }

    /* The first half of an iteration of parse: complete the header, look the command up, and
       allocate the body. */
    method TakeHead(data: seq<byte>) returns (app: nat, outcome: Outcome)
      requires Steady() && readSize < PH_LEN && |data| > 0
      modifies this`readSize, this`body, head
      ensures 0 < app <= |data| && packs == old(packs) && Packets() == old(Packets())
      ensures outcome == Bad ==> Separate() && Deframe(peer, old(Pending()) + data) == FAILURE
      ensures outcome != Bad ==> Steady() && Pending() == old(Pending()) + data[..app]
      ensures outcome == More ==> readSize < PH_LEN && app == |data|
      ensures outcome == Got ==> readSize == PH_LEN && fresh(body) && fresh(body.data)
      ensures outcome == Got ==> peer.known(DecodeHead(head[..]).cmd)
    {
      hide Deframe;
      ghost var was := Pending();
      app := ReadHead(data);
      assert head[..readSize] == was + data[..app];
      if IsHeadRead() {
        assert head[..readSize] == head[..];
        if !peer.known(DecodeHead(head[..]).cmd) {
          DeframeUnknown(peer, head[..], data[app..]);
          Regroup(was, data, app);
          return app, Bad;
        }
        body := new MsgBuf(Len());
        assert Pending() == head[..] + [];
        outcome := Got;
      } else {
        outcome := More;
      }
    }

    /* The second half: fill the body and, when it is complete, deliver the packet. */
    method TakeBody(data: seq<byte>) returns (app: nat, outcome: Outcome)
      requires Steady() && readSize >= PH_LEN && peer.known(DecodeHead(head[..]).cmd)
      modifies this`packs, this`readSize, head, body, body.data
      ensures app <= |data| && (app > 0 || |data| == 0 || old(readSize) == PH_LEN + old(Len()))
      ensures body == old(body)
      ensures |old(packs)| <= |packs| && packs[..|old(packs)|] == old(packs)
      ensures var s := old(Pending()) + data;
              match outcome
              case Bad => Separate() && Packets() == old(Packets()) && Deframe(peer, s) == FAILURE
              case More =>
                && Steady() && packs == old(packs) && Packets() == old(Packets()) && body.data == old(body.data)
                && app == |data| && Incomplete(peer, s) && Pending() == Wrapped(s)
              case Got =>
                && Steady() && readSize == 0 && |packs| > |old(packs)|
                && var ps := Packets()[|old(packs)|..];
                   && |ps| == 1 && Packets() == old(Packets()) + ps
                   && Deframe(peer, s) == Prepend(ps, Deframe(peer, data[app..]))
    {
      hide Deframe, Deliver, Wrapped, Incomplete, DecodeHead, Contents;
      ghost var was := Pending();
      app := ReadBody(data);
      ghost var got := |was| - PH_LEN + app;
      LenIsHeadLen();
      assert was + data[..app] == head[..] + body.data[..got];
      CountWraps(got, Len());
      if IsBodyRead() {
        assert body.data[..got] == body.data[..];
        assert was + data == head[..] + body.data[..] + data[app..];
        DeframePacket(peer, head[..], body.data[..], data[app..]);
        var ok := Complete();
        outcome := if ok then Got else Bad;
      } else {
        BodyPending(was + data, got);
        outcome := More;
      }
    }

    lemma LenIsHeadLen()
      requires head.Length == PH_LEN
      ensures DecodeHead(head[..]).len == Len()
    {
      assert head[..][..4] == head[..4];
    }

    lemma BodyPending(s: seq<byte>, got: nat)
      requires Separate() && !failed && body != null && body.data != head && body.data.Length == Len()
      requires forall m <- packs :: m.body != body && m.body.data != body.data
      requires got < Len() && readSize == (PH_LEN + got) % U32
      requires s == head[..] + body.data[..got] && peer.known(DecodeHead(head[..]).cmd)
      ensures Steady() && Incomplete(peer, s) && Pending() == Wrapped(s)
    {
      CountWraps(got, Len());
      assert s[..PH_LEN] == head[..];
      if |s| >= U32 {
        assert head[..readSize] == s[..|s| - U32];
      }
    }

    /* One iteration of the loop of parse.  Its test for a missing body buffer never succeeds, because a
       complete header always has one. */
    method Advance(data: seq<byte>) returns (app: nat, outcome: Outcome)
      requires Steady() && Incomplete(peer, Pending()) && |data| > 0
      modifies Writes()
      ensures 0 < app <= |data|
      ensures |old(packs)| <= |packs| && packs[..|old(packs)|] == old(packs)
      ensures outcome != Bad ==> fresh(Writes() - old(Writes()))
      ensures var s := old(Pending()) + data;
              match outcome
              case Bad => Separate() && Packets() == old(Packets()) && Deframe(peer, s) == FAILURE
              case More =>
                && Steady() && Packets() == old(Packets())
                && app == |data| && Incomplete(peer, s) && Pending() == Wrapped(s)
              case Got =>
                && Steady() && Pending() == []
                && var ps := Packets()[|old(packs)|..];
                   && |ps| == 1 && Packets() == old(Packets()) + ps
                   && Deframe(peer, s) == Prepend(ps, Deframe(peer, data[app..]))
    {
      hide Deframe, Deliver, Contents, DecodeHead, Wrapped, Incomplete, Pending;
      app := 0;
      HeaderKnown();
      ghost var was := Pending();
      if !IsHeadRead() {
        app, outcome := TakeHead(data);
        if outcome == Bad {
          return;
        }
        Regroup(was, data, app);
        if outcome == More {
          HeadIncomplete(peer, Pending());
          assert data[..app] == data;
          return;
        }
      }
      var rest := data[app..];
      assert Pending() + rest == was + data;
      var n;
      n, outcome := TakeBody(rest);
      assert rest[n..] == data[app + n..];
      app := app + n;
      if outcome == Got {
        HeadEmpty();
      }
    }

    lemma HeadEmpty()
      requires Steady() && readSize == 0
      ensures Pending() == []
    {
    }

    /** One call on a chunk received from the network, for every chunk and every state reached without
        a failure. The result, the packets appended and the pending bytes are those of reading the
        pending bytes followed by the chunk; messages delivered earlier keep their contents. */
    method Parse(input: seq<byte>) returns (received: int)
      requires Valid() && !failed && |input| < U32
      modifies Writes()
      ensures Valid()
      ensures var r := Feed(peer, old(Pending()), input);
              && Packets() == old(Packets()) + r.packets
              && failed == r.failed
              && received == (if failed then -1 else |r.packets|)
              && (!failed ==> Pending() == r.rest)
      ensures |old(packs)| <= |packs| && packs[..|old(packs)|] == old(packs)
      ensures forall m :: m in packs[|old(packs)|..] ==> m.head.len == m.body.data.Length
      ensures !failed ==> fresh(Writes() - old(Writes()))
    {
      hide Deframe, Wrapped, Incomplete, Contents, Pending, Steady;
      LenIsSize(peer, Pending() + input);
      received := 0;
      var data := input;
      ghost var done: seq<Packet>, cur := [], Pending();
      SmallPending(cur);
      ghost var result := Deframe(peer, cur + data);
      PrependNothing(result);
      while |data| > 0
        invariant Steady() && Incomplete(peer, cur) && Wrapped(cur) == Pending()
        invariant |data| > 0 ==> cur == Pending()
        invariant Packets() == old(Packets()) + done && received == |done|
        invariant result == Prepend(done, Deframe(peer, cur + data))
        invariant |old(packs)| <= |packs| && packs[..|old(packs)|] == old(packs)
        invariant fresh(Writes() - old(Writes()))
        decreases |data|
      {
        var tmp, outcome := Advance(data);
        if outcome == Bad {
          assert result.failed && result.packets == done + [];
          LengthsTold(old(Packets()), done);
          failed := true;
          return -1;
        }
        if outcome == Got {
          ghost var ps := Packets()[|done| + |old(packs)|..];
          PrependTwice(done, ps, Deframe(peer, data[tmp..]));
          done, cur := done + ps, [];
          received := received + 1;
          HeadIncomplete(peer, []);
          assert [] + data[tmp..] == data[tmp..];
        } else {
          cur := cur + data;
          assert cur + [] == cur;
        }
        data := data[tmp..];
      }
      assert cur + data == cur;
      DeframeIncomplete(peer, cur);
      assert result.packets == done + [];
      LengthsTold(old(Packets()), done);
      WrappedIncomplete(peer, cur);
    }

    /* The messages behind the first |before| are the packets done, by content. */
    lemma LengthsTold(before: seq<Packet>, done: seq<Packet>)
      requires Packets() == before + done && forall p :: p in done ==> p.head.len == |p.body|
      ensures forall m :: m in packs[|before|..] ==> m.head.len == m.body.data.Length
    {
      hide Contents;
      forall i | |before| <= i < |packs|
        ensures packs[i].head.len == packs[i].body.data.Length
      {
        ContentsAt(packs, i);
        assert Packets()[i] == done[i - |before|] && done[i - |before|] in done;
      }
    }

    /* The parser writes to no buffer of these messages. */
    ghost predicate Apart(ms: seq<Message>)
      reads this, body, set m <- ms :: m.body
    {
      forall m <- ms :: m.body !in Writes() && m.body.data !in Writes()
    }

    /* packs() copied out and cleared by the socket. */
    method TakePacks() returns (taken: seq<Message>)
      requires Valid() && !failed
      modifies this`packs
      ensures Valid() && packs == [] && Pending() == old(Pending()) && Contents(taken) == old(Packets())
      ensures Apart(taken)
    {
      taken := packs;
      packs := [];
    }

    lemma HeaderKnown()
      requires Steady() && Incomplete(peer, Pending())
      ensures readSize >= PH_LEN ==> peer.known(DecodeHead(head[..]).cmd) && readSize - PH_LEN < Len()
    {
      if readSize >= PH_LEN {
        assert Pending()[..PH_LEN] == head[..];
      }
    }
  }

  /** With got bytes of a body read, the 32-bit count still tells a complete body from an incomplete one,
      and it forgets the header exactly when it has passed 2^32. */
  lemma CountWraps(got: nat, len: word)
    requires got <= len
    ensures var readSize := (PH_LEN + got) % U32;
            && (len == (readSize - PH_LEN) % U32 <==> got == len)
            && (readSize < PH_LEN <==> PH_LEN + got >= U32)
            && readSize == if PH_LEN + got < U32 then PH_LEN + got else PH_LEN + got - U32
  {
    var n := PH_LEN + got;
    if n < U32 {
      assert n % U32 == n;
    } else {
      DivModUnique(n, U32, 1, n - U32);
      DivModUnique(n - U32 - PH_LEN, U32, -1, got);
    }
  }

  lemma SmallPending(s: seq<byte>)
    requires |s| < U32
    ensures Wrapped(s) == s
  {
  }

  lemma HeadIncomplete(peer: Peer, s: seq<byte>)
    requires |s| < PH_LEN
    ensures Incomplete(peer, s) && Wrapped(s) == s
  {
  }

  lemma WrappedIncomplete(peer: Peer, s: seq<byte>)
    requires Incomplete(peer, s)
    ensures Incomplete(peer, Wrapped(s))
  {
  }

  lemma Regroup(a: seq<byte>, b: seq<byte>, k: nat)
    requires k <= |b|
    ensures a + b == (a + b[..k]) + b[k..]
  {
  }

  /* Calls up to the first failure. */
  method ReceiveFrom(parser: MessageParser, chunks: seq<seq<byte>>)
    requires parser.Valid() && !parser.failed && CallSized(chunks)
    modifies parser.Writes()
    ensures parser.Valid()
    ensures var r := FeedAll(parser.peer, old(parser.Pending()), chunks);
            && parser.Packets() == old(parser.Packets()) + r.packets && parser.failed == r.failed
            && (!r.failed ==> parser.Pending() == r.rest)
    decreases |chunks|
  {
    hide *;
    if |chunks| == 0 {
      FeedNothing(parser.peer, parser.Pending(), chunks);
      Associate(parser.Packets(), [], []);
      return;
    }
    ghost var r := Feed(parser.peer, parser.Pending(), chunks[0]);
    FeedAllStep(parser.peer, parser.Pending(), chunks);
    Associate(parser.Packets(), r.packets, FeedAll(parser.peer, r.rest, chunks[1..]).packets);
    CallSize(chunks);
    var received := parser.Parse(chunks[0]);
    if received != -1 {
      ReceiveFrom(parser, chunks[1..]);
    }
  }

  /** A whole connection: calls up to the first failure leave the parser with exactly the packets of the
      received stream, for every stream within the size limit and every way of cutting it. */
  method Receive(peer: Peer, chunks: seq<seq<byte>>) returns (parser: MessageParser)
    requires CallSized(chunks) && Sized(peer, Flatten(chunks))
    ensures fresh(parser) && parser.Valid()
    ensures var r := Deframe(peer, Flatten(chunks));
            && parser.Packets() == r.packets && parser.failed == r.failed
            && (!r.failed ==> parser.Pending() == r.rest)
  {
    hide Deframe, Incomplete;
    parser := new MessageParser(peer);
    ReceiveFrom(parser, chunks);
    assert [] + Flatten(chunks) == Flatten(chunks);
    NothingPending(peer);
    ChunkingInvariance(peer, [], chunks);
    Associate([], FeedAll(peer, [], chunks).packets, []);
  }

  lemma NothingPending(peer: Peer)
    ensures Incomplete(peer, [])
  {
  }

  lemma FeedNothing(peer: Peer, pending: seq<byte>, chunks: seq<seq<byte>>)
    ensures |chunks| == 0 ==> FeedAll(peer, pending, chunks) == Parsed([], pending, false)
  {
  }

  lemma FeedAllStep(peer: Peer, pending: seq<byte>, chunks: seq<seq<byte>>)
    requires |chunks| > 0
    ensures var r, all := Feed(peer, pending, chunks[0]), FeedAll(peer, pending, chunks);
            if r.failed then all == r
            else
              var more := FeedAll(peer, r.rest, chunks[1..]);
              all.packets == r.packets + more.packets && all.rest == more.rest && all.failed == more.failed
  {
    hide Feed;
  }

  /** What the socket does with a chunk: hand on all completed messages and empty the list, or close.
      Messages handed on earlier keep their contents. */
  method OnRead(parser: MessageParser, input: seq<byte>, ghost earlier: seq<Message>)
    returns (handled: seq<Message>, open: bool)
    requires parser.Valid() && !parser.failed && parser.packs == [] && |input| < U32 && parser.Apart(earlier)
    modifies parser.Writes()
    ensures var r := Feed(parser.peer, old(parser.Pending()), input);
            && open == !r.failed && parser.failed == r.failed
            && Contents(handled) == (if open then r.packets else [])
            && (open ==> parser.Valid() && parser.packs == [] && parser.Pending() == r.rest)
    ensures Contents(earlier) == old(Contents(earlier)) && (open ==> parser.Apart(earlier + handled))
    ensures open ==> fresh(parser.Writes() - old(parser.Writes()))
  {
    hide Deframe, Feed, Incomplete, Contents, MessageParser.Pending, MessageParser.Steady;
    var ret := parser.Parse(input);
    if ret == -1 {
      return [], false;
    }
    handled, open := [], true;
    if ret > 0 {
      handled := parser.TakePacks();
    }
  }

  /* OnRead, with everything handed on so far collected in one list. */
  method ServeChunk(parser: MessageParser, chunk: seq<byte>, handled: seq<Message>)
    returns (handled': seq<Message>, open: bool)
    requires parser.Valid() && !parser.failed && parser.packs == [] && |chunk| < U32 && parser.Apart(handled)
    modifies parser.Writes()
    ensures var r := Feed(parser.peer, old(parser.Pending()), chunk);
            && open == !r.failed
            && Contents(handled') == old(Contents(handled)) + (if open then r.packets else [])
            && (open ==> parser.Valid() && !parser.failed && parser.packs == [] && parser.Pending() == r.rest)
    ensures open ==> parser.Apart(handled')
    ensures open ==> fresh(parser.Writes() - old(parser.Writes()))
  {
    hide Feed, Contents, MessageParser.Pending, MessageParser.Steady, MessageParser.Valid, MessageParser.Apart;
    var more;
    more, open := OnRead(parser, chunk, handled);
    ContentsAppend(handled, more);
    handled' := if open then handled + more else handled;
  }

  /* The socket reads again after every chunk, until a call fails. */
  method ServeFrom(parser: MessageParser, chunks: seq<seq<byte>>, handled: seq<Message>) returns (all: seq<Message>)
    requires parser.Valid() && !parser.failed && parser.packs == [] && parser.Apart(handled) && CallSized(chunks)
    modifies parser.Writes()
    ensures Contents(all) == old(Contents(handled)) + Dispatched(parser.peer, old(parser.Pending()), chunks)
    decreases |chunks|
  {
    hide *;
    if |chunks| == 0 {
      NoneDispatched(parser.peer, parser.Pending(), chunks);
      return handled;
    }
    ghost var r := Feed(parser.peer, parser.Pending(), chunks[0]);
    DispatchedStep(parser.peer, parser.Pending(), chunks);
    Associate(Contents(handled), r.packets, Dispatched(parser.peer, r.rest, chunks[1..]));
    CallSize(chunks);
    var open;
    all, open := ServeChunk(parser, chunks[0], handled);
    if open {
      all := ServeFrom(parser, chunks[1..], all);
    }
  }

  /** A whole connection as the socket runs it: the messages handed on are the packets of the calls that
      succeeded, and all of them still have their contents when the last chunk has been read, although
      the parser went on writing headers and bodies. */
  method Serve(peer: Peer, chunks: seq<seq<byte>>) returns (handled: seq<Message>)
    requires CallSized(chunks)
    ensures Contents(handled) == Dispatched(peer, [], chunks)
  {
    var parser := new MessageParser(peer);
    handled := ServeFrom(parser, chunks, []);
    Associate([], Dispatched(peer, [], chunks), []);
  }

  lemma Associate(a: seq<Packet>, b: seq<Packet>, c: seq<Packet>)
    ensures a + (b + c) == (a + b) + c && a + [] == a && [] + b == b
  {
  }

  lemma CallSize(chunks: seq<seq<byte>>)
    requires CallSized(chunks) && |chunks| > 0
    ensures |chunks[0]| < U32 && CallSized(chunks[1..])
  {
    assert forall c :: c in chunks[1..] ==> c in chunks;
  }

  lemma NoneDispatched(peer: Peer, pending: seq<byte>, chunks: seq<seq<byte>>)
    ensures |chunks| == 0 ==> Dispatched(peer, pending, chunks) == []
  {
  }

  lemma DispatchedStep(peer: Peer, pending: seq<byte>, chunks: seq<seq<byte>>)
    requires |chunks| > 0
    ensures var r := Feed(peer, pending, chunks[0]);
            Dispatched(peer, pending, chunks)
            == if r.failed then [] else r.packets + Dispatched(peer, r.rest, chunks[1..])
  {
    hide Feed;
  }

  lemma {:induction false} ContentsAppend(a: seq<Message>, b: seq<Message>)
    ensures Contents(a + b) == Contents(a) + Contents(b)
  {
    if |b| == 0 {
      assert a + b == a;
    } else {
      var n := |b| - 1;
      ContentsAppend(a, b[..n]);
      assert (a + b)[..|a| + n] == a + b[..n];
    }
  }
}
