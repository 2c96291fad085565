/** Message framing of the TCP server (interface/tcpserver.cpp, ReceiveTcpData).

    A connection's byte stream is cut into messages by the length field of the
    message header; what is not yet a whole message waits in a fixed buffer.
*/
module TcpFraming {
  import opened Bytes

  const MHDR_SIZE: nat := 28
  const LEN_OFFSET: nat := 20
  const MAX_APP_MSG_SIZE: nat := 50000
  const TCP_RECV_BUFFER_SIZE: nat := MAX_APP_MSG_SIZE

  /** sizeof(mhdr) + phdr->len, computed in 32 bits, so a huge length field comes
      out negative. */
  function MsgLen(s: seq<byte>): int
    requires |s| >= MHDR_SIZE
  {
    ToInt32(MHDR_SIZE + Word(s, LEN_OFFSET))
  }

  predicate GoodLen(n: int) {
    MHDR_SIZE <= n <= MAX_APP_MSG_SIZE
  }

  /** One whole message: bytes 20 to 23 of its header, least significant first, are the
      number of bytes behind the header. */
  predicate WellFormed(m: seq<byte>) {
    28 <= |m| <= 50000 &&
    m[20] as int + 256 * (m[21] as int) + 65536 * (m[22] as int) + 16777216 * (m[23] as int) == |m| - 28
  }

  /** What framing makes of a stretch of bytes: the whole messages at its front,
      the bytes kept for later, and whether an impossible length was met (which
      throws everything from there on away). */
  datatype Frames = Frames(msgs: seq<seq<byte>>, rest: seq<byte>, bad: bool)

  function Frame(s: seq<byte>): (f: Frames)
    ensures |f.rest| < MAX_APP_MSG_SIZE
    ensures f.bad ==> f.rest == []
    ensures forall i :: 0 <= i < |f.msgs| ==> WellFormed(f.msgs[i])
    decreases |s|
  {
    if |s| < MHDR_SIZE then Frames([], s, false)
    else if !GoodLen(MsgLen(s)) then Frames([], [], true)
    else if |s| < MsgLen(s) then Frames([], s, false)
    else
      var f := Frame(s[MsgLen(s)..]);
      HeaderOfPrefix(s, MsgLen(s));
      f.(msgs := [s[..MsgLen(s)]] + f.msgs)
  }

  lemma HeaderOfPrefix(s: seq<byte>, n: nat)
    requires MHDR_SIZE <= n <= |s|
    ensures MsgLen(s[..n]) == MsgLen(s)
  {
  }

  function Prepend(sent: seq<seq<byte>>, f: Frames): Frames {
    f.(msgs := sent + f.msgs)
  }

  lemma PrependTwice(sent: seq<seq<byte>>, m: seq<byte>, f: Frames)
    ensures Prepend(sent, f.(msgs := [m] + f.msgs)) == Prepend(sent + [m], f)
  {
    assert sent + ([m] + f.msgs) == (sent + [m]) + f.msgs;
  }

  lemma SliceFront(s: seq<byte>, from: nat, end: nat, n: nat)
    requires from + n <= end <= |s|
    ensures s[from..end][..n] == s[from..from + n]
  {
  }

  datatype Recv = Data(bytes: seq<byte>) | WouldBlock | Failed | Closed

  datatype Status = NO_ERRORS | ERROR_OCCURED

  /** TCP_CLIENT_CONN: the receive buffer of one connection. `delivered` records
      the calls of ProcessTcpMessage. */
  class Connection {
    const recvBuf: array<byte>
    var recvBufLen: nat
    var delivered: seq<seq<byte>>

    /** recv is never asked for zero bytes, which it would answer as a close. */
    ghost predicate Valid()
      reads this
    {
      recvBuf.Length == TCP_RECV_BUFFER_SIZE && recvBufLen < recvBuf.Length
    }

    ghost function Waiting(): seq<byte>
      requires Valid()
      reads this, recvBuf
    {
      recvBuf[..recvBufLen]
    }

    constructor ()
      ensures Valid() && fresh(recvBuf) && Waiting() == [] && delivered == []
    {
      recvBuf := new byte[TCP_RECV_BUFFER_SIZE];
      recvBufLen := 0;
      delivered := [];
    }

    /** One readiness event. recv hands over at most the free space. */
    method ReceiveTcpData(recv: Recv) returns (rc: Status)
      requires Valid()
      requires recv.Data? ==> 0 < |recv.bytes| <= TCP_RECV_BUFFER_SIZE - recvBufLen
      modifies this, recvBuf
      ensures Valid()
      ensures rc == ERROR_OCCURED <==> recv.Failed? || recv.Closed?
      ensures !recv.Data? ==> Waiting() == old(Waiting()) && delivered == old(delivered)
      ensures recv.Data? ==>
                var f := Frame(old(Waiting()) + recv.bytes);
                Waiting() == f.rest && delivered == old(delivered) + f.msgs
    {
      if recv.WouldBlock? {
        return NO_ERRORS;
      }
      if !recv.Data? {
        return ERROR_OCCURED;
      }
      hide Frame, MsgLen, WellFormed;
      Store(recv.bytes);
      ghost var all := recvBuf[..recvBufLen];
      var processed, bad := DeliverMessages();
      if bad {
        recvBufLen := 0;
        return NO_ERRORS;
      }
      assert all[processed..] == recvBuf[processed..recvBufLen];
      if processed > 0 {
        MoveDown(processed);
      }
      return NO_ERRORS;
    }

    /** The framing loop: hands over every whole message and says how far it got,
        or that an impossible length stopped it. */
    method DeliverMessages() returns (processed: nat, bad: bool)
      requires recvBufLen <= recvBuf.Length == TCP_RECV_BUFFER_SIZE
      modifies this`delivered
      ensures var f := Frame(recvBuf[..recvBufLen]);
              && delivered == old(delivered) + f.msgs
              && bad == f.bad
              && (!bad ==> processed <= recvBufLen && recvBuf[..recvBufLen][processed..] == f.rest)
    {
      hide MsgLen, WellFormed;
      ghost var all := recvBuf[..recvBufLen];
      ghost var sent: seq<seq<byte>> := [];
      processed := 0;
      assert all[0..] == all;
      assert Frame(all).msgs == sent + Frame(all).msgs;
      while recvBufLen - processed >= MHDR_SIZE
        invariant processed <= recvBufLen && all == recvBuf[..recvBufLen]
        invariant delivered == old(delivered) + sent
        invariant Frame(all) == Prepend(sent, Frame(all[processed..]))
        decreases recvBufLen - processed
      {
        ghost var left := all[processed..];
        assert left == recvBuf[processed..recvBufLen];
        var msgLen := HeaderLen(processed);
        if msgLen < MHDR_SIZE || msgLen > MAX_APP_MSG_SIZE {
          assert Frame(left) == Frames([], [], true);
          assert sent + [] == sent;
          return processed, true;
        }
        if recvBufLen - processed < msgLen {
          break;
        }
        FrameMessage(left);
        hide Frame;
        ghost var m := left[..msgLen];
        SliceFront(recvBuf[..], processed, recvBufLen, msgLen);
        assert m == recvBuf[processed..processed + msgLen];
        assert left[msgLen..] == all[processed + msgLen..];
        PrependTwice(sent, m, Frame(left[msgLen..]));
        delivered := delivered + [recvBuf[processed..processed + msgLen]];
        sent := sent + [m];
        processed := processed + msgLen;
      }
      assert Frame(all[processed..]) == Frames([], all[processed..], false);
      assert sent + [] == sent;
      bad := false;
    }

    /** recv: the bytes land behind those already waiting. */
    method Store(bytes: seq<byte>)
      requires Valid() && |bytes| <= TCP_RECV_BUFFER_SIZE - recvBufLen
      modifies this`recvBufLen, recvBuf
      ensures recvBufLen == old(recvBufLen) + |bytes| <= recvBuf.Length
      ensures recvBuf[..recvBufLen] == old(recvBuf[..recvBufLen]) + bytes
    {
      for i := 0 to |bytes|
        invariant recvBufLen == old(recvBufLen) && Valid()
        invariant recvBuf[..recvBufLen] == old(recvBuf[..recvBufLen])
        invariant recvBuf[recvBufLen..recvBufLen + i] == bytes[..i]
      {
        recvBuf[recvBufLen + i] := bytes[i];
      }
      recvBufLen := recvBufLen + |bytes|;
    }

    /** The size the header at `off` announces. */
    method HeaderLen(off: nat) returns (msgLen: int)
      requires off + MHDR_SIZE <= recvBufLen <= recvBuf.Length
      ensures msgLen == MsgLen(recvBuf[off..recvBufLen])
    {
      var p := off + LEN_OFFSET;
      msgLen := ToInt32(MHDR_SIZE + Compose(recvBuf[p], recvBuf[p + 1], recvBuf[p + 2], recvBuf[p + 3]));
    }

    /** memmove of the unprocessed tail to the start of the buffer. */
    method MoveDown(processed: nat)
      requires processed <= recvBufLen <= recvBuf.Length
      modifies this`recvBufLen, recvBuf
      ensures recvBufLen == old(recvBufLen) - processed
      ensures recvBuf[..recvBufLen] == old(recvBuf[processed..recvBufLen])
    {
      var n := recvBufLen - processed;
      for i := 0 to n
        invariant forall k :: 0 <= k < i ==> recvBuf[k] == old(recvBuf[processed + k])
        invariant forall k :: i <= k < recvBuf.Length ==> recvBuf[k] == old(recvBuf[k])
      {
        recvBuf[i] := recvBuf[processed + i];
      }
      recvBufLen := n;
      assert forall k :: 0 <= k < n ==> recvBuf[..n][k] == old(recvBuf[..])[processed + k];
      assert recvBuf[..n] == old(recvBuf[..])[processed..processed + n];
    }
  }

  // ----- properties of the stream -----

  /** Framing neither invents nor drops a byte while lengths are possible. */
  lemma {:induction false} FrameConserves(s: seq<byte>)
    requires !Frame(s).bad
    ensures s == Flatten(Frame(s).msgs) + Frame(s).rest
    decreases |s|
  {
    hide MsgLen, WellFormed;
    if |s| >= MHDR_SIZE && |s| >= MsgLen(s) {
      var n := MsgLen(s);
      FrameMessage(s);
      FrameConserves(s[n..]);
      var f := Frame(s[n..]);
      FlattenFirst(s[..n], f.msgs);
      hide Frame, Flatten;
      assert s == s[..n] + s[n..];
      assert s[..n] + (Flatten(f.msgs) + f.rest) == (s[..n] + Flatten(f.msgs)) + f.rest;
    }
  }

  lemma FlattenFirst(m: seq<byte>, msgs: seq<seq<byte>>)
    ensures Flatten([m] + msgs) == m + Flatten(msgs)
  {
    assert ([m] + msgs)[1..] == msgs;
  }

  lemma FrameMessage(s: seq<byte>)
    ensures |s| >= MHDR_SIZE && GoodLen(MsgLen(s)) && |s| >= MsgLen(s) ==>
              Frame(s) == var f := Frame(s[MsgLen(s)..]); f.(msgs := [s[..MsgLen(s)]] + f.msgs)
  {
    hide MsgLen, WellFormed;
  }

  /** Framing a longer stretch = framing its front, then what that left over
      together with the rest. */
  lemma {:induction false} FrameAppend(a: seq<byte>, b: seq<byte>)
    requires !Frame(a).bad
    ensures Frame(a + b) ==
            var f := Frame(Frame(a).rest + b);
            f.(msgs := Frame(a).msgs + f.msgs)
    decreases |a|
  {
    hide MsgLen, WellFormed;
    if |a| >= MHDR_SIZE && |a| >= MsgLen(a) {
      var n := MsgLen(a);
      assert (a + b)[..|a|] == a;
      HeaderOfPrefix(a + b, |a|);
      assert (a + b)[..n] == a[..n];
      assert (a + b)[n..] == a[n..] + b;
      FrameAppend(a[n..], b);
      FrameMessage(a);
      FrameMessage(a + b);
      hide Frame;
      var f := Frame(Frame(a).rest + b);
      assert [a[..n]] + (Frame(a[n..]).msgs + f.msgs) == ([a[..n]] + Frame(a[n..]).msgs) + f.msgs;
    }
  }

  lemma {:induction false} GoodPrefix(a: seq<byte>, b: seq<byte>)
    requires !Frame(a + b).bad
    ensures !Frame(a).bad
    decreases |a|
  {
    hide MsgLen, WellFormed;
    if |a| >= MHDR_SIZE {
      assert (a + b)[..|a|] == a;
      HeaderOfPrefix(a + b, |a|);
      if |a| >= MsgLen(a) {
        var n := MsgLen(a);
        assert (a + b)[n..] == a[n..] + b;
        GoodPrefix(a[n..], b);
      }
    }
  }

  /** The connection over a whole run: the chunks as recv returned them. */
  function Feed(waiting: seq<byte>, chunks: seq<seq<byte>>): (f: Frames)
    decreases |chunks|
  {
    if chunks == [] then Frames([], waiting, false)
    else
      var f := Frame(waiting + chunks[0]);
      var g := Feed(f.rest, chunks[1..]);
      Frames(f.msgs + g.msgs, g.rest, f.bad || g.bad)
  }

  /** For every stream without an impossible length, the cutting into chunks makes
      no difference. */
  lemma {:induction false} ChunkingIrrelevant(waiting: seq<byte>, chunks: seq<seq<byte>>)
    requires Frame(waiting).rest == waiting && Frame(waiting).msgs == [] && !Frame(waiting).bad
    requires !Frame(waiting + Flatten(chunks)).bad
    ensures Feed(waiting, chunks) == Frame(waiting + Flatten(chunks))
    decreases |chunks|
  {
    hide MsgLen, WellFormed;
    if chunks == [] {
      assert waiting + Flatten(chunks) == waiting;
    } else {
      var front := waiting + chunks[0];
      var later := Flatten(chunks[1..]);
      assert waiting + Flatten(chunks) == front + later;
      GoodPrefix(front, later);
      FrameAppend(front, later);
      RestStays(front);
      ChunkingIrrelevant(Frame(front).rest, chunks[1..]);
    }
  }

  lemma {:induction false} RestStays(s: seq<byte>)
    ensures Frame(Frame(s).rest) == Frames([], Frame(s).rest, false)
    decreases |s|
  {
    hide MsgLen, WellFormed;
    if |s| >= MHDR_SIZE && GoodLen(MsgLen(s)) && |s| >= MsgLen(s) {
      RestStays(s[MsgLen(s)..]);
    }
  }

  lemma LenOfWellFormed(m: seq<byte>)
    requires WellFormed(m)
    ensures MHDR_SIZE <= |m| <= MAX_APP_MSG_SIZE && MsgLen(m) == |m|
  {
  }

  lemma {:induction false} MessagesFrame(msgs: seq<seq<byte>>)
    requires forall i :: 0 <= i < |msgs| ==> WellFormed(msgs[i])
    ensures Frame(Flatten(msgs)) == Frames(msgs, [], false)
  {
    hide MsgLen, WellFormed;
    if msgs != [] {
      var m, later := msgs[0], Flatten(msgs[1..]);
      var s := Flatten(msgs);
      assert s == m + later && s[..|m|] == m && s[|m|..] == later;
      LenOfWellFormed(m);
      HeaderOfPrefix(s, |m|);
      MessagesFrame(msgs[1..]);
      assert msgs == [m] + msgs[1..];
    }
  }

  /** How framing goes on, by the length field: the header and as many bytes as it says
      are the first message, once they are all there. Above 49972 - which is where the
      bytes of a negative length are, too - everything is thrown away. */
  lemma FirstMessage(s: seq<byte>)
    ensures |s| < 28 ==> Frame(s) == Frames([], s, false)
    ensures |s| >= 28 ==>
              var n := s[20] as int + 256 * (s[21] as int) + 65536 * (s[22] as int) + 16777216 * (s[23] as int);
              && (n > 49972 ==> Frame(s) == Frames([], [], true))
              && (n <= 49972 && |s| < 28 + n ==> Frame(s) == Frames([], s, false))
              && (n <= 49972 && |s| >= 28 + n ==>
                   var f := Frame(s[28 + n..]);
                   Frame(s) == Frames([s[..28 + n]] + f.msgs, f.rest, f.bad))
  {
    FrameMessage(s);
  }

  /** Well-formed messages in front of an impossible length are delivered, and nothing
      from there on. */
  lemma StreamUpToImpossible(msgs: seq<seq<byte>>, bad: seq<byte>)
    requires forall i :: 0 <= i < |msgs| ==> WellFormed(msgs[i])
    requires |bad| >= 28
    requires bad[20] as int + 256 * (bad[21] as int) + 65536 * (bad[22] as int) + 16777216 * (bad[23] as int) > 49972
    ensures Frame(Flatten(msgs) + bad) == Frames(msgs, [], true)
  {
    hide MsgLen, WellFormed;
    MessagesFrame(msgs);
    FrameAppend(Flatten(msgs), bad);
    FirstMessage(bad);
    assert [] + bad == bad;
  }

  /** Every stream of well-formed messages, cut in any way, is delivered as exactly
      those messages, in order, with nothing left waiting. */
  lemma StreamDelivered(msgs: seq<seq<byte>>, chunks: seq<seq<byte>>)
    requires forall i :: 0 <= i < |msgs| ==> WellFormed(msgs[i])
    requires Flatten(chunks) == Flatten(msgs)
    ensures Feed([], chunks) == Frames(msgs, [], false)
  {
    hide MsgLen, WellFormed;
    MessagesFrame(msgs);
    assert [] + Flatten(chunks) == Flatten(chunks);
    ChunkingIrrelevant([], chunks);
  }

  // ----- impossible lengths -----

  /** What recv can hand over: something, and never more than there is room for. */
  predicate Feasible(waiting: seq<byte>, chunks: seq<seq<byte>>)
    decreases |chunks|
  {
    chunks == [] || (0 < |chunks[0]| <= TCP_RECV_BUFFER_SIZE - |waiting|
                     && Feasible(Frame(waiting + chunks[0]).rest, chunks[1..]))
  }

  /** Byte by byte. */
  function Singles(s: seq<byte>): (chunks: seq<seq<byte>>)
    ensures |chunks| == |s|
  {
    if s == [] then [] else [[s[0]]] + Singles(s[1..])
  }

  lemma {:induction false} SinglesFlatten(s: seq<byte>)
    ensures Flatten(Singles(s)) == s
  {
    if s != [] {
      SinglesFlatten(s[1..]);
      assert Singles(s)[1..] == Singles(s[1..]);
    }
  }

  lemma {:induction false} FlattenBoth(a: seq<seq<byte>>, b: seq<seq<byte>>)
    ensures Flatten(a + b) == Flatten(a) + Flatten(b)
    decreases |b|
  {
    if b == [] {
      assert a + b == a;
    } else {
      var front, last := b[..|b| - 1], b[|b| - 1];
      FlattenBoth(a, front);
      FlattenAppend(a + front, last);
      FlattenAppend(front, last);
      assert a + b == (a + front) + [last] && b == front + [last];
    }
  }

  /** A run in two parts. */
  lemma {:induction false} FeedBoth(waiting: seq<byte>, a: seq<seq<byte>>, b: seq<seq<byte>>)
    ensures var f := Feed(waiting, a);
            var g := Feed(f.rest, b);
            && Feed(waiting, a + b) == Frames(f.msgs + g.msgs, g.rest, f.bad || g.bad)
            && (Feasible(waiting, a + b) <==> Feasible(waiting, a) && Feasible(f.rest, b))
    decreases |a|
  {
    hide Frame;
    if a == [] {
      assert a + b == b;
    } else {
      assert (a + b)[1..] == a[1..] + b;
      FeedBoth(Frame(waiting + a[0]).rest, a[1..], b);
    }
  }

  lemma FeedOne(waiting: seq<byte>, chunk: seq<byte>)
    ensures Feed(waiting, [chunk]) == Frame(waiting + chunk)
    ensures Feasible(waiting, [chunk]) <==> 0 < |chunk| <= TCP_RECV_BUFFER_SIZE - |waiting|
  {
    hide Frame;
    assert [chunk][1..] == [];
    var f := Frame(waiting + chunk);
    assert f.msgs + [] == f.msgs;
  }

  lemma {:induction false} SinglesFeasible(waiting: seq<byte>, s: seq<byte>)
    requires |waiting| < MAX_APP_MSG_SIZE
    ensures Feasible(waiting, Singles(s))
    decreases |s|
  {
    hide MsgLen, WellFormed;
    if s != [] {
      assert Singles(s)[1..] == Singles(s[1..]);
      SinglesFeasible(Frame(waiting + [s[0]]).rest, s[1..]);
    }
  }

  /** What has been delivered and what is kept depends on the bytes received so far
      alone, at every moment of the stream and however recv cuts it. */
  ghost predicate CutsDoNotMatter(stream: seq<byte>) {
    forall n: nat, a: seq<seq<byte>>, b: seq<seq<byte>> ::
      n <= |stream| && IsCut(stream[..n], a) && IsCut(stream[..n], b) ==> Feed([], a) == Feed([], b)
  }

  ghost predicate IsCut(stream: seq<byte>, chunks: seq<seq<byte>>) {
    Flatten(chunks) == stream && Feasible([], chunks)
  }

  /** Every cut gives what framing the whole would, as long as nothing follows an
      impossible length. */
  lemma CutsOfGood(stream: seq<byte>, chunks: seq<seq<byte>>)
    requires IsCut(stream, chunks) && (stream != [] ==> !Frame(stream[..|stream| - 1]).bad)
    ensures Feed([], chunks) == Frame(stream)
  {
    hide MsgLen, WellFormed;
    if chunks != [] {
      var front, last := chunks[..|chunks| - 1], chunks[|chunks| - 1];
      assert chunks == front + [last];
      FlattenAppend(front, last);
      FeedBoth([], front, [last]);
      FeedOne(Feed([], front).rest, last);
      var early := Flatten(front);
      assert stream == early + last && |last| > 0;
      assert stream[..|stream| - 1] == early + last[..|last| - 1];
      GoodPrefix(early, last[..|last| - 1]);
      assert [] + early == early;
      ChunkingIrrelevant([], front);
      FrameAppend(early, last);
    }
  }

  /** What waits when the last byte of an impossible header comes: the rest of it. */
  lemma BadHeaderWaits(early: seq<byte>, h: byte)
    requires !Frame(early).bad && Frame(early + [h]).bad
    ensures var kept := Frame(early).rest;
            && IsCut(early, Singles(early)) && Feed([], Singles(early)) == Frame(early)
            && Frame(kept + [h]) == Frames([], [], true) && |kept| < MHDR_SIZE
  {
    hide Frame, Feed, Feasible, MsgLen, Singles;
    var front := Singles(early);
    SinglesFlatten(early);
    SinglesFeasible([], early);
    if early != [] {
      assert early[..|early| - 1] + [early[|early| - 1]] == early;
      GoodPrefix(early[..|early| - 1], [early[|early| - 1]]);
    }
    CutsOfGood(early, front);
    FrameAppend(early, [h]);
    var kept := Frame(early).rest;
    RestStays(early);
    LastByteOfHeader(kept, h);
  }

  lemma LastByteOfHeader(kept: seq<byte>, h: byte)
    requires Frame(kept) == Frames([], kept, false) && Frame(kept + [h]).bad
    ensures Frame(kept + [h]) == Frames([], [], true) && |kept| < MHDR_SIZE
  {
    if |kept| >= MHDR_SIZE {
      assert (kept + [h])[..|kept|] == kept;
      HeaderOfPrefix(kept + [h], |kept|);
    }
    hide Frame, MsgLen, WellFormed;
    HeaderWaits(kept);
    HeaderNotBad(kept + [h]);
    ShortBad(kept + [h]);
  }

  lemma HeaderWaits(s: seq<byte>)
    ensures |s| >= MHDR_SIZE && !Frame(s).bad && Frame(s).msgs == [] ==> GoodLen(MsgLen(s)) && |s| < MsgLen(s)
  {
    hide MsgLen, WellFormed;
  }

  lemma HeaderNotBad(s: seq<byte>)
    ensures |s| >= MHDR_SIZE && GoodLen(MsgLen(s)) && |s| <= MsgLen(s) ==> !Frame(s).bad
  {
    hide MsgLen, WellFormed;
    if |s| >= MHDR_SIZE && |s| == MsgLen(s) {
      assert s[MsgLen(s)..] == [] && !Frame([]).bad;
    }
  }

  /** A stretch no longer than a header is either incomplete or the impossible one. */
  lemma ShortBad(s: seq<byte>)
    requires |s| <= MHDR_SIZE
    ensures Frame(s).bad ==> Frame(s) == Frames([], [], true)
  {
    HeaderNotBad(s);
    hide MsgLen, WellFormed;
  }

  lemma OneByteWaits(x: byte)
    ensures Frame([] + [x]) == Frames([], [x], false)
  {
    assert [] + [x] == [x];
  }

  /** One more byte after it: together with the last byte of the header it is lost. */
  lemma FollowerLost(early: seq<byte>, h: byte, x: byte) returns (chunks: seq<seq<byte>>)
    requires !Frame(early).bad && Frame(early + [h]).bad
    ensures IsCut(early + [h, x], chunks) && Feed([], chunks).rest == []
  {
    hide Frame, Feed, Feasible, MsgLen, Singles;
    BadHeaderWaits(early, h);
    var front, kept := Singles(early), Frame(early).rest;
    chunks := front + [[h, x]];
    FlattenAppend(front, [h, x]);
    FeedBoth([], front, [[h, x]]);
    FeedOne(kept, [h, x]);
    assert kept + [h, x] == (kept + [h]) + [x];
    if !Frame(kept + [h, x]).bad {
      GoodPrefix(kept + [h], [x]);
    }
  }

  /** By itself it is kept. */
  lemma FollowerKept(early: seq<byte>, h: byte, x: byte) returns (chunks: seq<seq<byte>>)
    requires !Frame(early).bad && Frame(early + [h]).bad
    ensures IsCut(early + [h, x], chunks) && Feed([], chunks).rest == [x]
  {
    hide Frame, Feed, Feasible, MsgLen, Singles;
    BadHeaderWaits(early, h);
    var front, kept := Singles(early), Frame(early).rest;
    FlattenAppend(front, [h]);
    FlattenAppend(front + [[h]], [x]);
    FeedBoth([], front, [[h]]);
    FeedOne(kept, [h]);
    FeedBoth([], front + [[h]], [[x]]);
    FeedOne([], [x]);
    OneByteWaits(x);
    chunks := (front + [[h]]) + [[x]];
    assert early + [h, x] == (early + [h]) + [x];
  }

  lemma {:induction false} FirstBad(stream: seq<byte>) returns (n: nat)
    requires Frame(stream).bad
    ensures 0 < n <= |stream| && Frame(stream[..n]).bad && !Frame(stream[..n - 1]).bad
    decreases |stream|
  {
    hide MsgLen, WellFormed;
    assert stream != [];
    var front := stream[..|stream| - 1];
    if Frame(front).bad {
      n := FirstBad(front);
      assert front[..n] == stream[..n] && front[..n - 1] == stream[..n - 1];
    } else {
      n := |stream|;
      assert stream[..n] == stream;
    }
  }

  lemma {:induction false} GoodToTheLast(stream: seq<byte>, n: nat)
    requires n <= |stream| && !Frame(stream).bad
    ensures !Frame(stream[..n]).bad
  {
    assert stream == stream[..n] + stream[n..];
    GoodPrefix(stream[..n], stream[n..]);
  }

  /** The cuts of a stream do not matter if and only if no byte follows an impossible
      length in it. */
  lemma CutsMatterExactly(stream: seq<byte>)
    ensures CutsDoNotMatter(stream) <==> stream == [] || !Frame(stream[..|stream| - 1]).bad
  {
    hide Frame, Feed, Feasible;
    if stream == [] || !Frame(stream[..|stream| - 1]).bad {
      forall n: nat, a: seq<seq<byte>>, b: seq<seq<byte>> | n <= |stream| && IsCut(stream[..n], a) && IsCut(stream[..n], b)
        ensures Feed([], a) == Feed([], b)
      {
        if n > 0 {
          assert stream[..n][..n - 1] == stream[..|stream| - 1][..n - 1];
          GoodToTheLast(stream[..|stream| - 1], n - 1);
        }
        CutsOfGood(stream[..n], a);
        CutsOfGood(stream[..n], b);
      }
    } else {
      var front := stream[..|stream| - 1];
      var n := FirstBad(front);
      assert front[..n][..n - 1] == front[..n - 1];
      var early, h, x := front[..n - 1], front[n - 1], stream[n];
      assert early + [h] == front[..n] && early + [h, x] == stream[..n + 1];
      var together := FollowerLost(early, h, x);
      var apart := FollowerKept(early, h, x);
    }
  }
}
