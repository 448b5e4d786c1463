/** RIDE framing (kap-cli/src/ride.rs): frames cut back out of arbitrarily split reads.
    Payloads are bytes; whether a message ends the session is a parameter, any function
    of the payloads received so far. */
module Ride {
  import opened Common
  import opened Bytes

  type Payload = seq<byte>

  const RIDE: seq<byte> := [82, 73, 68, 69]
  const TWO_32 := 0x1_0000_0000

  /** `frame`: the total length is cast to 32 bits. */
  function Frame(payload: Payload): (f: seq<byte>)
    ensures |f| == 8 + |payload|
  {
    BigEndian((8 + |payload|) % TWO_32, 4) + RIDE + payload
  }

  function Frames(payloads: seq<Payload>): seq<byte> {
    if payloads == [] then [] else Frame(payloads[0]) + Frames(payloads[1..])
  }

  function Concat(chunks: seq<seq<byte>>): seq<byte> {
    if chunks == [] then [] else chunks[0] + Concat(chunks[1..])
  }

  /** Where the loop stands: payloads handed out, unconsumed bytes, session closed. */
  datatype Progress = Progress(delivered: seq<Payload>, rest: seq<byte>, closed: bool)

  function FrameLength(acc: seq<byte>): nat
    requires |acc| >= 8
  {
    FromBigEndian(acc[..4])
  }

  /** The inner loop: hand out complete frames, close on a bad length or a bad magic. */
  function Drain(delivered: seq<Payload>, acc: seq<byte>, ends: seq<Payload> -> bool): Progress
    decreases |acc|
  {
    if |acc| < 8 then Progress(delivered, acc, false)
    else
      var len := FrameLength(acc);
      if len < 8 then Progress(delivered, acc, true)
      else if |acc| < len then Progress(delivered, acc, false)
      else if acc[4..8] != RIDE then Progress(delivered, acc, true)
      else
        var all := delivered + [acc[8..len]];
        if ends(all) then Progress(all, acc[len..], true) else Drain(all, acc[len..], ends)
  }

  /** One read: nothing is read any more once the session is closed. */
  function Feed(p: Progress, chunk: seq<byte>, ends: seq<Payload> -> bool): Progress {
    if p.closed then p else Drain(p.delivered, p.rest + chunk, ends)
  }

  function FeedAll(p: Progress, chunks: seq<seq<byte>>, ends: seq<Payload> -> bool): Progress
    decreases |chunks|
  {
    if chunks == [] then p else FeedAll(Feed(p, chunks[0], ends), chunks[1..], ends)
  }

  /** Same payloads and same close decision, and the same unread bytes while open. */
  predicate SameOutcome(a: Progress, b: Progress) {
    a.delivered == b.delivered && a.closed == b.closed && (!a.closed ==> a.rest == b.rest)
  }

  lemma PrefixOf4(a: seq<byte>, b: seq<byte>)
    requires |a| >= 8
    ensures (a + b)[..4] == a[..4] && (a + b)[4..8] == a[4..8]
  {
  }

  /** Draining early and then again with more bytes is draining once with all of them. */
  lemma {:induction false} DrainSplit(delivered: seq<Payload>, acc: seq<byte>, more: seq<byte>,
                                      ends: seq<Payload> -> bool)
    ensures var first := Drain(delivered, acc, ends);
            SameOutcome(Feed(first, more, ends), Drain(delivered, acc + more, ends))
    decreases |acc|
  {
    if |acc| >= 8 {
      PrefixOf4(acc, more);
      var len := FrameLength(acc);
      if 8 <= len <= |acc| && acc[4..8] == RIDE {
        assert (acc + more)[8..len] == acc[8..len];
        assert (acc + more)[len..] == acc[len..] + more;
        var all := delivered + [acc[8..len]];
        if !ends(all) {
          DrainSplit(all, acc[len..], more, ends);
        }
      }
    }
  }

  /** What is left over is never a whole frame: draining it again does nothing. */
  lemma {:induction false} DrainIdempotent(delivered: seq<Payload>, acc: seq<byte>, ends: seq<Payload> -> bool)
    ensures var p := Drain(delivered, acc, ends); !p.closed ==> Drain(p.delivered, p.rest, ends) == p
    decreases |acc|
  {
    if |acc| >= 8 {
      var len := FrameLength(acc);
      if 8 <= len <= |acc| && acc[4..8] == RIDE && !ends(delivered + [acc[8..len]]) {
        DrainIdempotent(delivered + [acc[8..len]], acc[len..], ends);
      }
    }
  }

  lemma FeedSame(a: Progress, b: Progress, chunk: seq<byte>, ends: seq<Payload> -> bool)
    requires SameOutcome(a, b)
    ensures SameOutcome(Feed(a, chunk, ends), Feed(b, chunk, ends))
  {
  }

  lemma {:induction false} FeedAllSame(a: Progress, b: Progress, chunks: seq<seq<byte>>, ends: seq<Payload> -> bool)
    requires SameOutcome(a, b)
    ensures SameOutcome(FeedAll(a, chunks, ends), FeedAll(b, chunks, ends))
    decreases |chunks|
  {
    hide Drain;
    if chunks == [] {
    } else {
      FeedSame(a, b, chunks[0], ends);
      FeedAllSame(Feed(a, chunks[0], ends), Feed(b, chunks[0], ends), chunks[1..], ends);
    }
  }

  /** For any byte stream, payloads and close decision do not depend on how reads split it. */
  lemma {:induction false} ChunksDoNotMatter(delivered: seq<Payload>, acc: seq<byte>, chunks: seq<seq<byte>>,
                                             ends: seq<Payload> -> bool)
    ensures SameOutcome(FeedAll(Drain(delivered, acc, ends), chunks, ends),
                        Drain(delivered, acc + Concat(chunks), ends))
    decreases |chunks|
  {
    hide Drain;
    if chunks == [] {
      assert acc + [] == acc;
    } else {
      DrainSplit(delivered, acc, chunks[0], ends);
      FeedAllSame(Feed(Drain(delivered, acc, ends), chunks[0], ends),
                  Drain(delivered, acc + chunks[0], ends), chunks[1..], ends);
      ChunksDoNotMatter(delivered, acc + chunks[0], chunks[1..], ends);
      assert acc + Concat(chunks) == acc + chunks[0] + Concat(chunks[1..]);
    }
  }

  lemma FrameFields(payload: Payload, tail: seq<byte>)
    ensures var f := Frame(payload) + tail;
            && |f| >= 8 && FrameLength(f) == (8 + |payload|) % TWO_32 && f[4..8] == RIDE
            && f[8..8 + |payload|] == payload && f[8 + |payload|..] == tail
  {
    var len := BigEndian((8 + |payload|) % TWO_32, 4);
    Pow256();
    BigEndianInverse((8 + |payload|) % TWO_32, 4);
    var f := Frame(payload) + tail;
    assert f[..4] == len;
    assert f == len + RIDE + (payload + tail);
    assert f[4..8] == RIDE;
  }

  /** A frame byte by byte: the total length, most significant byte first, the letters of RIDE, the payload. */
  lemma FrameBytes(payload: Payload)
    requires 8 + |payload| < TWO_32
    ensures var n := 8 + |payload|;
            Frame(payload) == [n / 0x100_0000, n / 0x1_0000 % 0x100, n / 0x100 % 0x100, n % 0x100]
                              + ['R' as int, 'I' as int, 'D' as int, 'E' as int] + payload
  {
    FourBytes(8 + |payload|);
    hide BigEndian;
    assert (8 + |payload|) % TWO_32 == 8 + |payload|;
  }

  lemma FourBytes(n: nat)
    requires n < TWO_32
    ensures BigEndian(n, 4) == [n / 0x100_0000, n / 0x1_0000 % 0x100, n / 0x100 % 0x100, n % 0x100]
  {
    var a, b := n / 0x100, n / 0x100 / 0x100;
    assert a / 0x100 == n / 0x1_0000 && b / 0x100 == n / 0x100_0000;
    assert BigEndian(b / 0x100, 1) == [b / 0x100 % 0x100];
    assert BigEndian(b, 2) == [b / 0x100 % 0x100, b % 0x100];
    assert BigEndian(a, 3) == [b / 0x100 % 0x100, b % 0x100, a % 0x100];
  }

  /** A complete frame whose bytes 4 to 7 do not spell RIDE closes the session. */
  lemma MagicChecked(acc: seq<byte>, ends: seq<Payload> -> bool)
    requires |acc| >= 8 && 8 <= FrameLength(acc) <= |acc|
    requires acc[4] != 'R' as int || acc[5] != 'I' as int || acc[6] != 'D' as int || acc[7] != 'E' as int
    ensures Drain([], acc, ends) == Progress([], acc, true)
  {
    hide FrameLength;
    var m := acc[4..8];
    assert m[0] == acc[4] && m[1] == acc[5] && m[2] == acc[6] && m[3] == acc[7];
  }

  lemma DrainFrame(delivered: seq<Payload>, p: Payload, rest: seq<byte>, ends: seq<Payload> -> bool)
    requires 8 + |p| < TWO_32 && !ends(delivered + [p])
    ensures Drain(delivered, Frame(p) + rest, ends) == Drain(delivered + [p], rest, ends)
  {
    hide Frame, FrameLength, BigEndian, FromBigEndian;
    FrameFields(p, rest);
  }

  /** Framed payloads come out in order, up to the one that ends the session. */
  lemma {:induction false} DrainFrames(delivered: seq<Payload>, payloads: seq<Payload>, tail: seq<byte>,
                                       ends: seq<Payload> -> bool)
    requires forall i :: 0 <= i < |payloads| ==> 8 + |payloads[i]| < TWO_32
    requires forall i :: 0 < i <= |payloads| ==> !ends(delivered + payloads[..i])
    ensures Drain(delivered, Frames(payloads) + tail, ends) == Drain(delivered + payloads, tail, ends)
    decreases |payloads|
  {
    hide Frame, Drain, BigEndian, FromBigEndian;
    if payloads == [] {
      assert Frames(payloads) + tail == tail && delivered + payloads == delivered;
    } else {
      var p, rest := payloads[0], Frames(payloads[1..]) + tail;
      assert Frames(payloads) + tail == Frame(p) + rest;
      assert payloads[..1] == [p];
      DrainFrame(delivered, p, rest, ends);
      forall i | 0 < i <= |payloads[1..]| ensures !ends(delivered + [p] + payloads[1..][..i]) {
        assert delivered + [p] + payloads[1..][..i] == delivered + payloads[..i + 1];
      }
      DrainFrames(delivered + [p], payloads[1..], tail, ends);
      assert delivered + [p] + payloads[1..] == delivered + payloads;
    }
  }

  /** A whole frame at the front, length and magic in order. */
  predicate StartsWithFrame(acc: seq<byte>) {
    |acc| >= 8 && 8 <= FrameLength(acc) <= |acc| && acc[4..8] == RIDE
  }

  /** Behind good frames the session stays open for an unfinished one, and closes, delivering
      nothing more, if and only if the length is below 8 or a finished frame lacks the magic. */
  lemma BadFrameCloses(payloads: seq<Payload>, bad: seq<byte>, ends: seq<Payload> -> bool)
    requires forall i :: 0 <= i < |payloads| ==> 8 + |payloads[i]| < TWO_32
    requires forall i :: 0 < i <= |payloads| ==> !ends(payloads[..i])
    requires !StartsWithFrame(bad)
    ensures Drain([], Frames(payloads) + bad, ends)
            == Progress(payloads, bad, |bad| >= 8 && (FrameLength(bad) < 8 || FrameLength(bad) <= |bad|))
  {
    hide Frame, FrameLength;
    forall i | 0 < i <= |payloads| ensures !ends([] + payloads[..i]) {
      assert [] + payloads[..i] == payloads[..i];
    }
    DrainFrames([], payloads, bad, ends);
    assert [] + payloads == payloads;
  }

  /** The payload that ends the session is the last one delivered. */
  lemma EndingPayload(payloads: seq<Payload>, last: Payload, tail: seq<byte>, ends: seq<Payload> -> bool)
    requires forall i :: 0 <= i < |payloads| ==> 8 + |payloads[i]| < TWO_32
    requires 8 + |last| < TWO_32
    requires forall i :: 0 < i <= |payloads| ==> !ends(payloads[..i])
    requires ends(payloads + [last])
    ensures Drain([], Frames(payloads) + (Frame(last) + tail), ends) == Progress(payloads + [last], tail, true)
  {
    hide Frame, FrameLength, Drain;
    forall i | 0 < i <= |payloads| ensures !ends([] + payloads[..i]) {
      assert [] + payloads[..i] == payloads[..i];
    }
    DrainFrames([], payloads, Frame(last) + tail, ends);
    assert [] + payloads == payloads;
    DrainLast(payloads, last, tail, ends);
  }

  lemma DrainLast(delivered: seq<Payload>, p: Payload, rest: seq<byte>, ends: seq<Payload> -> bool)
    requires 8 + |p| < TWO_32 && ends(delivered + [p])
    ensures Drain(delivered, Frame(p) + rest, ends) == Progress(delivered + [p], rest, true)
  {
    hide Frame, FrameLength, BigEndian, FromBigEndian;
    FrameFields(p, rest);
  }

  /** Nothing handed out is ever taken back. */
  lemma {:induction false} DrainExtends(delivered: seq<Payload>, acc: seq<byte>, ends: seq<Payload> -> bool)
    ensures delivered <= Drain(delivered, acc, ends).delivered
    decreases |acc|
  {
    if |acc| >= 8 {
      var len := FrameLength(acc);
      if 8 <= len <= |acc| && acc[4..8] == RIDE && !ends(delivered + [acc[8..len]]) {
        DrainExtends(delivered + [acc[8..len]], acc[len..], ends);
      }
    }
  }

  /** One frame gives its payload back exactly when its length fits in 32 bits. */
  lemma FrameRecovered(payload: Payload, ends: seq<Payload> -> bool)
    ensures Drain([], Frame(payload), ends).delivered == [payload] <==> 8 + |payload| < TWO_32
  {
    hide Frame;
    var f := Frame(payload);
    FrameFields(payload, []);
    assert f + [] == f;
    var len := FrameLength(f);
    if 8 <= len {
      var all := [] + [f[8..len]];
      assert all[0] == f[8..len] && |all[0]| == len - 8;
      DrainExtends(all, f[len..], ends);
    }
  }

  /** Sent frames, split by reads in any way, deliver exactly the payloads sent. */
  lemma FramesDelivered(payloads: seq<Payload>, chunks: seq<seq<byte>>)
    requires forall i :: 0 <= i < |payloads| ==> 8 + |payloads[i]| < TWO_32
    requires Concat(chunks) == Frames(payloads)
    ensures FeedAll(Progress([], [], false), chunks, _ => false) == Progress(payloads, [], false)
  {
    hide Frame;
    var ends: seq<Payload> -> bool := _ => false;
    ChunksDoNotMatter([], [], chunks, ends);
    DrainFrames([], payloads, [], ends);
    assert [] + Concat(chunks) == Concat(chunks) && Frames(payloads) + [] == Frames(payloads);
    assert [] + payloads == payloads;
    assert Drain([], [], ends) == Progress([], [], false);
  }

  /** The reading loop of `ride_mode`, with the fields it updates. */
  class Session {
    var acc: seq<byte>
    var delivered: seq<Payload>
    var closed: bool
    const ends: seq<Payload> -> bool

    function State(): Progress
      reads this
    {
      Progress(delivered, acc, closed)
    }

    constructor (ends: seq<Payload> -> bool)
      ensures State() == Progress([], [], false) && this.ends == ends
    {
      acc, delivered, closed := [], [], false;
      this.ends := ends;
    }

    /** One successful read of the socket, then the inner loop. */
    method OnRead(chunk: seq<byte>)
      modifies this
      ensures State() == Feed(old(State()), chunk, ends)
    {
      if closed {
        return;
      }
      acc := acc + chunk;
      ghost var goal := Drain(delivered, acc, ends);
      while true
        invariant !closed && Drain(delivered, acc, ends) == goal
        decreases |acc|
      {
        if |acc| < 8 {
          break;
        }
        var frameLen := FrameLength(acc);
        if frameLen < 8 {
          closed := true;
          return;
        }
        if |acc| < frameLen {
          break;
        }
        if acc[4..8] != RIDE {
          closed := true;
          return;
        }
        delivered := delivered + [acc[8..frameLen]];
        acc := acc[frameLen..];
        if ends(delivered) {
          closed := true;
          return;
        }
      }
    }

    /** The outer loop over all reads of a connection. */
    method Serve(chunks: seq<seq<byte>>)
      modifies this
      ensures State() == FeedAll(old(State()), chunks, ends)
    {
      hide Drain;
      for i := 0 to |chunks|
        invariant FeedAll(State(), chunks[i..], ends) == FeedAll(old(State()), chunks, ends)
      {
        assert chunks[i..][1..] == chunks[i + 1..];
        OnRead(chunks[i]);
      }
    }
  }
}
