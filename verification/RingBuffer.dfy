/**
 Messages of any sizes from a ring buffer: each one is written behind the one before it, or at the front when there
 might not be room for the longest. Old history is overwritten all the time; the encoder notices and keeps less of it.
 */
module RingBuffer {
  import opened Bytes
  import opened StreamDecoder
  import FC = FastCompressor
  import FS = FastStream

  /** The encoder's overlap test: what a source that was just written over the history leaves of it is what the encoder
      keeps, unless the source reaches the end of the history. */
  lemma OverlapNoticed(w: World, source: nat, data: seq<byte>)
    requires w.safe == w.reach.kept <= w.reach.end || w.safe == w.reach.kept == 0
    ensures w.reach.Keeps(source, |data|) <= w.Spared(source, source + |data|) <==>
      !(w.reach.kept >= 4 && source < w.reach.end <= source + |data|)
  {}

  /** A message that replaces all the history there is, from its first byte on: none of what is kept is left. */
  lemma OverlapMissed(w: World, data: seq<byte>)
    requires w.safe == w.reach.kept == w.reach.end && 4 <= w.reach.kept <= |data|
    ensures w.reach.Keeps(0, |data|) == w.reach.kept && w.Spared(0, |data|) == 0
  {}

  function Concat(msgs: seq<seq<byte>>): seq<byte> {
    if msgs == [] then [] else Concat(msgs[..|msgs| - 1]) + msgs[|msgs| - 1]
  }

  /** Where the next message goes. */
  function Position(ring: nat, max: nat, msgs: seq<seq<byte>>): (p: nat)
    ensures max <= ring ==> p + max <= ring
  {
    if msgs == [] then 0
    else
      var p := Position(ring, max, msgs[..|msgs| - 1]) + |msgs[|msgs| - 1]|;
      if p + max >= ring then 0 else p
  }

  /** Every message is written to the ring and sent; the decoder lines them up. */
  function Events(ring: nat, max: nat, msgs: seq<seq<byte>>): seq<Event> {
    if msgs == [] then []
    else
      var k := |msgs| - 1;
      var p, n := Position(ring, max, msgs[..k]), |msgs[k]|;
      Events(ring, max, msgs[..k]) + [Write(p, msgs[k]), Send(p, n, |Concat(msgs[..k])|)]
  }

  /** All messages are no longer than `max`, and both memories have room. */
  ghost predicate Room(ring: nat, max: nat, msgs: seq<seq<byte>>, sizeE: nat, sizeD: nat) {
    && (forall m :: m in msgs ==> |m| <= max) && max <= FS.MAX_INPUT_SIZE && 2 * max < ring <= sizeE
    && |Concat(msgs)| <= sizeD
  }

  /** Between two messages: everything has arrived in a line, and all the history the encoder keeps is in the ring. */
  ghost predicate Lined(w: World, ring: nat, max: nat, pos: nat, all: seq<byte>) {
    && w.sent == all && |all| <= |w.memD| && w.memD[..|all|] == all
    && w.segs == (if all == [] then NoSegments() else Segments(|all|, |all|, FS.NULL, 0))
    && w.safe == w.reach.kept <= |all| && w.reach.kept <= KB64
    && (if w.reach.kept == 0 then w.reach.end == FS.NULL
        else w.reach.kept <= w.reach.end && pos == if w.reach.end + max >= ring then 0 else w.reach.end)
  }

  /** One message. */
  lemma OneMessage(w: World, ring: nat, max: nat, pos: nat, all: seq<byte>, m: seq<byte>)
    requires Lined(w, ring, max, pos, all) && |m| <= max <= FS.MAX_INPUT_SIZE && 2 * max < ring <= |w.memE|
    requires pos + max <= ring && |all| + |m| <= |w.memD|
    ensures w.Allows(Write(pos, m)) && w.After(Write(pos, m)).Allows(Send(pos, |m|, |all|))
    ensures var v := w.After(Write(pos, m)).After(Send(pos, |m|, |all|));
      && Lined(v, ring, max, if pos + |m| + max >= ring then 0 else pos + |m|, all + m)
      && |v.memE| == |w.memE| && |v.memD| == |w.memD|
  {
    var w1, n := w.After(Write(pos, m)), |m|;
    OverlapNoticed(w, pos, m);
    assert w1.memE[pos..pos + n] == m;
    var v := w1.After(Send(pos, n, |all|));
    assert v.memD[..|all| + n] == w.memD[..|all|] + m;
  }

  lemma OneMore(w: World, events: seq<Event>, e: Event)
    requires Permitted(w, events) && Replay(w, events).Allows(e)
    ensures Permitted(w, events + [e]) && Replay(w, events + [e]) == Replay(w, events).After(e)
  {
    hide World.Allows, World.After;
    var all := events + [e];
    assert all[..|events|] == events;
    forall k | 0 <= k < |all| ensures Replay(w, all[..k]).Allows(all[k]) {
      if k < |events| {
        assert all[..k] == events[..k] && all[k] == events[k];
      }
    }
  }

  /** Any number of messages: every event is allowed when it comes. */
  lemma {:induction false} RingPermitted(memE: seq<byte>, memD: seq<byte>, ring: nat, max: nat, msgs: seq<seq<byte>>)
    requires Room(ring, max, msgs, |memE|, |memD|)
    ensures Permitted(Start(memE, memD), Events(ring, max, msgs))
    ensures var v := Replay(Start(memE, memD), Events(ring, max, msgs));
      && Lined(v, ring, max, Position(ring, max, msgs), Concat(msgs)) && |v.memE| == |memE| && |v.memD| == |memD|
    decreases |msgs|
  {
    hide World.Allows, World.After, Permitted, Lined, Replay, Room, Concat, Position, Events;
    var w := Start(memE, memD);
    if msgs == [] {
      AtStart(memE, memD, ring, max);
    } else {
      var k := |msgs| - 1;
      var rest, m, p := msgs[..k], msgs[k], Position(ring, max, msgs[..k]);
      RoomForLast(ring, max, msgs, |memE|, |memD|);
      RingPermitted(memE, memD, ring, max, rest);
      var ev, v := Events(ring, max, rest), Replay(w, Events(ring, max, rest));
      OneMessage(v, ring, max, p, Concat(rest), m);
      OneMore(w, ev, Write(p, m));
      OneMore(w, ev + [Write(p, m)], Send(p, |m|, |Concat(rest)|));
    }
  }

  lemma RoomForLast(ring: nat, max: nat, msgs: seq<seq<byte>>, sizeE: nat, sizeD: nat)
    requires Room(ring, max, msgs, sizeE, sizeD) && msgs != []
    ensures var k := |msgs| - 1;
      var rest, m, p := msgs[..k], msgs[k], Position(ring, max, msgs[..k]);
      && Room(ring, max, rest, sizeE, sizeD) && |m| <= max <= FS.MAX_INPUT_SIZE && 2 * max < ring <= sizeE
      && p + max <= ring && Concat(msgs) == Concat(rest) + m && |Concat(rest)| + |m| <= sizeD
      && Position(ring, max, msgs) == (if p + |m| + max >= ring then 0 else p + |m|)
      && Events(ring, max, msgs) == Events(ring, max, rest) + [Write(p, m)] + [Send(p, |m|, |Concat(rest)|)]
  {
    var k := |msgs| - 1;
    assert msgs[k] in msgs;
    var ev, a, b := Events(ring, max, msgs[..k]), Write(Position(ring, max, msgs[..k]), msgs[k]),
      Send(Position(ring, max, msgs[..k]), |msgs[k]|, |Concat(msgs[..k])|);
    assert ev + [a, b] == ev + [a] + [b];
  }

  lemma AtStart(memE: seq<byte>, memD: seq<byte>, ring: nat, max: nat)
    ensures Events(ring, max, []) == [] && Position(ring, max, []) == 0 && Concat([]) == []
    ensures Permitted(Start(memE, memD), []) && Replay(Start(memE, memD), []) == Start(memE, memD)
    ensures Lined(Start(memE, memD), ring, max, 0, [])
  {}

  /** Messages through a ring buffer, of more than twice the longest one: all arrive, in order. */
  method RingRoundTrip(memE: array<byte>, memD: array<byte>, packet: array<byte>, ring: nat, max: nat,
                       msgs: seq<seq<byte>>, acceleration: int, slots: nat, hash32: seq<byte> -> nat,
                       hash16: seq<byte> -> nat)
    requires memE != packet && memD != packet && memD != memE && (forall s :: hash32(s) < slots && hash16(s) < slots)
    requires Room(ring, max, msgs, memE.Length, memD.Length) && FC.CompressBound(max) <= packet.Length
    modifies memE, memD, packet
    ensures |Concat(msgs)| <= memD.Length && memD[..|Concat(msgs)|] == Concat(msgs)
  {
    hide Permitted, Replay, Room, Events;
    RingPermitted(memE[..], memD[..], ring, max, msgs);
    ghost var w := Start(memE[..], memD[..]);
    var events := Events(ring, max, msgs);
    var enc, dec, results, packets := Run(memE, memD, packet, events, acceleration, slots, hash32, hash16);
    if |results| < |events| {
      AllShort(ring, max, msgs, |results|, memE.Length, memD.Length);
      assert false;
    }
    assert events[..|results|] == events;
    assert memD[..|Concat(msgs)|] == memD[..][..|Concat(msgs)|];
  }

  /** Every message fits into a packet for the longest one. */
  lemma {:induction false} AllShort(ring: nat, max: nat, msgs: seq<seq<byte>>, k: nat, sizeE: nat, sizeD: nat)
    requires Room(ring, max, msgs, sizeE, sizeD) && k < |Events(ring, max, msgs)|
    ensures var e := Events(ring, max, msgs)[k]; e.Send? ==> FC.CompressBound(e.n) <= FC.CompressBound(max)
    decreases |msgs|
  {
    hide Room, Concat, Position, Events;
    if msgs == [] {
      AtStart([], [], ring, max);
      assert false;
    } else {
      RoomForLast(ring, max, msgs, sizeE, sizeD);
      var rest := msgs[..|msgs| - 1];
      if k < |Events(ring, max, rest)| {
        AllShort(ring, max, rest, k, sizeE, sizeD);
      }
    }
  }
}
