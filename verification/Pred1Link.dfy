/** Predictor-1 frames, streams of frames, and recovery by the CCP reset exchange. */
module Pred1Link {
  import opened Buffers
  import opened Pred1

  // ---- Frames ----

  /** The length field; the top bit is free to say that the frame is compressed. */
  function Head(n: nat): (h: Bytes)
    ensures |h| == 2
  {
    [(n / 256 % 128) as Byte, (n % 256) as Byte]
  }

  function Fcs(data: Bytes): bv16
  {
    Crc(Crc(INIT_FCS, Head(|data|)), data)
  }

  /** The top bit of the length field. */
  function Marked(b: Byte): Byte { b | 0x80 }

  function Unmarked(b: Byte): Byte { b & 0x7f }

  predicate IsMarked(b: Byte) { b & 0x80 != 0 }

  function Frame(g: Guess, data: Bytes): (f: Bytes)
    ensures 4 <= |f| <= |data| + 4
  {
    var h := Head(|data|);
    var c := Compressed(g, data);
    if |c| < |data| then [Marked(h[0]), h[1]] + c + Trailer(Fcs(data))
    else h + data + Trailer(Fcs(data))
  }

  datatype Received = Damaged | Good(data: Bytes, g: Guess)

  function Checked(h: Bytes, data: Bytes, trailer: Bytes, g: Guess): Received {
    if Crc(INIT_FCS, h + data + trailer) == GOOD_FCS then Good(data, g) else Damaged
  }

  /** The length a frame states. */
  function Stated(hi: Byte, lo: Byte): nat { (Unmarked(hi) as int) * 256 + lo as int }

  /** What the receiver makes of a frame. */
  function Receive(g: Guess, frame: Bytes): Received {
    if |frame| < 4 then Damaged
    else
      var h := [Unmarked(frame[0]), frame[1]];
      var n := Stated(frame[0], frame[1]);
      if IsMarked(frame[0]) then
        var d := Decompressed(g, frame[2..|frame| - 2], MAX_FRAME);
        if d.Overrun? || |d.out| != n then Damaged
        else Checked(h, d.out, frame[|frame| - 2..], d.g)
      else if n + 4 > |frame| then Damaged
      else Checked(h, frame[2..2 + n], frame[2 + n..4 + n], Absorb(g, frame[2..2 + n]))
  }

  lemma HeadReads(n: nat)
    requires n <= MAX_FRAME
    ensures var h := Head(n);
            && Unmarked(h[0]) == h[0] && !IsMarked(h[0])
            && Unmarked(Marked(h[0])) == h[0] && IsMarked(Marked(h[0]))
            && (h[0] as int) * 256 + h[1] as int == n
  {
    hide Marked, Unmarked, IsMarked;
    var hi := n / 256;
    ByteKeeps(hi);
    ByteKeeps(n % 256);
    HighBit(hi as Byte);
  }

  lemma HighBit(b: Byte)
    requires b as int <= 16
    ensures Unmarked(b) == b && !IsMarked(b) && Unmarked(Marked(b)) == b && IsMarked(Marked(b))
  {
  }

  lemma {:induction false} CrcAppend(c: bv16, a: Bytes, b: Bytes)
    ensures Crc(c, a + b) == Crc(Crc(c, a), b)
    decreases a
  {
    hide CrcByte;
    if a == [] {
      assert a + b == b;
    } else {
      assert (a + b)[1..] == a[1..] + b;
      CrcAppend(CrcByte(c, a[0]), a[1..], b);
    }
  }

  lemma TrailerChecks(data: Bytes, g: Guess)
    ensures Checked(Head(|data|), data, Trailer(Fcs(data)), g) == Good(data, g)
  {
    hide Crc, Trailer, Head;
    CrcAppend(INIT_FCS, Head(|data|), data);
    CrcAppend(INIT_FCS, Head(|data|) + data, Trailer(Fcs(data)));
    TrailerIsGood(Fcs(data));
  }

  lemma TrailerLength(c: bv16)
    ensures |Trailer(c)| == 2
  {
  }

  lemma CompressedFrame(g: Guess, data: Bytes)
    requires |data| <= MAX_FRAME && |Compressed(g, data)| < |data|
    ensures Receive(g, Frame(g, data)) == Good(data, Absorb(g, data))
  {
    hide Compressed, Decompressed, Absorb, Trailer, Fcs, Head, Checked, Marked, Unmarked, IsMarked;
    var n := |data|;
    var h, c, t := Head(n), Compressed(g, data), Trailer(Fcs(data));
    var f := Frame(g, data);
    HeadReads(n);
    TrailerLength(Fcs(data));
    TrailerChecks(data, Absorb(g, data));
    assert f == [Marked(h[0]), h[1]] + c + t;
    assert f[2..|f| - 2] == c && f[|f| - 2..] == t;
    assert [Unmarked(f[0]), f[1]] == h;
    DecompressInverts(g, data, MAX_FRAME);
  }

  lemma RawFrame(g: Guess, data: Bytes)
    requires |data| <= MAX_FRAME && |Compressed(g, data)| >= |data|
    ensures Receive(g, Frame(g, data)) == Good(data, Absorb(g, data))
  {
    hide Compressed, Decompressed, Absorb, Trailer, Fcs, Head, Checked, Marked, Unmarked, IsMarked;
    var n := |data|;
    var h, t := Head(n), Trailer(Fcs(data));
    var f := Frame(g, data);
    HeadReads(n);
    TrailerLength(Fcs(data));
    TrailerChecks(data, Absorb(g, data));
    assert f == h + data + t;
    assert f[2..2 + n] == data && f[2 + n..4 + n] == t;
    assert [Unmarked(f[0]), f[1]] == h;
  }

  /** A frame decodes to its data, and leaves the receiver in the state it leaves the sender in. */
  lemma FrameRoundTrip(g: Guess, data: Bytes)
    requires |data| <= 4096
    ensures Receive(g, Frame(g, data)) == Good(data, Absorb(g, data))
  {
    hide Frame, Receive, Absorb, Compressed;
    if |Compressed(g, data)| < |data| {
      CompressedFrame(g, data);
    } else {
      RawFrame(g, data);
    }
  }

  /** The compressor writes no more than the buffer it allocates for a frame. */
  lemma WorkingBuffer(g: Guess, data: Bytes)
    ensures 2 + |Compressed(g, data)| + 2 <= (|data| + 2) * 9 / 8 + 24
    ensures 2 + |data| + 2 <= (|data| + 2) * 9 / 8 + 24
  {
  }

  // ---- Streams ----

  predicate Sendable(frames: seq<Bytes>) {
    forall i | 0 <= i < |frames| :: |frames[i]| <= MAX_FRAME
  }

  function SentAll(g: Guess, frames: seq<Bytes>): seq<Bytes>
    requires Sendable(frames)
    decreases frames
  {
    if frames == [] then []
    else [Frame(g, frames[0])] + SentAll(Absorb(g, frames[0]), frames[1..])
  }

  function AbsorbedAll(g: Guess, frames: seq<Bytes>): Guess
    decreases frames
  {
    if frames == [] then g else AbsorbedAll(Absorb(g, frames[0]), frames[1..])
  }

  datatype Stream = Broken | Intact(frames: seq<Bytes>, g: Guess)

  function ReceivedAll(g: Guess, wire: seq<Bytes>): Stream
    decreases wire
  {
    if wire == [] then Intact([], g)
    else
      match Receive(g, wire[0])
      case Damaged => Broken
      case Good(data, g') =>
        var rest := ReceivedAll(g', wire[1..]);
        if rest.Broken? then Broken else Intact([data] + rest.frames, rest.g)
  }

  /** Any sequence of frames arrives as it was sent, and both ends stay in the same state. */
  lemma {:induction false} StreamRoundTrip(g: Guess, frames: seq<Bytes>)
    requires Sendable(frames)
    ensures ReceivedAll(g, SentAll(g, frames)) == Intact(frames, AbsorbedAll(g, frames))
    decreases frames
  {
    hide Frame, Receive, Absorb;
    if frames != [] {
      var wire := SentAll(g, frames);
      FrameRoundTrip(g, frames[0]);
      StreamRoundTrip(Absorb(g, frames[0]), frames[1..]);
      assert wire[0] == Frame(g, frames[0])
          && wire[1..] == SentAll(Absorb(g, frames[0]), frames[1..]);
      assert frames == [frames[0]] + frames[1..];
    }
  }

  // ---- Recovery ----

  /** What the sender puts into its channel: a frame (and the data it stands for), or a ResetAck. */
  datatype Item = Data(frame: Bytes, plain: Bytes) | ResetAck

  /** Both ends, the channel from sender to receiver, and the ResetReqs on their way back.
      `broken` counts the items at the head of the channel that were sent before the last loss;
      `synced` says that the receiver lost nothing since it last started afresh. */
  datatype Link = Link(
    xmit: Guess, recv: Guess, fwd: seq<Item>, requests: nat, broken: nat, synced: bool)

  const LINK_UP: Link := Link(Fresh(), Fresh(), [], 0, 0, true)

  datatype Move =
    | Send(data: Bytes)   // the sender compresses a frame
    | TakeRequest         // the sender takes a ResetReq, starts afresh and acknowledges
    | LoseRequest
    | Deliver             // the receiver takes the head of the channel
    | Lose(k: nat)        // an item of the channel is lost

  predicate Enabled(l: Link, mv: Move) {
    match mv
    case Send(data) => |data| <= MAX_FRAME
    case TakeRequest => l.requests > 0
    case LoseRequest => l.requests > 0
    case Deliver => l.fwd != []
    case Lose(k) => k < |l.fwd|
  }

  /** A damaged frame makes the receiver start afresh and ask for a reset. */
  function Taken(l: Link, item: Item): Link {
    if item.ResetAck? then l.(recv := Fresh())
    else
      var r := Receive(l.recv, item.frame);
      if r.Good? then l.(recv := r.g) else l.(recv := Fresh(), requests := l.requests + 1)
  }

  function Moved(l: Link, mv: Move): Link
    requires Enabled(l, mv)
  {
    match mv
    case Send(data) =>
      l.(xmit := Absorb(l.xmit, data), fwd := l.fwd + [Data(Frame(l.xmit, data), data)])
    case TakeRequest =>
      l.(xmit := Fresh(), requests := l.requests - 1, fwd := l.fwd + [ResetAck])
    case LoseRequest => l.(requests := l.requests - 1)
    case Deliver =>
      var t := Taken(l, l.fwd[0]);
      Link(t.xmit, t.recv, l.fwd[1..], t.requests,
           if l.broken > 0 then l.broken - 1 else 0,
           l.synced || (l.broken == 0 && l.fwd[0].ResetAck?))
    case Lose(k) =>
      l.(fwd := l.fwd[..k] + l.fwd[k + 1..],
         broken := if k >= l.broken then k else l.broken - 1,
         synced := false)
  }

  /** Replaying the items from state `g` decodes every frame to its data and ends in state `x`. */
  predicate Replays(g: Guess, items: seq<Item>, x: Guess)
    decreases items
  {
    if items == [] then g == x
    else
      match items[0]
      case ResetAck => Replays(Fresh(), items[1..], x)
      case Data(frame, plain) =>
        var r := Receive(g, frame);
        r.Good? && r.data == plain && Replays(r.g, items[1..], x)
  }

  /** A synchronised receiver replays the channel to the sender's exact state; and whatever its
      state, so does any receiver from an acknowledgement sent after the last loss on. */
  predicate Recoverable(l: Link) {
    && l.broken <= |l.fwd|
    && (l.synced ==> l.broken == 0 && Replays(l.recv, l.fwd, l.xmit))
    && (forall k | l.broken <= k < |l.fwd| && l.fwd[k].ResetAck? ::
          Replays(Fresh(), l.fwd[k + 1..], l.xmit))
  }

  lemma {:induction false} ReplaysSend(g: Guess, items: seq<Item>, x: Guess, data: Bytes)
    requires Replays(g, items, x) && |data| <= MAX_FRAME
    ensures Replays(g, items + [Data(Frame(x, data), data)], Absorb(x, data))
    decreases items
  {
    hide Frame, Receive, Absorb;
    var all := items + [Data(Frame(x, data), data)];
    if items == [] {
      FrameRoundTrip(x, data);
      assert Replays(Absorb(x, data), all[1..], Absorb(x, data));
    } else {
      assert all[1..] == items[1..] + [Data(Frame(x, data), data)];
      var g' := if items[0].ResetAck? then Fresh() else Receive(g, items[0].frame).g;
      ReplaysSend(g', items[1..], x, data);
    }
  }

  lemma {:induction false} ReplaysReset(g: Guess, items: seq<Item>, x: Guess)
    requires Replays(g, items, x)
    ensures Replays(g, items + [ResetAck], Fresh())
    decreases items
  {
    hide Frame, Receive, Absorb;
    var all := items + [ResetAck];
    if items == [] {
      assert Replays(Fresh(), all[1..], Fresh());
    } else {
      assert all[1..] == items[1..] + [ResetAck];
      var g' := if items[0].ResetAck? then Fresh() else Receive(g, items[0].frame).g;
      ReplaysReset(g', items[1..], x);
    }
  }

  lemma MoveKeepsRecoverable(l: Link, mv: Move)
    requires Recoverable(l) && Enabled(l, mv)
    ensures Recoverable(Moved(l, mv))
  {
    hide Frame, Receive, Absorb;
    var l' := Moved(l, mv);
    match mv
    case Send(data) =>
      var item := Data(Frame(l.xmit, data), data);
      if l.synced { ReplaysSend(l.recv, l.fwd, l.xmit, data); }
      forall k | l.broken <= k < |l'.fwd| && l'.fwd[k].ResetAck?
        ensures Replays(Fresh(), l'.fwd[k + 1..], l'.xmit)
      {
        assert l'.fwd[k + 1..] == l.fwd[k + 1..] + [item];
        ReplaysSend(Fresh(), l.fwd[k + 1..], l.xmit, data);
      }
    case TakeRequest =>
      if l.synced { ReplaysReset(l.recv, l.fwd, l.xmit); }
      forall k | l.broken <= k < |l'.fwd| && l'.fwd[k].ResetAck?
        ensures Replays(Fresh(), l'.fwd[k + 1..], l'.xmit)
      {
        if k < |l.fwd| {
          assert l'.fwd[k + 1..] == l.fwd[k + 1..] + [ResetAck];
          ReplaysReset(Fresh(), l.fwd[k + 1..], l.xmit);
        } else {
          assert l'.fwd[k + 1..] == [];
        }
      }
    case LoseRequest =>
    case Deliver =>
      DeliverKeepsRecoverable(l);
    case Lose(k0) =>
      forall k | l'.broken <= k < |l'.fwd| && l'.fwd[k].ResetAck?
        ensures Replays(Fresh(), l'.fwd[k + 1..], l'.xmit)
      {
        assert l'.fwd[k] == l.fwd[k + 1] && l'.fwd[k + 1..] == l.fwd[k + 2..];
      }
  }

  lemma DeliverKeepsRecoverable(l: Link)
    requires Recoverable(l) && l.fwd != []
    ensures Recoverable(Moved(l, Deliver))
  {
    hide Receive;
    var l' := Moved(l, Deliver);
    forall k | l'.broken <= k < |l'.fwd| && l'.fwd[k].ResetAck?
      ensures Replays(Fresh(), l'.fwd[k + 1..], l'.xmit)
    {
      assert l'.fwd[k] == l.fwd[k + 1] && l'.fwd[k + 1..] == l.fwd[k + 2..];
    }
    if l.broken == 0 && l.fwd[0].ResetAck? {
      assert l.fwd[0 + 1..] == l'.fwd;
    }
  }

  function After(moves: seq<Move>): Link
  {
    if moves == [] then LINK_UP
    else
      var l := After(moves[..|moves| - 1]);
      var mv := moves[|moves| - 1];
      if Enabled(l, mv) then Moved(l, mv) else l
  }

  /** In every reachable state, however many resets are outstanding. */
  lemma {:induction false} AlwaysRecoverable(moves: seq<Move>)
    ensures Recoverable(After(moves))
  {
    if moves != [] {
      hide Recoverable, Moved;
      AlwaysRecoverable(moves[..|moves| - 1]);
      var l, mv := After(moves[..|moves| - 1]), moves[|moves| - 1];
      if Enabled(l, mv) { MoveKeepsRecoverable(l, mv); }
    } else {
      assert Recoverable(LINK_UP);
    }
  }

  /** Deliver everything in flight. */
  function Drained(l: Link): Link
    decreases |l.fwd|
  {
    if l.fwd == [] then l else Drained(Moved(l, Deliver))
  }

  /** Once an acknowledgement sent after the last loss is in flight, or the receiver is already
      synchronised, delivering what is in flight makes the two ends equal. */
  lemma {:induction false} DrainingSynchronises(l: Link)
    requires Recoverable(l)
    requires l.synced || exists k | l.broken <= k < |l.fwd| :: l.fwd[k].ResetAck?
    ensures Drained(l).recv == Drained(l).xmit == l.xmit
    decreases |l.fwd|
  {
    hide Receive;
    if l.fwd != [] {
      var l' := Moved(l, Deliver);
      DeliverKeepsRecoverable(l);
      if !l'.synced {
        var k :| l.broken <= k < |l.fwd| && l.fwd[k].ResetAck?;
        assert k > 0 && l'.fwd[k - 1] == l.fwd[k];
      }
      DrainingSynchronises(l');
      assert l'.xmit == l.xmit;
    }
  }

  /** A synchronised receiver gets each frame's data and asks for no reset. */
  lemma SynchronisedDelivery(l: Link)
    requires Recoverable(l) && l.synced && l.fwd != [] && l.fwd[0].Data?
    ensures var r := Receive(l.recv, l.fwd[0].frame);
            r.Good? && r.data == l.fwd[0].plain
    ensures Moved(l, Deliver).synced && Moved(l, Deliver).requests == l.requests
  {
    hide Receive;
  }

  /** A frame that does not decode makes the receiver start afresh and ask for a reset; one that does is
      learnt, and nothing is asked for. */
  lemma DamageIsReported(l: Link)
    requires l.fwd != [] && l.fwd[0].Data?
    ensures var r, l' := Receive(l.recv, l.fwd[0].frame), Moved(l, Deliver);
      && l'.fwd == l.fwd[1..] && l'.xmit == l.xmit
      && l'.recv == (if r.Good? then r.g else Fresh())
      && l'.requests == (if r.Good? then l.requests else l.requests + 1)
  {
    hide Receive;
  }

  /** Any request that reaches the sender mends the link: once what is then in flight has arrived, with the
      acknowledgement behind it, both ends are fresh again. */
  lemma RequestMends(l: Link)
    requires Recoverable(l) && l.requests > 0
    ensures var d := Drained(Moved(l, TakeRequest)); d.recv == d.xmit == Fresh() && d.fwd == []
  {
    hide Receive, Recoverable;
    var l' := Moved(l, TakeRequest);
    MoveKeepsRecoverable(l, TakeRequest);
    assert l'.fwd[|l.fwd|] == ResetAck;
    assert l'.broken <= |l.fwd| by { BrokenFits(l); }
    DrainingSynchronises(l');
    DrainedIsEmpty(l');
  }

  lemma BrokenFits(l: Link)
    requires Recoverable(l)
    ensures l.broken <= |l.fwd|
  {
  }

  lemma {:induction false} DrainedIsEmpty(l: Link)
    ensures Drained(l).fwd == []
    decreases |l.fwd|
  {
    hide Receive;
    if l.fwd != [] {
      DrainedIsEmpty(Moved(l, Deliver));
    }
  }
}
