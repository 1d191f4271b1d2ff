/** How DESE-bis nonces travel in Configure-Requests, over whole runs of the two automata. */
module DeseBisNonce {
  import opened Buffers
  import opened DeseBis
  import opened DeseBisClass
  import opened FsmModel
  import opened FsmPair

  /** The bytes of an option list as negotiated by the automata. */
  function OptionBytes(o: Options): Bytes
    decreases o
  {
    if o == [] then [] else [o[0] as Buffers.Byte] + OptionBytes(o[1..])
  }

  /** The chaining values of one side, and of both. */
  datatype Chains = Chains(xmit: Block, recv: Block)
  datatype Both = Both(a: Chains, b: Chains)

  function Turned(n: Both): Both { Both(n.b, n.a) }

  /** States in which a Configure-Request is decoded. */
  predicate Decodes(s: State) {
    s == Stopped || s == ReqSent || s == AckRcvd || s == AckSent || s == Opened
  }

  /** A move of side a: every request it sends holds a new nonce, which starts its sending chain, and a
      request it decodes starts its receiving chain if the option has the right length. */
  predicate Builds(s: Sys, mv: Move, t: Sys, n: Both, n': Both)
    requires FsmPair.Enabled(s, mv)
  {
    && n'.b == n.b
    && (if t.a.asked != s.a.asked then OptionBytes(t.a.askedOptions) == NonceOption(n'.a.xmit)
        else n'.a.xmit == n.a.xmit)
    && n'.a.recv ==
         if mv.Deliver? && s.ba[0].Request? && Decodes(s.a.m.state)
         then TakenFrom(OptionBytes(s.ba[0].options), n.a.recv) else n.a.recv
  }

  ghost predicate BuildsRun(states: seq<Sys>, turns: seq<Turn>, chains: seq<Both>) {
    && |states| == |chains| == |turns| + 1
    && forall i | 0 <= i < |turns| ::
         && CanTake(states[i], turns[i])
         && if turns[i].atA then Builds(states[i], turns[i].move, states[i + 1], chains[i], chains[i + 1])
            else Builds(Swap(states[i]), turns[i].move, Swap(states[i + 1]), Turned(chains[i]), Turned(chains[i + 1]))
  }

  /** What a side's chaining values are: the nonce it asked with last, and the one it was told last. */
  predicate Knows(x: Side, c: Chains) {
    && (x.asked > 0 ==> OptionBytes(x.askedOptions) == NonceOption(c.xmit))
    && (x.said.Some? && |OptionBytes(x.heardOptions)| == 10 ==> c.recv == OptionBytes(x.heardOptions)[2..])
  }

  lemma AnswersDecoded(conf: Conf, m: Machine, ev: Event)
    requires ev.RecvConfReq? && (Step(conf, m, ev).acts.sca > 0 || Step(conf, m, ev).acts.scn > 0)
    ensures Decodes(m.state)
  {
  }

  lemma MoveKnows(conf: Conf, s: Sys, mv: Move, n: Both, n': Both)
    requires Consistent(s) && FsmPair.Enabled(s, mv) && Builds(s, mv, Moved(conf, s, mv), n, n')
    requires Knows(s.a, n.a) && Knows(s.b, n.b)
    ensures Knows(Moved(conf, s, mv).a, n'.a) && Knows(Moved(conf, s, mv).b, n'.b)
  {
    hide Step, OptionBytes, Packets, FsmWire.Sent, NonceOption;
    AskedLess(s);
    if mv.Deliver? && s.ba[0].Request? {
      var ev := RecvConfReq(s.ba[0].serial % 256, mv.verdict);
      var acts := Step(conf, s.a.m, ev).acts;
      if acts.sca > 0 || acts.scn > 0 {
        AnswersDecoded(conf, s.a.m, ev);
      }
    }
  }

  lemma AskedLess(s: Sys)
    requires Consistent(s)
    ensures s.a.asked < s.a.m.serial
  {
  }

  lemma {:induction false} RunKnows(confA: Conf, confB: Conf, states: seq<Sys>, turns: seq<Turn>,
                                    chains: seq<Both>, k: nat)
    requires Run(confA, confB, states, turns) && BuildsRun(states, turns, chains) && k < |states|
    ensures Knows(states[k].a, chains[k].a) && Knows(states[k].b, chains[k].b)
  {
    hide Consistent, Moved, Timely, FsmPair.Enabled, Knows, Builds;
    if k == 0 {
      NothingKnown(chains[0]);
    } else {
      RunKnows(confA, confB, states, turns, chains, k - 1);
      RunConsistent(confA, confB, states, turns, k - 1);
      var s, t, n, n' := states[k - 1], turns[k - 1], chains[k - 1], chains[k];
      assert states[k] == Take(confA, confB, s, t);
      if t.atA {
        MoveKnows(confA, s, t.move, n, n');
      } else {
        SwapKeeps(s);
        assert Swap(states[k]) == Moved(confB, Swap(s), t.move);
        MoveKnows(confB, Swap(s), t.move, Turned(n), Turned(n'));
      }
    }
  }

  lemma NothingKnown(n: Both)
    ensures Knows(START.a, n.a) && Knows(START.b, n.b)
  {
  }

  /** Whenever both automata are Opened, each side receives with the chaining value the other sends
      with, however the negotiation went. */
  lemma EndsAgreeWhenOpened(confA: Conf, confB: Conf, states: seq<Sys>, turns: seq<Turn>, chains: seq<Both>, k: nat)
    requires Run(confA, confB, states, turns) && BuildsRun(states, turns, chains) && k < |states| == |chains|
    requires states[k].a.m.state == Opened && states[k].b.m.state == Opened
    ensures chains[k].a.xmit == chains[k].b.recv && chains[k].b.xmit == chains[k].a.recv
  {
    hide Run, OptionBytes;
    RunKnows(confA, confB, states, turns, chains, k);
    Agreement(confA, confB, states, turns, k);
    OptionCarries(chains[k].a.xmit);
    OptionCarries(chains[k].b.xmit);
  }

  lemma OptionCarries(nonce: Block)
    ensures |NonceOption(nonce)| == 10 && NonceOption(nonce)[..2] == [3, 10] && NonceOption(nonce)[2..] == nonce
  {
  }

  /** So the streams that start then are streams between equal ends. */
  lemma StreamsAfterOpening(confA: Conf, confB: Conf, states: seq<Sys>, turns: seq<Turn>, chains: seq<Both>, k: nat,
                            c: Cipher, plain: seq<Bytes>, delivered: seq<bool>, i: nat)
    requires Run(confA, confB, states, turns) && BuildsRun(states, turns, chains) && k < |states| == |chains|
    requires states[k].a.m.state == Opened && states[k].b.m.state == Opened
    requires Sound(c) && i < |plain| == |delivered| && ShortGaps(0, delivered)
    requires forall j | 0 <= j < |plain| :: plain[j] != []
    ensures Stream(c, End(chains[k].a.xmit, 0), End(chains[k].b.recv, 0), plain, delivered)[i] ==
      if !delivered[i] then Lost
      else if i == 0 || delivered[i - 1] then Got(Plain(plain[i]))
      else Got(Dropped)
  {
    hide Run, Stream, ShortGaps;
    EndsAgreeWhenOpened(confA, confB, states, turns, chains, k);
    LossyStream(c, End(chains[k].a.xmit, 0), plain, delivered, i);
  }
}
