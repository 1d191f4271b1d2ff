# A verified model of mpdx

mpdx is a PPP daemon. Around its netgraph plumbing it implements protocol machinery whose correctness is
a statement about whole runs: the negotiation automaton, codecs that keep state on both ends, a script
interpreter, and allocators. This project models that machinery in Dafny and proves it.

## What is modelled

Where the program updates structures in place the model has a class or an array, proved against a
specification on values; the theorems are then about the specification.

* **Negotiation automaton** (`FsmModel`, `FsmClass`, `Rfc1661`, `FsmLayers`, `FsmBounds`, `FsmCounters`,
  `FsmOrder`). One event is a
  function from a machine to a machine and a trace of actions; the class `Fsm` performs each event on its
  fields, and its invariant says that the fields are where its whole event history leads.
* **Two automata over lossy channels** (`FsmWire`, `FsmPair`, `FsmAlias`). Each side reacts to events and to
  the packets at the head of its channel; packets may be lost anywhere. Request numbers are kept without
  wrap-around beside the 8-bit identifiers, so that aliasing can be stated.
* **LCP phases** (`LcpPhase`) driven by the automaton's announcements and by authentication results.
* **Options** (`FsmOptions`, `LcpOptions`, `LcpDecode`, `LcpAdmit`): writing and extracting options, the three
  answer buffers, and the verdicts LCP passes on a peer's request.
* **L2TP attributes** (`L2tpAvp`, `L2tpCodec`, `L2tpOctets`; sections 4.1 and 4.3 of RFC 2661). The hash is any function
  to 16 bytes.
* **Predictor-1** (`Pred1`, `Pred1Guess`, `Pred1Class`, `Pred1Link`; RFC 1978), its frames with the FCS of appendix C of
  RFC 1662, and the reset handshake of CCP over a lossy channel.
* **DESE-bis** (`DeseBis`, `DeseBisOctets`, `DeseBisClass`, `DeseBisNonce`; section 6 of RFC 2419). The block
  cipher is any pair of functions with D(E(x)) = x. Nonces travel in the Configure-Requests of the two automata.
* **Chat scripts** (`ChatMatch`, `ChatMatcher`, `ChatExpand`, `ChatText`, `ChatFrames`, `ChatFlow`, `ChatEngine`): the
  matcher, variables, and the bookkeeping of pending events across calls and returns. The program stores how many
  frames to pop; the specification stores the call stack of the definition, and the class is proved to keep the two
  in step.
* **Packet filter numbers and filter compiler** (`IfaceAcl`, `IfaceTables`, `IfaceFilter`). The compiler's output is
  given a meaning by a parser for the expression grammar: operators of one precedence, associating to the left.
* **Address leases** (`IpPool`, `IpcpLease`, `IpcpLedger`, `IpcpAnswers`) over any interleaving of many bundles.

`Buffers` holds the byte-buffer vocabulary.

## Findings

What the proofs turned up about the code, each with the exact condition where there is one.

* The automaton departs from the table in section 4.1 of RFC 1661 in a closed list of places
  (`Rfc1661.Amended`): this-layer-started also on Open in Closed and on Configure-Request in Stopped;
  this-layer-finished also on Down in Closing; on Configure-Request in Opened with the failure budget spent,
  this-layer-down is called twice and a request already sent precedes the Terminate-Request; a code-reject is
  also sent in Initial and Starting; a passive automaton leaves out this-layer-finished on every RXJ- in Stopped,
  Req-Sent, Ack-Rcvd and Ack-Sent, where the table makes the exception for TO- only. Answers with a wrong id are
  discarded. The comment above the answer handlers says the contents of an Ack should be
  compared with the request; the code does not, and agreement is proved without it.
* Going down in Stopping unconfigures a layer that was unconfigured when Stopping was entered (src/fsm.c:351-358);
  `FsmOrder.MayTell` has this one exception.
* Agreement needs one thing of the channels: an Ack that is accepted must answer the last request, not an earlier
  one with the same 8-bit identifier. An Ack at most 256 requests old always does; `FsmAlias` has a run that ends
  with both sides Opened and no agreement.
* A hidden L2TP value of 1016 or 1017 bytes passes the packer's check and sets a reserved bit. If the attribute is
  mandatory the receiver refuses the packet; if not it skips 7 bytes and reads the hidden bytes as attributes
  (`L2tpAvp.PackedMeans`).
* An empty plaintext gets through DESE-bis only if the low byte of its sequence number is 1 to 8, because the padding
  correction looks at the header byte in front of it.
* KMP table entries are 16 bits wide. `ChatMatcher.RightIffHarmless` says for which tables matching is right; a run
  of more than 65536 equal characters and a different one is missed (`ChatMatcher.RunThenOther`), a run alone never.
* A chat variable with a name of 99 characters can be set but not read: in braces it is not expanded, and without
  them the first 98 characters are taken for the name.
* The loop that should remove the match variables of the match before removes nothing: it compares names kept without
  the "$" with "$matchedString" (`ChatExpand.NothingPurged`, src/chat.c:1535). "$matchedString3" of an earlier
  regular expression is still set after a match with fewer groups.
* A chat event's set name is expanded once more when the event fires, after the match variables have been set; a name
  that then differs leaves the fired event pending. Labels of fired events are cut to 31 characters.
* Numbering reserves nothing for a table that comes with a number: those kept over interface-down (src/iface.c:570) and
  static ones (src/auth.c:2407), already on the first interface-up. Their numbers are given to other tables under
  the condition of `IfaceTables.GivenExactly`.
* A filter all of whose rules are malformed matches every packet; one with a well-formed rule and a malformed last one
  is a syntax error and matches nothing.
* A lease is lost iff the address recorded when IPCP is unconfigured is not the one leased. With pretend-ip that is so
  iff the last address asked for or offered since Opened was another; without, iff a pool holds 0.0.0.0, that is leased,
  and negotiation moves it (`IpcpLedger.SessionExactly`). Leases are lost too when RADIUS changes the authorization of
  a session whose address came from the pool it had chosen. A pool that has run out makes IPCP offer the address of its
  previous session, which somebody else holds if it is of that pool.
* A Configure-Ack is the request octet for octet only up to 256 octets and 100 options.

## Model

| member | source | states |
|---|---|---|
| `FsmClass.Fsm.constructor` | src/fsm.c:137-155 | A new automaton is in Initial with request id 1, counters 0, timer stopped, nothing configured, and is valid: its fields are where the empty run leads. |
| `FsmClass.Fsm.OpenEvent` | src/fsm.c:262-306 | Open changes fields and performs actions exactly as the run semantics says for every state, and the automaton stays where its event history leads. |
| `FsmClass.Fsm.UpEvent` | src/fsm.c:313-330 | The same for Up: only Initial and Starting react; Starting sets all three counters and sends a request. |
| `FsmClass.Fsm.DownEvent` | src/fsm.c:337-364 | The same for Down, including the extra this-layer-finished in Closing. |
| `FsmClass.Fsm.CloseEvent` | src/fsm.c:371-405 | The same for Close. |
| `FsmClass.Fsm.TimeoutEvent` | src/fsm.c:482-518 | The same for the restart timer: resend while the restart counter is positive, give up otherwise. |
| `FsmClass.Fsm.RecvConfigReq` | src/fsm.c:556-647 | The same for Configure-Request, given what decoding left in the answer buffers: answers, or fails when the failure budget is spent. |
| `FsmClass.Fsm.ConfigReq` | src/fsm.c:556-647 | The body of the same: Now() becomes the prescribed outcome for every state, verdict and failure count. |
| `FsmClass.Fsm.IdMatches` | src/fsm.c:658-663 | An answer is looked at exactly when its id is that of the last request, modulo 256. |
| `FsmClass.Fsm.RecvConfigAck` | src/fsm.c:654-705 | The same for Configure-Ack; answers with another id change nothing. |
| `FsmClass.Fsm.RecvConfigNak` | src/fsm.c:710-767 | The same for Configure-Nak, with the Max-Configure budget. |
| `FsmClass.Fsm.RecvConfigRej` | src/fsm.c:774-837 | The same for Configure-Reject. |
| `FsmClass.Fsm.RecvTerminateReq` | src/fsm.c:842-874 | The same for Terminate-Request. |
| `FsmClass.Fsm.RecvTerminateAck` | src/fsm.c:881-907 | The same for Terminate-Ack. |
| `FsmClass.Fsm.RecvCodeReject` | src/fsm.c:914-961 | The same for Code-Reject, fatal or not. |
| `FsmClass.Fsm.RecvProtoReject` | src/fsm.c:968-1003 | The same for Protocol-Reject; the layer is asked only in Opened. |
| `FsmClass.Fsm.RecvEchoRequest` | src/fsm.c:1191-1211 | The same for Echo-Request, with the magic number check before it. |
| `FsmClass.Fsm.RecvUnknownCode` | src/fsm.c:1493-1500 | A code that is not known draws a Code-Reject and no change of state. |
| `FsmClass.Fsm.RecvOther` | src/fsm.c:1366-1389 | The remaining codes change nothing unless the magic number is wrong, which fails the automaton. |
| `FsmClass.Fsm.FailureEvent` | src/fsm.c:1011-1069 | A failure raised by the layer has the prescribed effect in every state. |
| `FsmClass.Fsm.ResetRequestEvent` | src/ccp.c:617-636 | Sending a reset request draws an identifier and changes nothing else of the automaton (src/ecp.c:567 likewise). |
| `FsmClass.Fsm.Fail` | src/fsm.c:1011-1069 | The body of the same: the outcome of failing from any point of an event. |
| `FsmClass.Fsm.NewState` | src/fsm.c:176-205 | Announces the change, then assigns; the timer is stopped in the states that need none. |
| `FsmClass.Fsm.InitCounters` | src/fsm.c:525-547 | The three counters take their configured maxima. |
| `FsmClass.Fsm.NextId` | src/fsm.c:412-425 | Identifiers are drawn in order; the 8-bit id is the serial number modulo 256. |
| `FsmClass.Fsm.SendConfigReq` | src/fsm.c:412-425 | A request draws the next identifier, charges Max-Configure and the restart counter, and starts the timer. |
| `FsmClass.Fsm.SendAnswer` | src/fsm.c:452-475 | An Ack is free; a Nak or Reject charges the failure budget. |
| `Rfc1661.StepFollows` | src/fsm.c:261-905 | Every event in every state moves to the state of the governing cell of the table in section 4.1 of RFC 1661 and performs exactly its actions (counted), up to the listed extra and missing ones; the restart timer runs iff the state is Closing to Ack-Sent. |
| `Rfc1661.RunFollows` | src/fsm.c:261-905 | The same for every event of every run from the start. |
| `Rfc1661.ConfReqFollows` | src/fsm.c:556-647 | Configure-Request follows RCR+ / RCR- or, with the failure budget spent, RXJ-. |
| `Rfc1661.ConfNakFollows` | src/fsm.c:710-767 | Configure-Nak follows RCN or, with the Max-Configure budget spent, RXJ-; a wrong id is discarded. |
| `Rfc1661.ConfRejFollows` | src/fsm.c:774-837 | Configure-Reject follows RCN or, with the budget spent, RXJ-; a wrong id is discarded. |
| `Rfc1661.ConfAckFollows` | src/fsm.c:654-705 | Configure-Ack follows RCA; a wrong id is discarded. |
| `Rfc1661.TimeoutFollows` | src/fsm.c:482-518 | A timeout follows TO+ while the restart counter is positive and TO- after. |
| `Rfc1661.CloseFollows` | src/fsm.c:371-405 | Close follows its row exactly. |
| `Rfc1661.DownFollows` | src/fsm.c:337-364 | Down follows its row, plus this-layer-finished in Closing. |
| `Rfc1661.AdminFollows` | src/fsm.c:262-330 | Open and Up follow their rows, plus this-layer-started on Open in Closed. |
| `Rfc1661.FailureFollows` | src/fsm.c:1011-1069 | A failure is the RXJ- event of the table, without its this-layer-finished in passive mode. |
| `FsmLayers.StepSound` | src/fsm.c:175-405 | Layer bookkeeping is kept by every event: configured iff Req-Sent to Opened, up iff Opened, timer iff Closing to Ack-Sent, lower layer requested iff not Initial, Closed or Stopped (passive mode off), counters within limits; Configure and LayerUp never run when already in effect. |
| `FsmLayers.RunSound` | src/fsm.c:175-1069 | The same in every reachable state of every run. |
| `FsmLayers.PassiveKeepsLowerLayer` | src/fsm.c:1011-1069 | A run after which Initial still has its lower layer requested iff the automaton is passive: the condition above is needed. |
| `FsmBounds.StepCosts` | src/fsm.c:709-837 | An event that stays in Req-Sent/Ack-Sent pays for every request it sends out of the Max-Configure and restart budgets and for every refusal out of the failure budget. |
| `FsmBounds.BargainingIsBounded` | src/fsm.c:411-547 | Whatever the peer does, a run that stays in Req-Sent/Ack-Sent sends no more requests than the two budgets allow and no more Naks and Rejects than the failure budget. |
| `FsmBounds.RefusalsArePaid` | src/fsm.c:452-475 | In every sound state every event either pays for each Nak and Reject out of the failure budget, or sets the budget afresh and pays out of the new one. |
| `FsmBounds.RefusalsBetweenResets` | src/fsm.c:452-547 | Between two settings of the failure budget a run through any states sends at most as many Naks and Rejects as the budget stood at, never more than maxfailure. |
| `FsmBounds.FailureIsTheBudgetLeft` | src/fsm.c:525-547 | In every reachable state the failure counter is the budget last set less the refusals sent since. |
| `FsmBounds.RequestsLeftBounded` | src/fsm.c:525-547 | From freshly set counters that is at most 2*maxconfig - 1 requests. |
| `FsmBounds.BoundIsAttained` | src/fsm.c:709-767 | There is a run that sends exactly that many: the bound cannot be improved. |
| `FsmBounds.TimeoutsGiveUp` | src/fsm.c:482-518 | With the timer running, restart + 1 timeouts alone lead to Closed or Stopped. |
| `FsmCounters.StepCounts` | src/fsm.c:411-547 | After every event in every state each counter, and the number of identifiers drawn, is told by the actions performed: the restart counter is 0 after zero-restart-count, Max-Terminate less the Terminate-Request sent on the way down, Max-Configure less the request sent where negotiation starts or goes on, and otherwise what it was less what was sent; the two budgets are renewed only where negotiation starts or our request is acknowledged. |
| `FsmCounters.PeerLeaves` | src/fsm.c:865-873 | After a Terminate-Request in Opened the restart counter is 0, and the first timeout stops the automaton and lets the lower layer go. |
| `FsmCounters.FirstTermRequest` | src/fsm.c:371-405 | Whatever sends a first Terminate-Request leads to Closing or Stopping with Max-Terminate - 1 retries left. |
| `FsmCounters.TerminationIsBounded` | src/fsm.c:482-518 | After that at most Max-Terminate - 1 more go out, whatever happens in Closing and Stopping; timeouts alone send exactly that many, and the next one ends it. |
| `FsmCounters.FromTheStart` | src/fsm.c:371-1069 | The same after any run from the start. |
| `FsmCounters.EchoReplies` | src/fsm.c:1191-1211 | An echo request with the right magic number is answered in Opened, under its own identifier, and nothing else happens. |
| `FsmCounters.NoOtherReplies` | src/fsm.c:1191-1211 | No other event sends an echo reply. |
| `FsmOrder.StepInOrder` | src/fsm.c:261-1069 | In every event of every reachable state things happen in due order: layers above are configured first and unconfigured last, come up in Opened and go down before new requests and after Terminate packets; the layer below is asked for before anything is sent and let go when no longer wanted; counters are set after the change of state; requests go out in states that await their answer, answers before the change of state. |
| `FsmWire.StepWired` | src/fsm.c:411-475 | The packets an event sends, in order and with their identifiers, are determined by its action counts; it announces exactly the state change it makes. |
| `FsmWire.StepDrawn` | src/fsm.c:654-705 | Counting on an acknowledgement begins only with a Configure-Ack for the last identifier drawn and ends when another is drawn. |
| `FsmWire.FailWired` | src/fsm.c:1011-1069 | A failure adds to the packets of an event one Terminate-Request in Opened and nothing elsewhere. |
| `FsmPair.AskerMoves` | src/fsm.c:555-705 | For the side that asks, every event keeps the dialogue invariant: requests in flight are ordered, and an accepted Ack is for the last of them. |
| `FsmPair.AnswererMoves` | src/fsm.c:555-705 | Events other than receiving a request keep it for the side that answers. |
| `FsmPair.AnswererHears` | src/fsm.c:555-647 | Receiving a request keeps it: its answer is the only one in flight for that number. |
| `FsmPair.LossKeepsDialogue` | src/fsm.c:211-241 | Losing any packet keeps it. |
| `FsmPair.MoveKeepsConsistent` | src/fsm.c:555-905 | Any move of either side or channel keeps both dialogues, if a Configure-Ack it is about to accept answers the last request, not one with the same 8-bit identifier. |
| `FsmPair.YoungAnswersAreTimely` | src/fsm.c:658-663 | An answer at most 256 identifiers old is always timely in this sense. |
| `FsmPair.RunConsistent` | src/fsm.c:555-905 | Hence they hold in every reachable state. |
| `FsmPair.Agreement` | src/fsm.c:555-705 | Whenever both sides are Opened, each one's last Configure-Request is the last one the other received, was answered with an Ack, with the same options on both sides, and no request or answer is in flight. |
| `FsmPair.OneSidedAgreement` | src/fsm.c:654-705 | A side in Ack-Rcvd or Opened has had its last request acknowledged by the peer, which has heard none since. |
| `FsmAlias.AliasingBreaksAgreement` | src/fsm.c:654-663 | Without that condition there is a run from the start, of lost requests and one stale Ack, after which both sides are Opened while the peer has heard request 1 and not request 257. |
| `FsmAlias.StaleAckOpens` | src/fsm.c:658-705 | In Ack-Sent the Ack of request 1 opens the automaton whenever the number of its last request is 1 modulo 256. |
| `LcpPhase.EventKeepsPhase` | src/lcp.c:307-396 | Every automaton event keeps the phase the one its state calls for and trips no assertion. |
| `LcpPhase.AuthKeepsPhase` | src/lcp.c:512-524 | So does the result of an authentication that is running, whether or not the link then joins its bundle. |
| `LcpPhase.PhaseTracksState` | src/lcp.c:306-505 | In every reachable state: Dead iff Initial or Starting, Terminate iff Closing or Stopping, Authenticate or Network iff Opened, else Establish; the link is in its bundle iff in Network; no assertion of the phase machine has failed. |
| `LcpPhase.NetworkExactly` | src/lcp.c:464-524 | Network begins just when a running authentication succeeds and the bundle takes the link, and lasts until the automaton leaves Opened. |
| `LcpPhase.LateSuccessAborts` | src/lcp.c:402-439 | A reported success keeps the machine sane iff an authentication is running. |
| `LcpPhase.StepLegal` | src/lcp.c:307-393 | No event makes the automaton announce a change of state that the callback does not expect. |
| `LcpPhase.LcpState.NewPhase` | src/lcp.c:403-505 | The phase change and what leaving and entering do, as specified, with the transition assertion. |
| `LcpPhase.LcpState.NewStateCallback` | src/lcp.c:307-396 | The callback performs the phase change prescribed for the pair of states. |
| `FsmOptions.ConfValue` | src/fsm.c:1525-1557 | Appends type, length and data at a position of a buffer and nothing else. |
| `FsmOptions.ExtractOptions` | src/fsm.c:1564-1584 | The loop takes exactly the options of the specification off the packet. |
| `FsmOptions.ExtractEncoded` | src/fsm.c:1564-1584 | Extraction gives back exactly the options written, if there are at most the maximum. |
| `FsmOptions.EncodeExtracted` | src/fsm.c:1564-1584 | For any packet, the options extracted followed by the garbage are the packet. |
| `FsmOptions.NoGarbage` | src/fsm.c:1573-1582 | A packet leaves no garbage iff it is written from at most that many options. |
| `FsmOptions.GarbageIsStuck` | src/fsm.c:1573-1582 | What is left of any packet cannot be taken as an option, unless the maximum has been taken. |
| `FsmOptions.EncodedOctets` | src/fsm.c:1525-1557 | The octets of an option: kind, length with these two, data. |
| `FsmOptions.PutAllFits` | src/fsm.c:1619-1660 | Collecting options in a 256-octet buffer loses nothing iff they fit. |
| `FsmOptions.PutAllKeepsOrder` | src/fsm.c:1619-1660 | What is collected is always some of the options, whole and in order. |
| `FsmOptions.AnswerBuffer.Add` | src/fsm.c:1619-1660 | An option is appended if it fits and dropped otherwise. |
| `LcpOptions.SuggestionsAreAcceptable` | src/lcp.c:854-1165 | A value suggested in a Nak is acknowledged when the peer adopts it; it is of the same type and at most an octet longer. |
| `LcpOptions.Partition` | src/lcp.c:823-1249 | Every option of a request lands in exactly one of Ack, Nak and Reject; Acks and Rejects are options of the request in order. |
| `LcpOptions.AckedWhole` | src/fsm.c:600-607 | A request is acknowledged iff every option taken from it is acceptable, and then the Ack is the request to the octet iff the request is at most 256 octets and holds no garbage. |
| `LcpOptions.RejectInOrder` | src/fsm.c:614-615 | A Reject is made of options of the request, unchanged and in order, each one not acceptable, whatever did not fit the buffer. |
| `LcpOptions.FirstAnswer` | src/fsm.c:600-620 | A peer that leaves out what was rejected has nothing rejected again. |
| `LcpOptions.SecondAnswer` | src/fsm.c:600-620 | A peer that adopts the suggestions made has every option acceptable. |
| `LcpOptions.ThirdRequestIsAcked` | src/fsm.c:555-647 | Negotiation with a peer that heeds answers converges: its third request at the latest is acknowledged whole (for requests with an octet to spare for each option). |
| `LcpDecode.LcpDecoder.DecodeRequest` | src/lcp.c:800-1249 | The loop over the options leaves in the three buffers what the specification of the answer says, and records what acknowledged options tell about the peer. |
| `LcpDecode.LcpDecoder.DecodeOption` | src/lcp.c:823-1249 | One option adds itself, or its correction, to exactly the buffer of its verdict. |
| `LcpDecode.LcpDecoder.DecodeAuth` | src/lcp.c:912-996 | Authentication protocols: acceptable ones are acknowledged, else the first acceptable one of the preference list is suggested, else the option is rejected. |
| `LcpDecode.LcpDecoder.DecodeMagic` | src/lcp.c:1140-1165 | Our own magic number coming back is answered with its complement. |
| `LcpDecode.MruOnlyShrinks` | src/lcp.c:854-872 | The MRU recorded is our limit or the least one the peer asked for. |
| `LcpDecode.AuthIsAcceptable` | src/lcp.c:974-983 | The authentication recorded is one we accept. |
| `LcpAdmit.Verdicts` | src/lcp.c:823-1249 | The verdict on every option, told from its octets: admitted by length, number, multilink, short sequence, compression, authentication accepted, a magic number other than ours; refused ones are corrected or rejected as listed, with the octets of the correction. |
| `LcpAdmit.RequestAnswered` | src/lcp.c:823-1249 | A request is acknowledged iff every option taken from it (at most 100) is admitted, and rejected iff some refused one has no correction. |
| `LcpAdmit.PeerIsKnown` | src/lcp.c:800-820 | After any request everything recorded of the peer is what its last admitted option of the kind says, or the default; only the endpoint discriminator is kept if none is sent. |
| `LcpAdmit.MruIsLeast` | src/lcp.c:854-872 | The MRU recorded is our limit or the least one admitted. |
| `L2tpCodec.Pack` | src/l2tp_avp.c:263-381 | Writes a packing of the attributes and returns its length, or -1 iff one is not described or out of limits; the length without a buffer is the length written with one; nothing behind it is touched. |
| `L2tpCodec.PackOne` | src/l2tp_avp.c:273-377 | One attribute, with a random vector before the first hidden one. |
| `L2tpCodec.Check` | src/l2tp_avp.c:281-296 | An attribute is packable iff it is described and within limits; it is hidden iff there is a secret and its description allows. |
| `L2tpCodec.HideInPlace` | src/l2tp_avp.c:348-369 | The in-place loop leaves the bytes hidden under the MD5 chain. |
| `L2tpCodec.UnhideInPlace` | src/l2tp_avp.c:455-475 | The in-place loop leaves them revealed, the next key being taken before a block is overwritten. |
| `L2tpCodec.Unhidden` | src/l2tp_avp.c:455-483 | The value extracted from a hidden attribute, or none if its stated length does not fit. |
| `L2tpCodec.ReadItem` | src/l2tp_avp.c:401-489 | One attribute of a packet, with all its error cases. |
| `L2tpCodec.UnpackBuffer` | src/l2tp_avp.c:388-506 | The loop over the packet, unhiding in place, yields what the packet meant before it was touched. |
| `L2tpCodec.LengthSnoc` | src/l2tp_avp.c:298-376 | The length of a list grows by the length of the attribute added, random vector included once. |
| `L2tpCodec.PacksSnoc` | src/l2tp_avp.c:273-377 | Packings concatenate. |
| `L2tpAvp.UnhideHide` | src/l2tp_avp.c:348-475 | Unhiding undoes hiding for any hash, secret and first key, whatever padding follows. |
| `L2tpAvp.AvpReads` | src/l2tp_avp.c:401-495 | A packed attribute reads back as itself. |
| `L2tpAvp.HeadUnpacks` | src/l2tp_avp.c:388-506 | Unpacking takes the first packed attribute off and goes on with the rest. |
| `L2tpAvp.RoundTrip` | src/l2tp_avp.c:262-506 | Unpacking gives back the packed list: order, mandatory bits and values, for any hash, secret, random vector and padding. |
| `L2tpAvp.OversizeReads` | src/l2tp_avp.c:318-321 | A hidden attribute of over 1015 bytes sets a reserved bit: a mandatory one is refused, an optional one is skipped as if 7 bytes long. |
| `L2tpAvp.PackedMeans` | src/l2tp_avp.c:263-506 | What a receiver makes of any packed list: the list if all fits; a refusal if the first oversize attribute is mandatory; else the attributes before it and then whatever its hidden bytes from the eighth on, and all after, read as. |
| `L2tpAvp.RoundTripIffFits` | src/l2tp_avp.c:290-296 | A packet survives iff every hidden value has at most 1015 bytes, two fewer than the packer allows, or the first longer one is optional and its bytes from the eighth on happen to read as it and the rest. |
| `L2tpAvp.OversizeFails` | src/l2tp_avp.c:414-426 | If the first oversize attribute is mandatory the receiver refuses the whole packet. |
| `L2tpOctets.CutShort` | src/l2tp_avp.c:401-412 | For any bytes: an attribute of fewer than 6 octets, or longer than what is left, refuses the packet as malformed. |
| `L2tpOctets.NotUnderstood` | src/l2tp_avp.c:414-426 | One with reserved bits or not in the table refuses the packet iff it is mandatory; otherwise the packet means what follows it. |
| `L2tpOctets.RandomVector` | src/l2tp_avp.c:428-435 | A random vector replaces any before it. |
| `L2tpOctets.PlainAttribute` | src/l2tp_avp.c:484-489 | Any other attribute not hidden has its octets for a value, with its mandatory bit, vendor and kind. |
| `L2tpOctets.HiddenAttribute` | src/l2tp_avp.c:437-483 | A hidden one is malformed without a random vector before it or if its stated length exceeds the room, wants a secret, and otherwise has the value revealed. |
| `L2tpOctets.RevealedExactly` | src/l2tp_avp.c:446-483 | That value: the octets after the stated length, each under its key; the first key is the hash of kind, secret and random vector, each further one of the secret and the hidden block before. |
| `L2tpOctets.PackedOctets` | src/l2tp_avp.c:298-369 | The octets written for an attribute: length, bits, vendor, kind, and the value or its hidden form under these keys. |
| `L2tpOctets.PackableExactly` | src/l2tp_avp.c:281-296 | What can be packed and what is hidden, by the first entry of the table. |
| `L2tpOctets.HiddenLength` | src/l2tp_avp.c:310-318 | A hidden attribute is padded to one octet short of a multiple of eight. |
| `L2tpOctets.VectorOnce` | src/l2tp_avp.c:298-308 | A packet has one random vector of ten octets iff it hides anything. |
| `L2tpOctets.VectorOctets` | src/l2tp_avp.c:300-307 | Its octets: mandatory, length 10, vendor 0, kind 36, four random octets. |
| `Pred1Class.Predictor.Compress` | src/ccp_pred1.c:623-648 | The nested loops output the compressed form and leave table and hash as absorbing the data leaves them. |
| `Pred1Class.Predictor.CompressGroup` | src/ccp_pred1.c:633-645 | One group: flag byte for the guesses, then the bytes not guessed. |
| `Pred1Class.Predictor.Decompress` | src/ccp_pred1.c:657-687 | The nested loops decode, or report that the output is full. |
| `Pred1Class.Predictor.DecompressGroup` | src/ccp_pred1.c:666-684 | One group, ending early where the source ends. |
| `Pred1Class.Predictor.SyncTable` | src/ccp_pred1.c:694-704 | A frame sent raw trains the table like one sent compressed. |
| `Pred1Class.Predictor.CompressFrame` | src/ccp_pred1.c:227-288 | Length, body and check sequence of a frame; the sender has absorbed the data either way. |
| `Pred1Class.Predictor.DecompressFrame` | src/ccp_pred1.c:298-378 | Decodes a frame; on damage starts afresh and asks for a reset. |
| `Pred1Class.Predictor.ResetIn` | src/ccp_pred1.c:421-445 | Sending a reset request or receiving its acknowledgement starts the receiver afresh. |
| `Pred1Class.Predictor.ResetOut` | src/ccp_pred1.c:385-399 | Receiving a reset request starts the sender afresh. |
| `Pred1.FlagsMark` | src/ccp_pred1.c:633-645 | Bit j of the flag byte is set iff byte j was guessed. |
| `Pred1.DecompressInverts` | src/ccp_pred1.c:622-687 | Decompression of compressed data gives the data and the state the sender is in, whenever the room allows. |
| `Pred1.TrailerIsGood` | src/util.c:1133-1138 | Appending the complemented check sequence gives the good residue, for any data (appendix C of RFC 1662). |
| `Pred1Guess.HashSettles` | src/ccp_pred1.c:40-49 | From any state, after four bytes the hash is those bytes, each four bits above the next. |
| `Pred1Guess.HashFromReset` | src/ccp_pred1.c:40-49 | Since a reset it is so from the first byte, with 0 for bytes before. |
| `Pred1Guess.Predicts` | src/ccp_pred1.c:633-645 | The byte expected is the one that last followed the same hash since the reset, or 0. |
| `Pred1Guess.LastAfterIs` | src/ccp_pred1.c:633-645 | Which byte that is, by quantifiers. |
| `Pred1Guess.GroupSent` | src/ccp_pred1.c:623-648 | A group sent: bit j of its first octet is set iff byte j is the one predicted; then come exactly the bytes not predicted. |
| `Pred1Guess.GroupRead` | src/ccp_pred1.c:657-687 | Any group read, whoever wrote it: marked bytes are the ones expected, the others those of the source, in order; it ends early only with the source. |
| `Pred1Guess.GroupRoom` | src/ccp_pred1.c:666-672 | It overruns iff the room is filled before its eighth byte. |
| `Pred1Guess.EntryLinear` | src/util.c:41-75 | The table of the check sequence is linear... |
| `Pred1Guess.EntriesOfBits` | src/util.c:41-75 | ...and has these nine entries, which determine it. |
| `Pred1Guess.FcsOctets` | src/ccp_pred1.c:249-253 | The check sequence covers the length without the mark, high octet first, and the data. |
| `Pred1Guess.FrameOctets` | src/ccp_pred1.c:242-280 | The octets of a frame: length and mark, body, complement of the check sequence, low octet first. |
| `Pred1Guess.GoodFrames` | src/ccp_pred1.c:298-378 | Any frame accepted has the length it states and a good check sequence, and the receiver has learnt its bytes. |
| `Pred1Link.FrameRoundTrip` | src/ccp_pred1.c:226-378 | Every frame of at most 4096 bytes decodes to its data and leaves both ends in the same state. |
| `Pred1Link.StreamRoundTrip` | src/ccp_pred1.c:226-378 | So does every sequence of frames, compressed and raw mixed. |
| `Pred1Link.WorkingBuffer` | src/ccp_pred1.c:242-273 | The compressor never writes more than PRED1_MAX_BLOWUP(n + 2) bytes; the frame sent is at most n + 4. |
| `Pred1Link.MoveKeepsRecoverable` | src/ccp.c:616-672 | Sending, losing, delivering and resetting keep the link recoverable. |
| `Pred1Link.AlwaysRecoverable` | src/ccp.c:616-672 | Every reachable link is recoverable, however many resets are outstanding. |
| `Pred1Link.DrainingSynchronises` | src/ccp.c:664-672 | With a reset acknowledgement sent after the last loss in flight, delivering what is in flight makes the two ends equal. |
| `Pred1Link.SynchronisedDelivery` | src/ccp_pred1.c:298-378 | A synchronised receiver gets each frame's data and asks for no reset. |
| `Pred1Link.DamageIsReported` | src/ccp.c:617-636 | A frame that does not decode makes the receiver start afresh and ask for a reset; one that does is learnt. |
| `Pred1Link.RequestMends` | src/ccp.c:642-672 | Any reset request that reaches the sender mends the link: after what is then in flight both ends are fresh and equal. |
| `DeseBisClass.DeseBisState.EncryptFrame` | src/ecp_dese_bis.c:160-218 | The frame written is header and chained encryption of the padded plaintext; chaining value and sequence number advance. |
| `DeseBisClass.DeseBisState.EncryptBlocks` | src/ecp_dese_bis.c:203-209 | The in-place loop encrypts the blocks, chained. |
| `DeseBisClass.DeseBisState.FillFrame` | src/ecp_dese_bis.c:177-199 | Header, plaintext and corrected padding before encryption. |
| `DeseBisClass.DeseBisState.DecryptFrame` | src/ecp_dese_bis.c:225-294 | Bogus, dropped or decrypted, and the state after, for any frame. |
| `DeseBisClass.DeseBisState.DecryptBlocks` | src/ecp_dese_bis.c:270-279 | The in-place loop decrypts the blocks, keeping each cipher block for the next. |
| `DeseBisClass.HandOver` | src/ecp_dese_bis.c:321-360 | The nonce one side puts into its option is what the other takes out: after both have started counting, the first frame arrives as sent, and the ends are equal. |
| `DeseBisClass.DeseBisState.DecodeConfigReq` | src/ecp_dese_bis.c:336-360 | The nonce received is the one reception starts from; a wrong length is rejected. |
| `DeseBisNonce.MoveKnows` | src/ecp_dese_bis.c:321-360 | Every move of either automaton keeps the two chaining values of a side those of the option it asked with last and of the one it decoded last. |
| `DeseBisNonce.EndsAgreeWhenOpened` | src/ecp_dese_bis.c:321-360 | Over every run of two automata that announce a new nonce in each request and take in each one decoded: whenever both are Opened, each side sends with the chaining value the other receives with. |
| `DeseBisNonce.StreamsAfterOpening` | src/ecp.c:642-656 | So a stream that starts then loses exactly the frames that are lost and those next after a loss. |
| `DeseBis.DecryptEncrypt` | src/ecp_dese_bis.c:203-279 | Chained decryption undoes chained encryption, for any cipher with D(E(x)) = x. |
| `DeseBis.StripPadded` | src/ecp_dese_bis.c:187-286 | Stripping undoes padding of every non-empty plaintext. |
| `DeseBis.FrameReceived` | src/ecp_dese_bis.c:225-294 | Whatever the receiver's state, a frame leaves it in the sender's; it is dropped iff the number is not the expected one, and decoded to its plaintext if the ends agree. |
| `DeseBis.StreamFates` | src/ecp_dese_bis.c:247-294 | The fate of every frame of a lossy stream, for any gap before it. |
| `DeseBis.LossyStream` | src/ecp_dese_bis.c:159-294 | With fewer than 65536 consecutive losses and non-empty plaintexts, a delivered frame yields exactly its plaintext iff its predecessor was delivered; the first one after a gap is dropped. |
| `DeseBis.StreamAt` | src/ecp_dese_bis.c:247-294 | A frame that arrives after a gap meets the receiver in the state the sender was in before the gap. |
| `DeseBis.FrameAfterGap` | src/ecp_dese_bis.c:247-265 | After a gap of g losses a frame is dropped iff g is not a multiple of 65536; otherwise it comes out right iff the chaining value of before the gap agrees with the present one where the first block holds plaintext and where it ends. |
| `DeseBis.StaleChaining` | src/ecp_dese_bis.c:266-290 | A frame with the expected number comes out right iff the two chaining values are alike in this sense. |
| `DeseBis.EmptyPlaintext` | src/ecp_dese_bis.c:189-194 | An empty plaintext gets through iff the low byte of its sequence number is 1 to 8. |
| `DeseBis.PayloadFits` | src/ecp_dese_bis.c:105-112 | A plaintext of the size the layer announces fits the frame. |
| `DeseBis.PayloadExactly` | src/ecp_dese_bis.c:105-112 | That size is the largest of which every plaintext fits. |
| `DeseBisOctets.FrameOctets` | src/ecp_dese_bis.c:174-209 | A frame: the sequence number, high octet first, and the encrypted blocks; and the sender after it. |
| `DeseBisOctets.EncryptedAt` | src/ecp_dese_bis.c:203-209 | Each block is encrypted with the encrypted one before mixed in. |
| `DeseBisOctets.DecryptedAt` | src/ecp_dese_bis.c:270-279 | And decrypted so. |
| `DeseBisOctets.PaddedExactly` | src/ecp_dese_bis.c:187-199 | Padding counts up from 1 to the next multiple of eight; there is none, or a whole block, for a multiple of eight, by its last octet. |
| `DeseBisOctets.AnyFrame` | src/ecp_dese_bis.c:225-294 | Any frame, whoever wrote it: when it is bogus, dropped or decrypted, what is stripped, and the receiver after it. |
| `ChatMatch.ComputeFailure` | src/chat.c:1646-1661 | The table computed holds the longest proper border of every prefix iff those borders fit 16 bits. |
| `ChatMatch.ComputedTable` | src/chat.c:1646-1661 | Entries are border lengths modulo 65536: they are the lengths iff every length fits. |
| `ChatMatch.ShortPatternsFit` | src/chat.c:1651-1653 | Patterns of at most 65537 characters always fit. |
| `ChatMatch.IsBorder` | src/chat.c:1655-1655 | The comparison loop decides whether a length is that of a border. |
| `ChatMatch.OccursSnoc` | src/chat.c:1594-1601 | A pattern occurs in a longer input iff it did before or ends there. |
| `ChatMatcher.Exact.constructor` | src/chat.c:918-921 | A fresh matcher, for any pattern, is the machine of the table computed, fed nothing. |
| `ChatMatcher.Exact.MatchChar` | src/chat.c:1584-1602 | Each character advances the machine; with a table that loses nothing it returns 1 exactly when the pattern has occurred for the first time, matched being the longest pattern prefix that ends the input; all turns of the loop together are at most twice the input. |
| `ChatMatcher.FedIsState` | src/chat.c:1594-1601 | With a table that loses nothing the machine is, after every text, at the longest prefix of the pattern that ends the text. |
| `ChatMatcher.RightIffHarmless` | src/chat.c:1594-1601 | For any table leading to shorter matches: matching is right on all texts iff going on from the entry after a mismatch comes to the same longest match. |
| `ChatMatcher.BorderLosesNothing` | src/chat.c:1600-1600 | That holds of an entry that is a border if every longer border goes on with the same character. |
| `ChatMatcher.FittingBordersAreRight` | src/chat.c:1646-1661 | So every pattern whose borders fit 16 bits is matched right... |
| `ChatMatcher.RunsAreRight` | src/chat.c:1651-1653 | ...and so is a run of one character of any length, though its borders need not fit. |
| `ChatMatcher.RunThenOther` | src/chat.c:1651-1653 | A run of n and another character is matched right iff n <= 65536; a longer one is missed in the text that has one character more in the run. |
| `ChatExpand.VarList.Find` | src/chat.c:1335-1350 | Finds the value bound to a name; moving it to the front keeps the list's contents and every later lookup. |
| `ChatExpand.ToFrontKeepsBindings` | src/chat.c:1344-1349 | Moving the first variable of its name to the front changes no lookup, in any list. |
| `ChatExpand.VarList.Assign` | src/chat.c:1285-1307 | Binds a name to a value and nothing else; names stay distinct. |
| `ChatExpand.Extract` | src/chat.c:1357-1374 | A variable name with or without braces, or none, as specified. |
| `ChatExpand.NameOfName` | src/chat.c:1357-1374 | A name is extracted as itself, plain or in braces. |
| `ChatExpand.Variables.Set` | src/chat.c:1255-1312 | Assigns the variable a reference names, expanding the value first; fails iff the reference is malformed; an assignment to "$Baudrate" that the device refuses is not made. |
| `ChatExpand.Variables.SetMatchVars` | src/chat.c:1526-1572 | The removing loop and the setting loop leave the variables as a match is specified to. |
| `ChatExpand.VarList.Purge` | src/chat.c:1533-1549 | Exactly the variables named like match variables are removed. |
| `ChatExpand.NothingPurged` | src/chat.c:1535-1538 | That is none: names are kept without the "$" they are compared with. |
| `ChatExpand.MatchVariables` | src/chat.c:1551-1571 | A match sets "$matchedString" to the whole, "$matchedString0" and so on to the groups, and changes no other variable, so those of a match with more groups remain. |
| `ChatExpand.Variables.Get` | src/chat.c:1319-1328 | Looks a name up in the list its first letter selects. |
| `ChatExpand.Variables.Pass` | src/chat.c:1468-1500 | The counting pass and the filling pass come to the length and the content of the same expansion although each reorders the lists. |
| `ChatExpand.Variables.ExpandString` | src/chat.c:1458-1515 | The two passes agree (the source's closing assertion holds) and the result is the expansion. |
| `ChatExpand.AssignedExpands` | src/chat.c:1475-1495 | A variable assigned expands to its value, with braces or without... |
| `ChatExpand.LongestNameStays` | src/chat.c:1481-1483 | ...unless its name has 99 characters: it can be assigned, but in braces stays unexpanded, and without them expands the variable named by the first 98. |
| `ChatExpand.ExpandPlain` | src/chat.c:1472-1500 | A string without "$" expands to itself. |
| `ChatText.CharacterStays` | src/chat.c:1495-1500 | For any variables: a character other than "$" stands for itself. |
| `ChatText.TwoDollars` | src/chat.c:1473-1477 | "$$" stands for "$". |
| `ChatText.BareReference` | src/chat.c:1479-1493 | "$name" stands for the variable of the longest name of at most 98 characters, or for nothing if it is not set. |
| `ChatText.BracedReference` | src/chat.c:1479-1493 | So does "${name}". |
| `ChatText.DollarStays` | src/chat.c:1479-1482 | Any other "$" stands for itself. |
| `ChatText.RefersExactly` | src/chat.c:1357-1374 | What can be assigned to: a name of at most 99 characters, plain or in braces. |
| `ChatText.OutcomeExactly` | src/chat.c:1263-1286 | When an assignment has no name, is refused, or is made. |
| `ChatFrames.StepValid` | src/chat.c:840-1141 | Every operation keeps every pending event in scope of the current calls, leaves a waiting script something to wait for, and an idle one nothing. |
| `ChatFrames.ReturnDiscards` | src/chat.c:1126-1141 | Returning discards exactly the events defined in the frame that is popped. |
| `ChatFrames.StepOrigin` | src/chat.c:906-1141 | An event pending after a step was pending before or was defined by it at its call stack. |
| `ChatFrames.EventHistory` | src/chat.c:1087-1141 | In any run, an event pending was defined under the very call stack it would restore, which has stood ever since. |
| `ChatFrames.FiringRestoresStack` | src/chat.c:459-475 | Firing takes the script back to the call stack of the moment the event was defined in the run, which has stood since, if the label is found. |
| `ChatFrames.FiredEventStays` | src/chat.c:417-475 | The event of a match stays pending iff its label is found and its set's name, expanded again with the match variables just set, no longer cancels it. |
| `ChatFrames.FiredTimerStays` | src/chat.c:514-526 | A timer fired stays pending on the same condition, with the variables as they are. |
| `ChatFrames.PlainSetsAreCancelled` | src/chat.c:467-467 | A set named without "$" is always cancelled by its event. |
| `ChatFrames.DollarSetStays` | src/chat.c:985-989 | An event of the set "$$" always stays if its label is found. |
| `ChatFrames.MatchedSetStays` | src/chat.c:1526-1572 | One of the set "$matchedString" stays iff the text matched is neither "all" nor that name itself (and its label is found). |
| `ChatFlow.CallGoesOn` | src/chat.c:1057-1093 | A call that finds its label goes on there and remembers where it was. |
| `ChatFlow.ReturnRestores` | src/chat.c:1100-1141 | Over any run: the return that pops the frame of a call restores the line and the stack of the moment of the call, whatever happened in between. |
| `ChatFlow.JumpGoesOn` | src/chat.c:1021-1049 | A jump goes on at its label, or stays for the default label. |
| `ChatFlow.MatchGoesOn` | src/chat.c:417-475 | A match that fires goes on at its label, of which 31 characters count, expanded with the match variables just set. |
| `ChatFlow.TimerGoesOn` | src/chat.c:490-526 | So does a timer, with the variables as they are. |
| `ChatFlow.OthersStay` | src/chat.c:596-720 | No other command moves the script. |
| `ChatFlow.EndsExactly` | src/chat.c:813-899 | Which operations end a script. |
| `ChatFlow.PendingAfterCommand` | src/chat.c:906-1014 | Which events are pending after a command: those it does not cancel or return from, and the one it adds. |
| `ChatFlow.PendingAfterFiring` | src/chat.c:459-475 | And after an event fires: those of other sets, not of the default set, defined no deeper. |
| `ChatFlow.NewEvents` | src/chat.c:906-972 | A new match is tried last; a new timer comes first. |
| `ChatFlow.AllSpellings` | src/chat.c:985-1009 | The keyword "all" counts in any case. |
| `ChatEngine.RaisedMeanings` | src/chat.c:1087-1092 | Counting up on a call changes the frame no event refers to. |
| `ChatEngine.LoweredMeanings` | src/chat.c:1126-1141 | Counting down on a return keeps the events of outer frames, with their meaning, and drops the others. |
| `ChatEngine.RemainingMeanings` | src/chat.c:991-1009 | Cancelling removes exactly the events of the set, or all. |
| `ChatEngine.EventList.Raise` | src/chat.c:1087-1092 | The loop counts up every event. |
| `ChatEngine.EventList.Lower` | src/chat.c:1126-1141 | The loop counts down every event and unlinks those that fall below zero. |
| `ChatEngine.EventList.Remove` | src/chat.c:991-1009 | The loop unlinks the events of a set. |
| `ChatEngine.Script.AddMatch` | src/chat.c:906-948 | A match is added last, in scope of the current stack, its set and label expanded. |
| `ChatEngine.Script.AddTimer` | src/chat.c:955-972 | A timer is added first. |
| `ChatEngine.Script.Cancel` | src/chat.c:979-1014 | Cancels by the expanded name. |
| `ChatEngine.Script.Call` | src/chat.c:1057-1093 | Pushes the position and jumps, or stops the script; events keep their meaning. |
| `ChatEngine.Script.Pop` | src/chat.c:1115-1141 | Pops one frame and discards the events defined in it. |
| `ChatEngine.Script.Return` | src/chat.c:1100-1141 | Pops, or stops the script if there is no call to return from. |
| `ChatEngine.Script.Goto` | src/chat.c:1021-1049 | Jumps, stays for the default label, or stops the script. |
| `ChatEngine.Script.Stop` | src/chat.c:840-899 | Cancels everything, pops every frame, forgets the script's own variables. |
| `ChatEngine.Script.Fire` | src/chat.c:459-475 | The pop loop never underflows and takes calls and events to the scope of the fired event. |
| `ChatEngine.Script.MatchFires` | src/chat.c:417-475 | A match firing, the match variables set first, is the specified step. |
| `ChatEngine.Script.Assign` | src/chat.c:626-633 | Assigning a variable, or failing on a malformed reference or a refused speed, is the specified step. |
| `ChatEngine.Script.TimerFires` | src/chat.c:490-526 | A timer firing is the specified step. |
| `ChatEngine.Script.Wait` | src/chat.c:709-720 | Waiting with nothing pending fails the script. |
| `IfaceAcl.Pool.Alloc` | src/iface.c:824-850 | From the cursor on, the first free number is taken and inserted in order; it has no owner yet; a full pool gives 0. |
| `IfaceAcl.Pool.AllocList` | src/iface.c:548-562 | A list of rules, pipes or queues gets the lowest free numbers, ascending; the pool gains exactly these entries and stays strictly ascending. |
| `IfaceAcl.Pool.AllocTables` | src/iface.c:563-581 | Tables without a number share one iff they share an access list number, and get the lowest free; the pool gains exactly their entries; tables with a number keep it and gain none. |
| `IfaceAcl.Pool.Release` | src/iface.c:666-695 | Exactly the interface's entries are removed and their numbers returned; the others stay. |
| `IfaceAcl.Pool.SetStart` | src/command.c:617-662 | The first number changes only while the pool is empty, so every entry stays at or above it. |
| `IfaceAcl.OneOwner` | src/iface.h:158-163 | In an ascending pool a number has one owner. |
| `IfaceAcl.FullPool` | src/iface.c:831-838 | A pool is full iff every number from its start on is in use. |
| `IfaceAcl.InsertFree` | src/iface.c:831-847 | Inserting the first free number keeps the pool ascending, in range, and gapless up to it. |
| `IfaceAcl.AclList.Insert` | src/auth.c:2416-2430 | Lists stay sorted; only tables may repeat a number; the entry is added iff it is allowed. |
| `IfaceTables.FirstUpReservesAll` | src/iface.c:563-581 | Numbering tables none of which had a number reserves the number of each. |
| `IfaceTables.ReservedExactly` | src/iface.c:570-581 | A table that had a number is reserved iff its entry was in the pool or a table of the same list number that had none is given that number. |
| `IfaceTables.GivenExactly` | src/iface.c:566-581 | A number is given to some table that had none iff it is free and fewer numbers are free below it than there are list numbers to serve; that a static or kept table already has it makes no difference. |
| `IfaceTables.SecondUp` | src/iface.c:570-581 | For all lists: after up, down and up again the tables hold their numbers without reservation, and another interface that comes up is given the number of each with fewer free below it than it has list numbers: all of them, if it has no fewer list numbers. |
| `IfaceFilter.Compile` | src/iface.c:3315-3352 | The loop over the rules and the closing loop emit the specified expression. |
| `IfaceFilter.ReadExactly` | src/iface.c:3315-3344 | A rule is "match" or "nomatch" in any case, one space, and its test; anything else is malformed. |
| `IfaceFilter.CompilationPreservesMeaning` | src/iface.c:3315-3362 | For any rules and packet: the filter matches iff all rules are malformed (the empty expression matches everything) or the last one is well-formed and the first rule whose test the packet meets says so, the opposite of the last verdict being the default; it is a syntax error, matching nothing, iff some rule is well-formed and the last is not. |
| `IfaceFilter.EmittedParses` | src/iface.c:3319-3352 | What one or more rules emit parses as an expression of the grammar, followed by anything, iff the last rule is well-formed, to what the rules nest to. |
| `IfaceFilter.NestedAccepts` | src/iface.c:3323-3340 | The nesting of || and && is first-match semantics. |
| `IfaceFilter.Balanced` | src/iface.c:3323-3352 | Brackets balance whatever the rules. |
| `IfaceFilter.NothingEmitted` | src/iface.c:3319-3350 | The text is empty iff every rule is malformed. |
| `IfaceFilter.MalformedDoNotMatter` | src/iface.c:3341-3344 | Malformed rules before a well-formed last one leave no trace. |
| `IpPool.IpPools.Get` | src/ippool.c:54-79 | Offers and marks the first free address, or none. |
| `IpPool.IpPools.Free` | src/ippool.c:81-105 | Clears the mark of the address in the pool named. |
| `IpPool.IpPools.Add` | src/ippool.c:107-158 | Appends the addresses of a range that are missing; refuses more than 65536. |
| `IpPool.GetLeases` | src/ippool.c:65-76 | The address leased was free and is the only mark that changes. |
| `IpPool.GetFails` | src/ippool.c:65-79 | Getting fails iff there is no such pool or all of it is used. |
| `IpPool.FreeReleases` | src/ippool.c:94-103 | Exactly the mark of that address is cleared. |
| `IpPool.AddExtends` | src/ippool.c:129-157 | Extension keeps the old records as they are, adds the missing addresses of the range free, and keeps addresses distinct. |
| `IpPool.RangeExactly` | src/ippool.c:107-118 | A range is the addresses from its first to its last, both included, counting on past the highest; more than 65536 are refused, or add nothing if their number is negative as a signed word. |
| `IpPool.AddLists` | src/ippool.c:129-157 | A pool then lists exactly what it did and those. |
| `IpcpLease.StepGood` | src/ipcp.c:316-425 | Every step of every bundle keeps the ledger: an address is marked used iff exactly one IPCP holds it, once (pretend-ip off, 0.0.0.0 in no pool). |
| `IpcpLease.LeasesConserved` | src/ipcp.c:316-425 | The same after any interleaving of joins, configurations, negotiation and pool extension. |
| `IpcpLease.StartIsGood` | src/ipcp.c:278-308 | A system of unused bundles and unmarked pools satisfies it. |
| `IpcpLease.LeasesConservedFromStart` | src/ipcp.c:316-425 | Hence it holds in every state reachable from the start. |
| `IpcpLease.NothingLeaks` | src/ipcp.c:402-425 | When no IPCP is configured every address is free. |
| `IpcpLease.UsedHasHolder` | src/ipcp.c:316-425 | A used address has a holder, and only one. |
| `IpcpLease.NegotiationKeepsLease` | src/ipcp.c:721-769 | No request, Nak or fix-up moves a leased address: the one freed is the one leased. |
| `IpcpLease.ConfiguredMarks` | src/ipcp.c:317-372 | Configuring marks exactly what the bundle then holds, whatever the options and pools. |
| `IpcpLease.ConfiguredFair` | src/ipcp.c:317-372 | And what it then holds is locked to the leases. |
| `IpcpLease.UnConfiguredFair` | src/ipcp.c:403-425 | Unconfiguring clears exactly what it held. |
| `IpcpLedger.StepExactly` | src/ipcp.c:316-425 | For any options (pretend-ip on or off) and pools: a step keeps the ledger of leases iff it is not an unconfiguring that gives back other addresses than were leased. |
| `IpcpLedger.LedgerKept` | src/ipcp.c:316-425 | Hence every run in which each unconfiguring gives back what was leased keeps it. |
| `IpcpLedger.UnConfigureExactly` | src/ipcp.c:403-425 | Unconfiguring keeps the ledger iff the addresses recorded then are the addresses leased. |
| `IpcpLedger.LostExactlyWhen` | src/ipcp.c:403-425 | A leased address stays marked after unconfiguring iff it is not among those recorded. |
| `IpcpLedger.GoodIsLedger` | src/ipcp.c:316-425 | With pretend-ip off and 0.0.0.0 in no pool the ledger holds and every unconfiguring gives back what was leased. |
| `IpcpLedger.PeersLeaseKept` | src/ipcp.c:729-750 | After any exchange the peer's leased address is the one recorded iff: with pretend-ip, the last address the peer asked for since Opened (since configuring, for a lease of 0.0.0.0) is that one, if it asked; without, the lease is not 0.0.0.0 or the peer asked for nothing else. |
| `IpcpLedger.OurLeaseKept` | src/ipcp.c:751-762 | Ours is the one recorded iff it is not 0.0.0.0 and pretend-ip is off, or the last address offered (since Opened, unless it is 0.0.0.0), if any, is that one. |
| `IpcpLedger.SessionExactly` | src/ipcp.c:316-537 | A whole session of a bundle with one lease keeps the ledger iff that lease was kept in the sense above; with two, if both were. |
| `IpcpLedger.KeptIsGivenBack` | src/ipcp.c:403-425 | What is recorded as leased is given back; a single lease only then. |
| `IpcpLedger.ReauthorizationLeaks` | src/radsrv.c:580-582 | Replacing the authorization of a running session keeps the ledger iff the peer's address did not come from the pool authentication chose. |
| `IpcpLedger.PeerAddressFate` | src/ipcp.c:352-376 | In every good state, configuring with a pool for the peer (chosen by authentication or configured) leases its address, to it alone, iff the pool has a free one; otherwise the address offered is that of the session before, and if the pool has it somebody else is leased it. |
| `IpcpLedger.OwnAddressFate` | src/ipcp.c:330-351 | The same for our own address. |
| `IpcpAnswers.RequestAnswered` | src/ipcp.c:729-750 | The peer's address is acknowledged and recorded iff it is a real one in range or pretend-ip is on; otherwise the one recorded is suggested. |
| `IpcpAnswers.SuggestionIsAcked` | src/ipcp.c:729-750 | A peer that asks for what was suggested is acknowledged. |
| `IpcpAnswers.OfferTaken` | src/ipcp.c:751-762 | Our address is the one offered iff it is in range or pretend-ip is on. |
| `IpcpAnswers.ConfiguredWithin` | src/ipcp.c:377-379 | Configuring records addresses within the ranges. |
| `IpcpAnswers.NegotiationStaysWithin` | src/ipcp.c:729-762 | Without pretend-ip negotiation keeps them there. |
| `IpcpAnswers.OpenedWithin` | src/ipcp.c:515-537 | On reaching Opened they are within the ranges in any case, and only those that were not are replaced. |
| `IpcpAnswers.OwnRange` | src/ipcp.c:330-351 | Where our range comes from. |
| `IpcpAnswers.PeersRange` | src/ipcp.c:352-376 | Where the peer's comes from: authentication, its pool, the pool configured, the range configured. |
| `IpcpAnswers.OffersFirst` | src/ippool.c:65-76 | A pool offers its first free address. |
| `IpcpAnswers.InRangeExactly` | src/ip.c:50-76 | A range is the aligned block of addresses with the same first bits, or all. |
| `IpcpLease.IpcpState.Configure` | src/ipcp.c:317-395 | The fields and the pools after configuring. |
| `IpcpLease.IpcpState.UnConfigure` | src/ipcp.c:403-425 | The fields and the pools after unconfiguring. |
| `IpcpLease.IpcpState.DecodeRequest` | src/ipcp.c:729-750 | Ack or Nak of the peer's address and the address then recorded. |
| `IpcpLease.IpcpState.DecodeNak` | src/ipcp.c:751-762 | Our address after a Nak. |
| `IpcpLease.IpcpState.FixAddresses` | src/ipcp.c:515-537 | The addresses after the fix-up on reaching Opened. |

## Left out

* Netgraph messages, sockets, ioctl, ipfw and other commands, files, the console and logging: foreign
  effects. Actions of the automaton are trace entries.
* Crypto: DES and MD5 are uninterpreted, with only the laws named above.
* Real time: a timer is a flag and a firing event. The echo timer and its counters, reject and echo
  identifiers, and the header parsing before an event is recognised are not modelled.
* Callbacks that re-enter the automaton (a bundle join failing inside the phase change, an interface failing
  inside layer-up) are later events here.
* The maxima of the automaton (10, 2, 5, and those CCP and ECP choose) are any positive constants.
- FsmOrder.StepInOrder: states the order of notifications, counters and packets; logging and the order of two
  assignments within one of these are not modelled.
- FsmPair.Agreement: assumes that an Ack accepted answers the last request; FsmAlias shows why. The verdict on a
  request is any of the three, so the theorem holds for every option policy.
- FsmClass.Fsm.RecvConfigReq: takes the verdict as an argument; LcpDecode computes it for LCP.
- L2tpAvp.RoundTripIffFits: attributes other than random vectors, which the packer draws itself, and a receiver whose
  table describes random vectors.
- L2tpCodec.UnhideInPlace: the hash past the last partial block covers the bytes there are in the buffer; the
  program hashes 16 bytes from there. That hash is never used.
- Pred1Class.Predictor.DecompressFrame: a frame must have 4 bytes, and a raw one as many as its length field says.
- Pred1Link.FrameRoundTrip: for frames of at most the 4096 bytes the receiver's buffer holds. Building with
  the kernel's Predictor (USE_NG_PRED1) is not part of this model.
- LcpOptions.ThirdRequestIsAcked: for requests of at most 256 octets counting one more for each option, as
  corrections may be one octet longer; our magic number is fixed meanwhile.
- LcpDecode.LcpDecoder.DecodeRequest: the complete reset when the link was already past Establish, the wants
  changed by Naks and Rejects, and logging are not modelled. IPCP's options other than the address are not
  either.
- ChatFrames.StepValid: commands are given parsed; regular expressions (their match and groups are given), reading
  script lines, conditionals, output and the order in which one input character reaches several matchers are left out,
  as is the position after a failed search for a label.
- ChatExpand.Extract: letters and digits are those of the "C" locale.
- IfaceAcl.Pool.AllocList: states what happens while the pool has room for the list; numbers wrap beyond that.
  The interface keeps its name while it is up.
- IfaceFilter.CompilationPreservesMeaning: a test is an atom with a meaning of its own, assumed a complete
  expression; the 256 KB limit of the text buffer is not modelled.
- IpPool.IpPools.Add: the record table grows without bound; its allocation size is not modelled.
- ChatExpand.Variables.Set: whether a text is a speed the device takes is a predicate given; presets before a script
  starts are not steps of ChatFrames.
- DeseBisNonce.EndsAgreeWhenOpened: ECP offers DESE-bis alone, and no data frame moves the chaining values before both
  sides are Opened.
- IpcpLease.LeasesConserved: IPv4 only; pool names stay as configured while a lease is held; authorization is
  replaced only between sessions, ReauthorizationLeaks covering the other case.
* Linked lists are sequences spliced in place: the links themselves and freeing memory are not modelled.
* Bundle bandwidth management, RADIUS, PAM and OPIE back ends, accounting, L2TP control and tunnels, IPv6
  prefixes: they would add easy members or depend on code outside the repository.
