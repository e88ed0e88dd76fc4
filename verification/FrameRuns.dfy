// Every run of the framer: any sequence of the calls its users make, in the order its protocol
// allows, with the stream split among receives in any way at all.
module FrameRuns {
  import opened Bytes
  import opened Framing
  import opened Kernel
  import opened Attribution
  import opened FrameState

  // `Receive`: the bytes of one read, and what became of the descriptors attached to them.
  datatype Op =
    | Next
    | Advance
    | MakeRoom
    | Receive(data: seq<Byte>, cs: seq<Came>)
    | Close
    | Eof
    | Claim(i: int)

  // The head message has been yielded and not yet advanced past.
  ghost predicate Yielded(f: Frame) {
    NextCode(f) > 0 && AfterNext(f) == f
  }

  // What the protocol allows: reads only after need_more, bounded to the head message, bringing the
  // descriptors pinned to the bytes they bring; advancing and claiming only once a message is yielded.
  ghost predicate Enabled(f: Frame, op: Op) {
    match op
    case Next => true
    case Advance => Yielded(f)
    case Claim(_) => Yielded(f)
    case MakeRoom => Hungry(f)
    case Eof => Hungry(f)
    case Close => true
    case Receive(data, cs) =>
      && Hungry(f)
      && |f.stream| + |data| <= f.abs0 + CAP
      && |f.stream| + |data| <= Stop(f.stream, f.pos, f.skip)
      && forall c | c in cs :: |f.stream| <= c.pin.at < |f.stream| + |data|
  }

  ghost function Step(f: Frame, op: Op): (g: Frame)
    requires Inv(f) && Enabled(f, op)
  {
    match op
    case Next => AfterNext(f)
    case Advance => YieldedInside(f); Advanced(f, NextCode(f))
    case Claim(i) => Claimed1(f, i)
    case MakeRoom => Compacted(f)
    case Eof => f.(eof := true)
    case Close => FdsClosed(f)
    case Receive(data, cs) => Absorbed(f, data, cs)
  }

  lemma YieldedInside(f: Frame)
    requires Inv(f) && Yielded(f)
    ensures HeadIs(f, NextCode(f)) && f.pos + NextCode(f) <= |f.stream|
  {
    hide Parsed, Queues, Placed, Accounted, Answer, Stop;
    NextAgain(f);
  }

  // What every reachable state satisfies.
  ghost predicate Steady(f: Frame) {
    && Inv(f) && Amortised(f)
    && !f.led.late
    && (f.led.claimed != [] ==> Yielded(f))
  }

  // A run: the states before, between and after the calls `ops`.
  ghost predicate Run(states: seq<Frame>, ops: seq<Op>) {
    && |states| == |ops| + 1
    && forall i | 0 <= i < |ops| :: Makes(states[i], ops[i], states[i + 1])
  }

  ghost predicate Makes(f: Frame, op: Op, g: Frame) {
    Inv(f) && Enabled(f, op) && g == Step(f, op)
  }

  // The states a run can start from: freshly initialised, or left by the SASL reader with whatever
  // it did not use still in the buffer.
  ghost predicate Starting(f: Frame) {
    exists s: seq<Byte>, n: nat {:trigger Eaten(Committed(INIT, s), n)} ::
      n <= |s| <= CAP && f == Eaten(Committed(INIT, s), n)
  }

  lemma StartingSteady(f: Frame)
    requires Starting(f)
    ensures Steady(f) && f.consumed == [] && f.led.whole
  {
    hide Inv, Amortised, Steady, Eaten;
    var s: seq<Byte>, n: nat :| n <= |s| <= CAP && f == Eaten(Committed(INIT, s), n);
    SaslLeaves(s, n);
  }

  lemma SaslLeaves(s: seq<Byte>, n: nat)
    requires n <= |s| <= CAP
    ensures var f := Eaten(Committed(INIT, s), n); Steady(f) && f.consumed == [] && f.led.whole
  {
    hide Parsed, Queues, Placed, Accounted, Stop, Answer;
    InitInv();
    CommitInv(INIT, s);
    EatInv(Committed(INIT, s), n);
  }

  // ---- one step ----

  lemma StepSteady(f: Frame, op: Op)
    requires Steady(f) && Enabled(f, op)
    ensures Steady(Step(f, op))
  {
    hide Inv, Amortised, AfterNext, NextCode, Advanced, Compacted, FdsClosed, Absorbed;
    match op
    case Next =>
      NextSteady(f);
    case Advance =>
      AdvanceSteady(f);
    case Claim(i) =>
      ClaimSteady(f, i);
    case MakeRoom =>
      RoomSteady(f);
    case Eof =>
      EofSteady(f);
    case Close =>
      CloseSteady(f);
    case Receive(data, cs) =>
      ReceiveSteady(f, data, cs);
  }

  lemma NextSteady(f: Frame)
    requires Steady(f)
    ensures Steady(AfterNext(f))
  {
    hide Parsed, Queues, Placed, Accounted, Answer, Stop;
    NextInv(f);
    NextAmortised(f);
    NextAgain(f);
  }

  lemma AdvanceSteady(f: Frame)
    requires Steady(f) && Yielded(f)
    ensures f.pos + NextCode(f) <= |f.stream| && Steady(Advanced(f, NextCode(f)))
  {
    hide Parsed, Queues, Placed, Accounted, Answer, Stop;
    YieldedInside(f);
    AdvanceInv(f, NextCode(f));
  }

  lemma ClaimSteady(f: Frame, i: int)
    requires Steady(f) && Yielded(f)
    ensures Steady(Claimed1(f, i))
  {
    hide Parsed, Queues, Placed, Accounted, Answer, Stop;
    ClaimInv(f, i);
  }

  lemma RoomSteady(f: Frame)
    requires Steady(f) && Hungry(f)
    ensures f.abs0 <= f.pos <= |f.stream| && Steady(Compacted(f))
  {
    hide Parsed, Queues, Placed, Accounted, Answer, Stop;
    HungryRoom(f);
    CompactInv(f);
  }

  lemma EofSteady(f: Frame)
    requires Steady(f) && Hungry(f)
    ensures Steady(f.(eof := true))
  {
    hide Parsed, Queues, Placed, Accounted, Answer, Stop;
  }

  lemma CloseSteady(f: Frame)
    requires Steady(f)
    ensures Steady(FdsClosed(f))
  {
    hide Parsed, Queues, Placed, Accounted, Answer, Stop;
    CloseInv(f);
  }

  lemma ReceiveSteady(f: Frame, data: seq<Byte>, cs: seq<Came>)
    requires Steady(f) && Enabled(f, Receive(data, cs))
    ensures Steady(Absorbed(f, data, cs))
  {
    hide Parsed, Queues, Placed, Accounted, Answer, Stop, Arrive;
    var h := Committed(f, data);
    CommitInv(f, data);
    StopGrows(f.stream, data, f.pos, f.skip);
    ArriveSteady(h, cs);
  }

  lemma {:induction false} ArriveSteady(f: Frame, cs: seq<Came>)
    requires Inv(f) && Amortised(f) && f.led.claimed == [] && !f.led.late
    requires forall c | c in cs :: f.pos <= c.pin.at < |f.stream| && c.pin.at < Stop(f.stream, f.pos, f.skip)
    ensures Inv(Arrive(f, cs)) && Amortised(Arrive(f, cs)) && !Arrive(f, cs).led.late
    decreases |cs|
  {
    hide Inv, Stop, Amortised;
    if cs != [] {
      var k := |cs| - 1;
      ArriveSteady(f, cs[..k]);
      assert cs[k] in cs;
      PushInv(Arrive(f, cs[..k]), cs[k]);
    }
  }

  // ---- every run ----

  lemma {:induction false} RunSteady(states: seq<Frame>, ops: seq<Op>, k: nat)
    requires Run(states, ops) && Steady(states[0]) && k < |states|
    ensures Steady(states[k])
  {
    hide Inv, Steady, Enabled, Step;
    if k > 0 {
      RunSteady(states, ops, k - 1);
      assert Makes(states[k - 1], ops[k - 1], states[k]);
      SteadyInv(states[k - 1]);
      StepSteady(states[k - 1], ops[k - 1]);
    }
  }

  lemma SteadyInv(f: Frame)
    requires Steady(f)
    ensures Inv(f)
  {
  }

  // Where the binary stream begins never changes, and the stream only grows.
  lemma {:induction false} RunGrows(states: seq<Frame>, ops: seq<Op>, k: nat)
    requires Run(states, ops) && k < |states|
    ensures var f, g := states[0], states[k];
      f.stream <= g.stream && f.start == g.start && f.consumed <= g.consumed
  {
    hide Inv, Enabled, Step;
    if k > 0 {
      RunGrows(states, ops, k - 1);
      assert Makes(states[k - 1], ops[k - 1], states[k]);
      StepGrows(states[k - 1], ops[k - 1]);
    }
  }

  lemma StepGrows(f: Frame, op: Op)
    requires Inv(f) && Enabled(f, op)
    ensures f.stream <= Step(f, op).stream && f.start == Step(f, op).start && f.consumed <= Step(f, op).consumed
  {
    hide Parsed, Queues, Placed, Accounted, Answer, Stop, Arrive;
  }

  // In every state of every run from which no message can be had, what has been yielded is exactly the
  // in-cap messages of the parse of the whole stream.
  lemma RunRefinesParse(states: seq<Frame>, ops: seq<Op>, k: nat)
    requires Run(states, ops) && k < |states| && Starting(states[0])
    ensures var g := states[k];
      NextCode(g) <= 0 ==> g.consumed == Messages(g.stream, states[0].start)
  {
    hide Inv, Starting, Run, NextCode, Messages, Answer;
    StartingSteady(states[0]);
    RunSteady(states, ops, k);
    RunGrows(states, ops, k);
    if NextCode(states[k]) <= 0 {
      Drained(states[k]);
    }
  }

  // In every state, drained or not, what has been yielded and then the parse of what is left of the
  // stream is the parse of the whole of it.
  lemma RunInOrder(states: seq<Frame>, ops: seq<Op>, k: nat)
    requires Run(states, ops) && k < |states| && Starting(states[0])
    ensures var g := states[k];
      Messages(g.stream, states[0].start) == g.consumed + Messages(g.stream, g.Resume())
  {
    hide Inv, Starting, Run, Messages;
    StartingSteady(states[0]);
    RunSteady(states, ops, k);
    RunGrows(states, ops, k);
    Remaining(states[k]);
  }

  lemma Remaining(g: Frame)
    requires Inv(g)
    ensures Messages(g.stream, g.start) == g.consumed + Messages(g.stream, g.Resume())
  {
    hide Messages;
    assert g.stream + [] == g.stream;
  }

  lemma Drained(g: Frame)
    requires Inv(g) && NextCode(g) <= 0
    ensures g.consumed == Messages(g.stream, g.start)
  {
    hide Queues, Placed, Answer, Stop, Parsed;
    ParsedComplete(g.stream, g.start, g.Resume(), g.eof, g.consumed);
  }

  // Chunking does not matter: two runs that have received the same stream and drained it have
  // yielded the same messages, however each was split, compacted and interleaved.
  lemma ChunkingIndependent(states1: seq<Frame>, ops1: seq<Op>, k1: nat, states2: seq<Frame>, ops2: seq<Op>, k2: nat)
    requires Run(states1, ops1) && k1 < |states1| && Starting(states1[0])
    requires Run(states2, ops2) && k2 < |states2| && states2[0] == states1[0]
    ensures var g1, g2 := states1[k1], states2[k2];
      g1.stream == g2.stream && NextCode(g1) <= 0 && NextCode(g2) <= 0 ==> g1.consumed == g2.consumed
  {
    hide Starting, Run, NextCode, Messages;
    RunRefinesParse(states1, ops1, k1);
    RunRefinesParse(states2, ops2, k2);
  }

  // In every state the queue holds only descriptors pinned to bytes of the head message, its first
  // eight less any claimed; `fd_total` counts all of them. When none was closed out of turn, those are,
  // in order, all that got here of the ones attached to bytes from its first on, and the set is marked
  // incomplete exactly when the kernel dropped one of those.
  lemma RunAttributes(states: seq<Frame>, ops: seq<Op>, k: nat)
    requires Run(states, ops) && k < |states| && Starting(states[0])
    ensures var g := states[k];
      && multiset(g.led.queued) + multiset(g.led.claimed) == multiset(First8(g.led.head))
      && (forall a | a in g.led.head :: g.pos <= a.at < |g.stream|)
      && (AfterNext(g) == g && NextCode(g) > 0 ==> forall a | a in g.led.head :: g.pos <= a.at < g.pos + NextCode(g))
      && (g.led.whole && g.skip == 0 ==>
            && g.led.head == Arrivals(CameFrom(g.came, g.pos))
            && (g.bad <==> exists c :: c in CameFrom(g.came, g.pos) && c.fate.Gone?))
  {
    hide Starting, Run, Parsed, Answer, NextCode, AfterNext, Accounted, Arrivals, CameFrom;
    var g := states[k];
    StartingSteady(states[0]);
    RunSteady(states, ops, k);
    NextAgain(g);
    if g.led.whole && g.skip == 0 {
      HeadOf(g.led, g.came, g.pos, Stop(g.stream, g.pos, 0), g.bad, |g.stream|);
    }
  }

  // Compaction is amortised: no run moves more bytes than it receives.
  lemma RunAmortised(states: seq<Frame>, ops: seq<Op>, k: nat)
    requires Run(states, ops) && k < |states| && Starting(states[0])
    ensures states[k].moved <= |states[k].stream|
  {
    hide Inv, Starting, Run;
    StartingSteady(states[0]);
    RunSteady(states, ops, k);
  }

  // Once end of file is recorded, need_more is never answered again, and the framer says `eof` exactly
  // at a message boundary.
  lemma RunAtEof(states: seq<Frame>, ops: seq<Op>, k: nat)
    requires Run(states, ops) && k < |states| && Starting(states[0])
    ensures var g := states[k];
      g.eof && NextCode(g) <= 0 && !IsFault(NextCode(g)) ==>
        NextCode(g) == if AfterNext(g).skip == 0 && AfterNext(g).pos == |g.stream| then EOF else TRUNCATED
  {
    hide Starting, Run, Parsed, Queues, Placed, Answer, Stop;
    var g := states[k];
    StartingSteady(states[0]);
    RunSteady(states, ops, k);
    AnswerCodes(g.stream, g.Resume(), g.eof);
    AnswerIsNextMessage(g.stream, g.Resume(), g.eof);
  }

  // A framing fault stays: no later call receives, yields or consumes anything.
  lemma {:induction false} FaultsStay(states: seq<Frame>, ops: seq<Op>, k: nat)
    requires Run(states, ops) && k < |states|
    requires IsFault(NextCode(states[0])) && AfterNext(states[0]) == states[0]
    ensures var f, g := states[0], states[k];
      && NextCode(g) == NextCode(f) && AfterNext(g) == g
      && g.stream == f.stream && g.consumed == f.consumed && g.pos == f.pos
  {
    hide Inv, Enabled, Step, AfterNext, NextCode;
    if k > 0 {
      FaultsStay(states, ops, k - 1);
      assert Makes(states[k - 1], ops[k - 1], states[k]);
      FaultStep(states[k - 1], ops[k - 1]);
    }
  }

  lemma FaultStep(f: Frame, op: Op)
    requires Inv(f) && Enabled(f, op) && IsFault(NextCode(f)) && AfterNext(f) == f
    ensures var g := Step(f, op);
      && NextCode(g) == NextCode(f) && AfterNext(g) == g
      && g.stream == f.stream && g.consumed == f.consumed && g.pos == f.pos
  {
    hide Parsed, Queues, Placed, Accounted, Answer, Stop, Arrive;
  }
}
