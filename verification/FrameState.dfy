// The framer as a state machine over the stream: what each of its operations does to the parse, to
// the descriptors' ledger and to the buffer's window, and what every reachable state satisfies. The
// class in module Framer computes these steps on its cursors and arrays.
module FrameState {
  import opened Bytes
  import opened Framing
  import opened Kernel
  import opened Attribution

  datatype Frame = Frame(
    stream: seq<Byte>,     // every byte received since init
    abs0: nat,             // stream position of the buffer's first byte
    pos: nat,              // of the first unconsumed byte
    skip: nat,             // bytes still to discard of an over-cap message
    eof: bool,
    start: nat,            // where the binary stream begins: past the SASL lines
    consumed: seq<Item>,   // the messages yielded and advanced past
    led: Ledger,           // the descriptors that arrived, and the messages they came with
    came: seq<Came>,       // what became of each descriptor attached to the bytes received
    bad: bool,             // the head message's descriptor set is incomplete
    moved: nat,            // bytes moved by compaction
    movedTo: nat)          // no byte at or past this position has been moved
  {
    ghost function Resume(): nat {
      pos + skip
    }

    function Unread(): int {
      |stream| - pos
    }
  }

  const INIT := Frame([], 0, 0, 0, false, 0, [], EMPTY, [], false, 0, 0)

  // The bytes in the buffer are a window of the stream; the ledger's head descriptors are pinned to
  // bytes of the head message, and every descriptor is accounted for; what has been yielded is what the
  // parse of the stream yields.
  ghost predicate Inv(f: Frame) {
    && f.abs0 <= f.pos <= |f.stream| <= f.abs0 + CAP
    && Queues(f.led)
    && Placed(f.led, f.pos, |f.stream|, Stop(f.stream, f.pos, f.skip), f.Resume())
    && Accounted(f.led, f.came, f.Resume(), Stop(f.stream, f.pos, f.skip), f.bad)
    && (f.skip > 0 ==> f.led.head == [] && !f.bad)
    && f.start <= f.Resume()
    && Parsed(f.stream, f.start, f.Resume(), f.consumed)
  }

  // No byte is moved twice: a moved partial message stays at the front of the buffer until consumed.
  ghost predicate Amortised(f: Frame) {
    && f.pos <= |f.stream|
    && f.moved <= f.movedTo <= |f.stream|
    && (f.movedTo <= f.pos || (f.pos == f.abs0 && f.skip == 0 && f.movedTo <= Stop(f.stream, f.pos, 0)))
  }

  // ---- the steps ----

  function Committed(f: Frame, data: seq<Byte>): (g: Frame) {
    f.(stream := f.stream + data)
  }

  // The SASL reader takes `n` bytes; the binary stream begins where it stops.
  function Eaten(f: Frame, n: int): (g: Frame)
    requires f.pos <= |f.stream|
  {
    if n <= 0 then f
    else
      var p := if f.pos + n <= |f.stream| then f.pos + n else |f.stream|;
      f.(pos := p, start := p, consumed := [])
  }

  // Bring the head message to the front of the buffer.
  function Compacted(f: Frame): (g: Frame)
    requires f.abs0 <= f.pos <= |f.stream|
  {
    if f.pos == f.abs0 then f
    else f.(abs0 := f.pos, moved := f.moved + f.Unread(), movedTo := |f.stream|)
  }

  // A descriptor arrives, or does not.
  function Pushed1(f: Frame, c: Came): (g: Frame) {
    var g := f.(came := f.came + [c]);
    match c.fate
    case Has(n) =>
      var a := Arrival(c.pin.at, n);
      if f.skip > 0 then g.(led := Drained(f.led, a)) else g.(led := Pushed(f.led, a))
    case Lost => g
    case Gone => g.(bad := f.bad || f.skip == 0)
  }

  function Claimed1(f: Frame, i: int): (g: Frame) {
    if 0 <= i < |f.led.queued| then f.(led := Claimed(f.led, i)) else f
  }

  function FdsClosed(f: Frame): (g: Frame) {
    f.(led := Dropped(f.led, f.bad), bad := false)
  }

  // The state in which `Next` answers, and its answer. Discarding moves the cursor to the end of the
  // over-cap message or of the bytes received, whichever comes first; the descriptors of what is
  // discarded are passed.
  function AfterNext(f: Frame): (g: Frame)
  {
    var at := Answer(f.stream, f.pos + f.skip, f.eof).at;
    if at == f.pos then f
    else f.(pos := if at <= |f.stream| then at else |f.stream|,
            skip := if at <= |f.stream| then 0 else at - |f.stream|,
            led := Passed(f.led), bad := false)
  }

  function NextCode(f: Frame): (r: int) {
    Answer(f.stream, f.pos + f.skip, f.eof).code
  }

  // `Next` has just said need_more.
  ghost predicate Hungry(f: Frame) {
    f.pos <= |f.stream| && NextCode(f) == NEED_MORE && AfterNext(f) == f
  }

  // The head message is a whole one of `n` bytes: what `Next` said when it answered `n`.
  ghost predicate HeadIs(f: Frame, n: int) {
    f.skip == 0 && WholeAt(f.stream, f.pos, n)
  }

  function Head(f: Frame, n: nat): (m: Item)
    requires f.pos + n <= |f.stream|
  {
    Item(f.pos, f.stream[f.pos..f.pos + n])
  }

  function Advanced(f: Frame, n: int): (g: Frame)
    requires n > 0 ==> f.pos + n <= |f.stream|
  {
    if n <= 0 then f
    else f.(pos := f.pos + n, consumed := f.consumed + [Head(f, n)], led := Passed(f.led), bad := false)
  }

  // One stretch of discarding: as much of it as has been received.
  function DrainStep(f: Frame): (g: Frame)
    requires f.pos <= |f.stream|
  {
    var take := if f.skip <= |f.stream| - f.pos then f.skip else |f.stream| - f.pos;
    f.(pos := f.pos + take, skip := f.skip - take)
  }

  lemma DrainTakes(f: Frame, take: nat)
    requires f.pos <= |f.stream| && take == if f.skip <= |f.stream| - f.pos then f.skip else |f.stream| - f.pos
    ensures DrainStep(f) == f.(pos := f.pos + take, skip := f.skip - take)
  {
  }

  // The over-cap message at the head, declared `total` bytes long, is to be discarded.
  function SkipStep(f: Frame, total: nat): (g: Frame) {
    f.(skip := total, led := Passed(f.led), bad := false)
  }

  // What a bounded receive leaves alone.
  ghost predicate SameHead(f: Frame, g: Frame) {
    && f.pos == g.pos && f.skip == g.skip && f.start == g.start && f.consumed == g.consumed
    && f.led.claimed == g.led.claimed && f.led.whole == g.led.whole
  }

  // The descriptors `cs` arrive one by one, the last one last.
  ghost function Arrive(f: Frame, cs: seq<Came>): (g: Frame)
    ensures SameHead(f, g) && g.stream == f.stream && g.eof == f.eof && g.abs0 == f.abs0
    ensures g.moved == f.moved && g.movedTo == f.movedTo && g.came == f.came + cs
    decreases |cs|
  {
    if cs == [] then f
    else
      var k := |cs| - 1;
      Pushed1(Arrive(f, cs[..k]), cs[k])
  }

  lemma ArriveOne(f: Frame, cs: seq<Came>, c: Came)
    ensures Arrive(f, cs + [c]) == Pushed1(Arrive(f, cs), c)
  {
    assert (cs + [c])[..|cs|] == cs;
  }

  lemma {:induction false} ArriveMore(f: Frame, cs: seq<Came>, ds: seq<Came>)
    ensures Arrive(f, cs + ds) == Arrive(Arrive(f, cs), ds)
    decreases |ds|
  {
    if ds == [] {
      assert cs + ds == cs;
    } else {
      var k := |ds| - 1;
      ArriveMore(f, cs, ds[..k]);
      assert cs + ds == (cs + ds[..k]) + [ds[k]];
      ArriveOne(f, cs + ds[..k], ds[k]);
    }
  }

  // The kernel dropped `ps`.
  function Drops(ps: seq<Pin>): (cs: seq<Came>)
    ensures |cs| == |ps| && forall i | 0 <= i < |ps| :: cs[i] == Came(ps[i], Gone)
  {
    seq(|ps|, i requires 0 <= i < |ps| => Came(ps[i], Gone))
  }

  lemma {:induction false} ArriveDrops(f: Frame, ps: seq<Pin>)
    requires ps != []
    ensures Arrive(f, Drops(ps)) == f.(bad := f.bad || f.skip == 0, came := f.came + Drops(ps))
    decreases |ps|
  {
    var k := |ps| - 1;
    assert Drops(ps)[..k] == Drops(ps[..k]);
    assert Drops(ps) == Drops(ps[..k]) + [Came(ps[k], Gone)];
    if k > 0 {
      ArriveDrops(f, ps[..k]);
    } else {
      assert Arrive(f, []) == f;
    }
  }

  lemma {:induction false} DropsInv(f: Frame, ps: seq<Pin>)
    requires Inv(f)
    requires forall p | p in ps :: f.pos <= p.at < |f.stream| && p.at < Stop(f.stream, f.pos, f.skip)
    ensures Inv(Arrive(f, Drops(ps)))
    ensures Amortised(f) ==> Amortised(Arrive(f, Drops(ps)))
    decreases |ps|
  {
    hide Inv, Stop, Amortised;
    if ps != [] {
      var k := |ps| - 1;
      DropsInv(f, ps[..k]);
      assert ps[k] in ps;
      assert Drops(ps) == Drops(ps[..k]) + [Came(ps[k], Gone)];
      ArriveOne(f, Drops(ps[..k]), Came(ps[k], Gone));
      PushInv(Arrive(f, Drops(ps[..k])), Came(ps[k], Gone));
    }
  }

  // The bytes of one receive, and what became of the descriptors attached to them.
  ghost function Absorbed(f: Frame, data: seq<Byte>, cs: seq<Came>): (g: Frame) {
    Arrive(Committed(f, data), cs)
  }

  // ---- what every step keeps ----

  lemma InitInv()
    ensures Inv(INIT) && Amortised(INIT)
  {
    ParsedStart([], 0);
  }

  lemma CommitInv(f: Frame, data: seq<Byte>)
    requires Inv(f) && |f.stream| + |data| <= f.abs0 + CAP
    ensures Inv(Committed(f, data))
    ensures Amortised(f) ==> Amortised(Committed(f, data))
  {
    hide Parsed, Stop, Queues, Accounted;
    StopGrows(f.stream, data, f.pos, f.skip);
    StopGrows(f.stream, data, f.pos, 0);
    GrowAccounted(f.led, f.came, f.Resume(), Stop(f.stream, f.pos, f.skip), f.bad,
                  Stop(f.stream + data, f.pos, f.skip));
    ParsedReceive(f.stream, data, f.start, f.Resume(), f.consumed);
  }

  lemma EatInv(f: Frame, n: int)
    requires Inv(f) && f.skip == 0 && f.came == []
    ensures Inv(Eaten(f, n))
    ensures Amortised(f) && f.movedTo <= f.pos ==> Amortised(Eaten(f, n))
  {
    hide Parsed, Stop, Accounted;
    var g := Eaten(f, n);
    ParsedStart(f.stream, g.pos);
    EatAccounted(f.led, f.came, f.pos, Stop(f.stream, f.pos, 0), f.bad, g.pos, Stop(f.stream, g.pos, 0));
  }

  // Compaction keeps the unread bytes, their positions and the position received.
  lemma CompactInv(f: Frame)
    requires Inv(f)
    ensures var g := Compacted(f);
      && Inv(g)
      && g.stream == f.stream && g.pos == f.pos
      && (Amortised(f) && (if f.skip == 0 then |f.stream| <= Stop(f.stream, f.pos, 0) else f.Unread() == 0)
          ==> Amortised(g))
  {
    hide Parsed, Stop, Queues, Accounted;
  }

  lemma PushInv(f: Frame, c: Came)
    requires Inv(f)
    requires f.pos <= c.pin.at < |f.stream| && c.pin.at < Stop(f.stream, f.pos, f.skip)
    ensures Inv(Pushed1(f, c))
    ensures Amortised(f) ==> Amortised(Pushed1(f, c))
  {
    hide Inv, Amortised, Stop, Pushed1;
    if c.fate.Has? {
      if f.skip > 0 {
        DrainInv(f, c);
      } else {
        QueueInv(f, c);
      }
    } else {
      AbsentInv(f, c);
    }
  }

  lemma QueueInv(f: Frame, c: Came)
    requires Inv(f) && f.skip == 0 && c.fate.Has?
    requires f.pos <= c.pin.at < |f.stream| && c.pin.at < Stop(f.stream, f.pos, 0)
    ensures Inv(Pushed1(f, c))
    ensures Amortised(f) ==> Amortised(Pushed1(f, c))
  {
    hide Parsed, Stop, Queues, Placed, Accounted, Pushed;
    var a, stop := Arrival(c.pin.at, c.fate.n), Stop(f.stream, f.pos, 0);
    PushAccounted(f.led, f.came, c, f.pos, stop, f.bad);
    PushPlaced(f.led, a, f.pos, |f.stream|, stop, f.pos);
    PushQueues(f.led, a);
  }

  lemma DrainInv(f: Frame, c: Came)
    requires Inv(f) && f.skip > 0 && c.fate.Has?
    requires f.pos <= c.pin.at < f.Resume()
    ensures Inv(Pushed1(f, c))
    ensures Amortised(f) ==> Amortised(Pushed1(f, c))
  {
    hide Parsed, Stop, Queues, Placed, Accounted;
    var a, stop := Arrival(c.pin.at, c.fate.n), Stop(f.stream, f.pos, f.skip);
    DrainAccounted(f.led, f.came, c, f.Resume(), stop, f.bad);
    DrainPlaced(f.led, a, f.pos, |f.stream|, stop, f.Resume());
    QueuesOfDrained(f.led, a);
  }

  lemma AbsentInv(f: Frame, c: Came)
    requires Inv(f) && !c.fate.Has?
    requires f.pos <= c.pin.at < |f.stream| && c.pin.at < Stop(f.stream, f.pos, f.skip)
    ensures Inv(Pushed1(f, c))
    ensures Amortised(f) ==> Amortised(Pushed1(f, c))
  {
    hide Parsed, Stop, Queues, Placed, Accounted;
    if f.skip > 0 {
      DrainAccounted(f.led, f.came, c, f.Resume(), Stop(f.stream, f.pos, f.skip), f.bad);
    } else {
      PushAccounted(f.led, f.came, c, f.pos, Stop(f.stream, f.pos, 0), f.bad);
    }
  }

  lemma ClaimInv(f: Frame, i: int)
    requires Inv(f)
    ensures Inv(Claimed1(f, i))
    ensures Amortised(f) ==> Amortised(Claimed1(f, i))
  {
    hide Parsed, Stop, Queues, Placed, Accounted;
    if 0 <= i < |f.led.queued| {
      ClaimQueues(f.led, i);
      ClaimAccounted(f.led, i, f.came, f.Resume(), Stop(f.stream, f.pos, f.skip), f.bad);
      ClaimPlaced(f.led, i, f.pos, |f.stream|, Stop(f.stream, f.pos, f.skip), f.Resume());
    }
  }

  lemma CloseInv(f: Frame)
    requires Inv(f)
    ensures Inv(FdsClosed(f))
    ensures Amortised(f) ==> Amortised(FdsClosed(f))
  {
    hide Parsed, Stop, Queues, Placed, Accounted;
    CloseAccounted(f.led, f.came, f.Resume(), Stop(f.stream, f.pos, f.skip), f.bad);
    ClosePlaced(f.led, f.bad, f.pos, |f.stream|, Stop(f.stream, f.pos, f.skip), f.Resume());
    QueuesOfNothing(Dropped(f.led, f.bad));
  }

  lemma AdvanceInv(f: Frame, n: int)
    requires Inv(f) && (n > 0 ==> HeadIs(f, n))
    ensures Inv(Advanced(f, n))
    ensures Amortised(f) ==> Amortised(Advanced(f, n))
  {
    hide Parsed, Queues, Placed, Accounted;
    if n > 0 {
      var g := Advanced(f, n);
      PassAccounted(f.led, f.came, f.pos, Stop(f.stream, f.pos, 0), f.bad, g.pos, Stop(g.stream, g.pos, 0));
      ParsedMessage(f.stream, f.start, f.pos, n, f.consumed);
      PassPlaced(f.led, f.pos, |f.stream|, Stop(f.stream, f.pos, 0), f.pos,
                 g.pos, |g.stream|, Stop(g.stream, g.pos, 0), g.pos);
      QueuesOfNothing(g.led);
    }
  }

  lemma NextInv(f: Frame)
    requires Inv(f)
    ensures Inv(AfterNext(f))
  {
    hide Parsed, Queues, Placed, Accounted, TotalAt, Answer, Stop;
    var g := AfterNext(f);
    AnswerIsNextMessage(f.stream, f.Resume(), f.eof);
    ParsedUpTo(f.stream, f.start, f.Resume(), f.eof, f.consumed);
    if g != f {
      StopBeforeAnswer(f.stream, f.pos, f.skip, f.eof);
      PassAccounted(f.led, f.came, f.Resume(), Stop(f.stream, f.pos, f.skip), f.bad,
                    g.Resume(), Stop(g.stream, g.pos, g.skip));
      PassPlaced(f.led, f.pos, |f.stream|, Stop(f.stream, f.pos, f.skip), f.Resume(),
                 g.pos, |g.stream|, Stop(g.stream, g.pos, g.skip), g.Resume());
      QueuesOfNothing(g.led);
    }
  }

  lemma NextAmortised(f: Frame)
    requires Inv(f) && Amortised(f)
    ensures Amortised(AfterNext(f))
  {
    hide Parsed, Queues, Placed, TotalAt, Answer, Stop;
    AnswerIsNextMessage(f.stream, f.Resume(), f.eof);
    if AfterNext(f) != f {
      StopBeforeAnswer(f.stream, f.pos, f.skip, f.eof);
    }
  }

  // Asking again changes nothing, and the answer stands.
  lemma NextAgain(f: Frame)
    requires f.pos <= |f.stream|
    ensures var g := AfterNext(f);
      && g.pos <= |f.stream|
      && NextCode(g) == NextCode(f)
      && AfterNext(g) == g
      && (NextCode(f) > 0 ==> HeadIs(g, NextCode(f)))
  {
    hide TotalAt, Answer;
    AnswerIsNextMessage(f.stream, f.Resume(), f.eof);
    AnswerAgain(f.stream, f.Resume(), f.eof);
    var v := Answer(f.stream, f.Resume(), f.eof);
    if v.at > |f.stream| {
      AnswerCodes(f.stream, f.Resume(), f.eof);
    }
  }

  // The three ways `Next` gets to its answer: it is still discarding; it starts discarding, and then
  // asks again; or the answer is about the head of the buffer.
  lemma NextDraining(f: Frame)
    requires Inv(f) && f.skip > 0
    ensures var g := DrainStep(f);
      && Inv(g) && g.led == Passed(g.led) && !g.bad
      && AfterNext(g) == AfterNext(f) && NextCode(g) == NextCode(f)
      && (g.skip > 0 ==> AfterNext(f) == g && NextCode(f) == if f.eof then TRUNCATED else NEED_MORE)
  {
    hide Parsed, TotalAt, Stop, Accounted;
    var g := DrainStep(f);
    GrowAccounted(f.led, f.came, f.Resume(), Stop(f.stream, f.pos, f.skip), f.bad, Stop(g.stream, g.pos, g.skip));
    AnswerIsNextMessage(f.stream, f.Resume(), f.eof);
    assert f.led.past + [] == f.led.past;
  }

  lemma NextSkipping(f: Frame)
    requires Inv(f) && f.skip == 0
    requires f.Unread() >= HDR_SIZE && CAP < TotalAt(f.stream, f.pos) < MSG_MAX
    ensures var g := SkipStep(f, TotalAt(f.stream, f.pos));
      && Inv(g)
      && AfterNext(g) == AfterNext(f) && NextCode(g) == NextCode(f)
      && g.Resume() > |g.stream|
  {
    hide Parsed, TotalAt, Queues, Placed, Accounted;
    var d := TotalAt(f.stream, f.pos);
    var g := SkipStep(f, d);
    ParsedOverCap(f.stream, f.start, f.pos, f.consumed);
    AnswerIsNextMessage(f.stream, f.pos + d, f.eof);
    PassAccounted(f.led, f.came, f.pos, Stop(f.stream, f.pos, 0), f.bad, f.pos + d, Stop(f.stream, f.pos, d));
    PassPlaced(f.led, f.pos, |f.stream|, Stop(f.stream, f.pos, 0), f.pos,
               f.pos, |f.stream|, Stop(f.stream, f.pos, d), f.pos + d);
    StopBeforeAnswer(f.stream, f.pos, 0, f.eof);
    QueuesOfNothing(g.led);
    assert f.led.past + f.led.head + [] == f.led.past + f.led.head;
  }

  lemma NextHere(f: Frame)
    requires Inv(f) && f.skip == 0
    requires f.Unread() >= HDR_SIZE ==> !(CAP < TotalAt(f.stream, f.pos) < MSG_MAX)
    ensures AfterNext(f) == f
    ensures NextCode(f) ==
      if f.Unread() == 0 then (if f.eof then EOF else NEED_MORE)
      else if f.Unread() < HDR_SIZE then (if f.eof then TRUNCATED else NEED_MORE)
      else
        var d := TotalAt(f.stream, f.pos);
        if d < 0 then d
        else if d >= MSG_MAX then TOO_LONG
        else if f.Unread() < d then (if f.eof then TRUNCATED else NEED_MORE)
        else d
  {
    hide Parsed, TotalAt, Stop, Queues, Placed, Accounted;
  }

  lemma {:induction false} AnswerAgain(s: seq<Byte>, p: nat, eof: bool)
    ensures Answer(s, Answer(s, p, eof).at, eof) == Answer(s, p, eof)
    decreases |s| - p
  {
    hide TotalAt;
    if p + HDR_SIZE <= |s| && CAP < TotalAt(s, p) < MSG_MAX {
      AnswerAgain(s, p + TotalAt(s, p), eof);
    }
  }

  lemma {:induction false} ParsedUpTo(s: seq<Byte>, start: nat, p: nat, eof: bool, done: seq<Item>)
    requires Parsed(s, start, p, done)
    ensures Parsed(s, start, Answer(s, p, eof).at, done)
    decreases |s| - p
  {
    hide TotalAt, Parsed;
    if p + HDR_SIZE <= |s| && CAP < TotalAt(s, p) < MSG_MAX {
      ParsedOverCap(s, start, p, done);
      ParsedUpTo(s, start, p + TotalAt(s, p), eof, done);
    }
  }

  // The answer is never about a place before the end of what a read was bounded by, unless it is
  // about the head message itself.
  lemma StopBeforeAnswer(s: seq<Byte>, p: nat, skip: nat, eof: bool)
    requires p <= |s|
    requires Answer(s, p + skip, eof).at != p
    ensures Stop(s, p, skip) <= Answer(s, p + skip, eof).at
  {
    hide TotalAt;
    AnswerIsNextMessage(s, p + skip, eof);
    if skip == 0 && p + HDR_SIZE <= |s| && CAP < TotalAt(s, p) < MSG_MAX {
      AnswerIsNextMessage(s, p + TotalAt(s, p), eof);
    }
  }

  // Of a whole message at the head, when nothing of it was closed out of turn: its descriptors are
  // those of the pins on its own bytes that got here, in order, and `bad` says whether the kernel
  // dropped any of them. Pins before `from` came before the first message was looked for.
  lemma HeadPins(f: Frame, n: nat, pins: seq<Pin>, from: nat)
    requires Inv(f) && HeadIs(f, n) && f.led.whole
    requires Fates(f.came, PinsIn(pins, from, |f.stream|))
    ensures var cs := CameFrom(f.came, f.pos);
      && Fates(cs, PinsIn(pins, if from <= f.pos then f.pos else from, f.pos + n))
      && f.led.head == Arrivals(cs)
      && (f.bad <==> exists c :: c in cs && c.fate.Gone?)
  {
    hide Parsed, Queues, Placed, Accounted, Fates, PinsIn, CameFrom, Arrivals, TotalAt;
    HeadOf(f.led, f.came, f.pos, f.pos + n, f.bad, |f.stream|);
    FatesBetween(f.came, pins, from, |f.stream|, f.pos, f.pos + n);
  }

  // After need_more there is something to read, and room for it in front of the next boundary.
  lemma HungryRoom(f: Frame)
    requires Inv(f) && Hungry(f)
    ensures |f.stream| < Stop(f.stream, f.pos, f.skip)
    ensures f.skip == 0 ==> Stop(f.stream, f.pos, 0) <= f.pos + CAP
    ensures f.skip > 0 ==> f.Unread() == 0
  {
    hide Parsed, Queues, Placed, Stop, Answer;
    AnswerCodes(f.stream, f.Resume(), f.eof);
    NeedMoreIsStrictPrefix(f.stream, f.Resume());
    AnswerIsNextMessage(f.stream, f.Resume(), f.eof);
  }
}
