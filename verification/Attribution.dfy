// Which descriptors belong to which message, as a ledger over the stream: the framer keeps one
// beside its queue, and each thing it does to the queue is a step here.
module Attribution {
  import opened Kernel

  const FDQ_CAP := 8

  // A descriptor that reached the framer: the stream position of the byte it came with, its number.
  datatype Arrival = Arrival(at: nat, fd: nat)

  // `past`, then `head`: every descriptor that arrived; those in `head` came with the head message.
  // `queued` are the ones in the queue, `claimed` the ones handed out of it.
  // `whole`: none of the head message's was put in `past` while the head message was still there.
  // `late`: one arrived after another of the same message had been claimed.
  datatype Ledger = Ledger(past: seq<Arrival>, head: seq<Arrival>, queued: seq<Arrival>, claimed: seq<Arrival>,
                           whole: bool, late: bool)

  const EMPTY := Ledger([], [], [], [], true, false)

  // What became of a descriptor the peer sent on its way to the framer: it got there, under this number;
  // it was lost when it could not be moved off a stdio number; or the kernel dropped it.
  datatype Fate = Has(n: nat) | Lost | Gone

  datatype Came = Came(pin: Pin, fate: Fate)

  // A descriptor keeps its number unless that is a stdio one.
  predicate FateOk(c: Came) {
    match c.fate
    case Has(n) => if c.pin.fd > 2 then n == c.pin.fd else n >= 3
    case Lost => c.pin.fd <= 2
    case Gone => true
  }

  // `cs` says what became of each of `ps`, in order.
  ghost predicate Fates(cs: seq<Came>, ps: seq<Pin>) {
    |cs| == |ps| && forall i | 0 <= i < |cs| :: cs[i].pin == ps[i] && FateOk(cs[i])
  }

  // Those that got to the framer.
  function Arrivals(cs: seq<Came>): (s: seq<Arrival>)
    decreases |cs|
  {
    if cs == [] then []
    else
      var k := |cs| - 1;
      Arrivals(cs[..k]) + if cs[k].fate.Has? then [Arrival(cs[k].pin.at, cs[k].fate.n)] else []
  }

  // Those attached to bytes from `lo` on.
  function CameFrom(cs: seq<Came>, lo: nat): (r: seq<Came>)
    decreases |cs|
  {
    if cs == [] then []
    else
      var k := |cs| - 1;
      CameFrom(cs[..k], lo) + if lo <= cs[k].pin.at then [cs[k]] else []
  }

  // The first eight, or all there are.
  function First8(s: seq<Arrival>): (r: seq<Arrival>)
    ensures r <= s && |r| == if |s| < 8 then |s| else 8
  {
    if |s| <= FDQ_CAP then s else s[..FDQ_CAP]
  }

  ghost function All(l: Ledger): seq<Arrival> {
    l.past + l.head
  }

  // Every one of `s` came with a byte in [lo, hi).
  ghost predicate Within(s: seq<Arrival>, lo: nat, hi: nat) {
    forall a | a in s :: lo <= a.at < hi
  }

  // The queue holds the first eight of the head message's descriptors, less any that was claimed.
  ghost predicate Queues(l: Ledger) {
    && |l.queued| <= FDQ_CAP
    && multiset(l.queued) + multiset(l.claimed) <= multiset(l.head)
    && (!l.late ==> multiset(l.queued) + multiset(l.claimed) == multiset(First8(l.head)))
    && (l.claimed == [] ==> l.queued == First8(l.head) && !l.late)
  }

  // The head message's bytes received so far end at `hi` and start at `lo`, it ends at or past
  // `stop`, and everything before `resume` belongs to messages that are gone.
  ghost predicate Placed(l: Ledger, lo: nat, hi: nat, stop: nat, resume: nat) {
    && Within(l.head, lo, hi)
    && Within(l.head, lo, stop)
    && (l.whole ==> Within(l.past, 0, resume))
  }

  // The ledger holds what got to the framer, in order. What came with bytes from `resume` on came with
  // bytes before `stop`, and `bad` says exactly whether the kernel dropped some of it.
  ghost predicate Accounted(l: Ledger, came: seq<Came>, resume: nat, stop: nat, bad: bool) {
    && All(l) == Arrivals(came)
    && (l.whole ==> forall c | c in came :: c.pin.at < resume || (c.pin.at < stop && (c.fate.Gone? ==> bad)))
    && (l.whole && bad ==> exists c :: c in came && c.fate.Gone? && resume <= c.pin.at)
  }

  // ---- the steps ----

  function Pushed(l: Ledger, a: Arrival): (r: Ledger) {
    l.(head := l.head + [a],
       queued := if |l.queued| < FDQ_CAP then l.queued + [a] else l.queued,
       late := l.late || l.claimed != [])
  }

  function Claimed(l: Ledger, i: nat): (r: Ledger)
    requires i < |l.queued|
  {
    l.(queued := l.queued[..i] + l.queued[i + 1..], claimed := l.claimed + [l.queued[i]])
  }

  // The head message's descriptors are closed while it is still there. If there were any, or some are
  // known to be missing, what is left of the message no longer has all of its own.
  function Dropped(l: Ledger, bad: bool): (r: Ledger) {
    Ledger(l.past + l.head, [], [], [], l.whole && l.head == [] && !bad, false)
  }

  // The head message's descriptors are gone because the head message is.
  function Passed(l: Ledger): (r: Ledger) {
    Ledger(l.past + l.head, [], [], [], l.whole, false)
  }

  // One that arrives while its message is discarded is passed at once.
  function Drained(l: Ledger, a: Arrival): (r: Ledger) {
    l.(past := l.past + [a])
  }

  lemma PushQueues(l: Ledger, a: Arrival)
    requires Queues(l)
    ensures Queues(Pushed(l, a))
  {
    assert multiset(l.head + [a]) == multiset(l.head) + multiset{a};
    if l.claimed == [] {
      assert First8(l.head + [a]) == if |l.head| < FDQ_CAP then l.head + [a] else First8(l.head);
    }
  }

  lemma ClaimQueues(l: Ledger, i: nat)
    requires Queues(l) && i < |l.queued|
    ensures Queues(Claimed(l, i))
  {
    assert l.queued == l.queued[..i] + [l.queued[i]] + l.queued[i + 1..];
  }

  lemma QueuesOfNothing(l: Ledger)
    requires l.queued == l.claimed == l.head == [] && !l.late
    ensures Queues(l)
  {
  }

  lemma QueuesOfDrained(l: Ledger, a: Arrival)
    requires Queues(l)
    ensures Queues(Drained(l, a))
  {
  }

  lemma ClaimPlaced(l: Ledger, i: nat, lo: nat, hi: nat, stop: nat, resume: nat)
    requires Placed(l, lo, hi, stop, resume) && i < |l.queued|
    ensures Placed(Claimed(l, i), lo, hi, stop, resume)
  {
  }

  lemma PushPlaced(l: Ledger, a: Arrival, lo: nat, hi: nat, stop: nat, resume: nat)
    requires Placed(l, lo, hi, stop, resume)
    requires lo <= a.at < hi && a.at < stop
    ensures Placed(Pushed(l, a), lo, hi, stop, resume)
  {
  }

  lemma DrainPlaced(l: Ledger, a: Arrival, lo: nat, hi: nat, stop: nat, resume: nat)
    requires Placed(l, lo, hi, stop, resume) && a.at < resume
    ensures Placed(Drained(l, a), lo, hi, stop, resume)
  {
  }

  lemma ClosePlaced(l: Ledger, bad: bool, lo: nat, hi: nat, stop: nat, resume: nat)
    requires Placed(l, lo, hi, stop, resume)
    ensures Placed(Dropped(l, bad), lo, hi, stop, resume)
  {
    assert l.head == [] ==> l.past + l.head == l.past;
  }

  // Advancing past the head message, or to the end of a stretch that is discarded.
  lemma PassPlaced(l: Ledger, lo: nat, hi: nat, stop: nat, resume: nat, lo': nat, hi': nat, stop': nat, resume': nat)
    requires Placed(l, lo, hi, stop, resume)
    requires stop <= resume' && resume <= resume'
    ensures Placed(Passed(l), lo', hi', stop', resume')
  {
  }

  // ---- accounting for what came ----

  lemma ArrivalsOne(came: seq<Came>, c: Came)
    ensures Arrivals(came + [c])
         == if c.fate.Has? then Arrivals(came) + [Arrival(c.pin.at, c.fate.n)] else Arrivals(came)
  {
    assert (came + [c])[..|came|] == came;
  }

  // One more, while its message is at the head.
  lemma PushAccounted(l: Ledger, came: seq<Came>, c: Came, resume: nat, stop: nat, bad: bool)
    requires Accounted(l, came, resume, stop, bad) && resume <= c.pin.at < stop
    ensures c.fate.Has? ==> Accounted(Pushed(l, Arrival(c.pin.at, c.fate.n)), came + [c], resume, stop, bad)
    ensures c.fate.Lost? ==> Accounted(l, came + [c], resume, stop, bad)
    ensures c.fate.Gone? ==> Accounted(l, came + [c], resume, stop, true)
  {
    ArrivalsOne(came, c);
    assert c in came + [c];
    assert forall d :: d in came + [c] <==> d in came || d == c;
    if c.fate.Has? {
      assert l.past + (l.head + [Arrival(c.pin.at, c.fate.n)]) == All(l) + [Arrival(c.pin.at, c.fate.n)];
    }
  }

  // One more, while its message is being discarded.
  lemma DrainAccounted(l: Ledger, came: seq<Came>, c: Came, resume: nat, stop: nat, bad: bool)
    requires Accounted(l, came, resume, stop, bad) && c.pin.at < resume && l.head == []
    ensures c.fate.Has? ==> Accounted(Drained(l, Arrival(c.pin.at, c.fate.n)), came + [c], resume, stop, bad)
    ensures !c.fate.Has? ==> Accounted(l, came + [c], resume, stop, bad)
  {
    ArrivalsOne(came, c);
    assert forall d :: d in came + [c] <==> d in came || d == c;
    assert l.past + [] == l.past;
    if c.fate.Has? {
      var a := Arrival(c.pin.at, c.fate.n);
      assert (l.past + [a]) + [] == l.past + [a];
    }
  }

  lemma GrowAccounted(l: Ledger, came: seq<Came>, resume: nat, stop: nat, bad: bool, stop': nat)
    requires Accounted(l, came, resume, stop, bad) && stop <= stop'
    ensures Accounted(l, came, resume, stop', bad)
  {
  }

  lemma EatAccounted(l: Ledger, came: seq<Came>, resume: nat, stop: nat, bad: bool, resume': nat, stop': nat)
    requires Accounted(l, came, resume, stop, bad) && came == []
    ensures l.head == [] && Accounted(l, came, resume', stop', bad)
  {
  }

  lemma ClaimAccounted(l: Ledger, i: nat, came: seq<Came>, resume: nat, stop: nat, bad: bool)
    requires Accounted(l, came, resume, stop, bad) && i < |l.queued|
    ensures Accounted(Claimed(l, i), came, resume, stop, bad)
  {
  }

  lemma CloseAccounted(l: Ledger, came: seq<Came>, resume: nat, stop: nat, bad: bool)
    requires Accounted(l, came, resume, stop, bad)
    ensures Accounted(Dropped(l, bad), came, resume, stop, false)
  {
    assert (l.past + l.head) + [] == l.past + l.head;
  }

  lemma PassAccounted(l: Ledger, came: seq<Came>, resume: nat, stop: nat, bad: bool, resume': nat, stop': nat)
    requires Accounted(l, came, resume, stop, bad)
    requires stop <= resume' && resume <= resume'
    ensures Accounted(Passed(l), came, resume', stop', false)
  {
    assert (l.past + l.head) + [] == l.past + l.head;
  }

  lemma CameFromOne(cs: seq<Came>, c: Came, lo: nat)
    ensures CameFrom(cs + [c], lo) == if lo <= c.pin.at then CameFrom(cs, lo) + [c] else CameFrom(cs, lo)
  {
    assert (cs + [c])[..|cs|] == cs;
  }

  lemma {:induction false} ArrivalsFrom(cs: seq<Came>, lo: nat)
    ensures Arrivals(CameFrom(cs, lo)) == Since(Arrivals(cs), lo)
    decreases |cs|
  {
    if cs != [] {
      var k := |cs| - 1;
      var c := cs[k];
      ArrivalsFrom(cs[..k], lo);
      ArrivalsOne(cs[..k], c);
      ArrivalsOne(CameFrom(cs[..k], lo), c);
      CameFromOne(cs[..k], c, lo);
      assert cs == cs[..k] + [c];
      hide Arrivals, CameFrom, Since;
      if c.fate.Has? {
        SinceOne(Arrivals(cs[..k]), Arrival(c.pin.at, c.fate.n), lo);
      }
    }
  }

  // Those of `s` that came with bytes from `lo` on.
  function Since(s: seq<Arrival>, lo: nat): (r: seq<Arrival>)
    decreases |s|
  {
    if s == [] then []
    else
      var k := |s| - 1;
      Since(s[..k], lo) + if lo <= s[k].at then [s[k]] else []
  }

  lemma SinceOne(s: seq<Arrival>, a: Arrival, lo: nat)
    ensures Since(s + [a], lo) == if lo <= a.at then Since(s, lo) + [a] else Since(s, lo)
  {
    assert (s + [a])[..|s|] == s;
  }

  lemma {:induction false} SinceSplit(past: seq<Arrival>, head: seq<Arrival>, lo: nat)
    requires forall i | 0 <= i < |past| :: past[i].at < lo
    requires forall i | 0 <= i < |head| :: lo <= head[i].at
    ensures Since(past + head, lo) == head
    decreases |head|
  {
    hide Since;
    if head == [] {
      assert past + [] == past;
      SinceNone(past, lo);
    } else {
      var k := |head| - 1;
      SinceSplit(past, head[..k], lo);
      assert past + head == (past + head[..k]) + [head[k]];
      SinceOne(past + head[..k], head[k], lo);
    }
  }

  lemma {:induction false} SinceNone(s: seq<Arrival>, lo: nat)
    requires forall i | 0 <= i < |s| :: s[i].at < lo
    ensures Since(s, lo) == []
    decreases |s|
  {
    if s != [] {
      SinceNone(s[..|s| - 1], lo);
    }
  }

  lemma {:induction false} InCameFrom(cs: seq<Came>, lo: nat)
    ensures forall c :: c in CameFrom(cs, lo) <==> c in cs && lo <= c.pin.at
    decreases |cs|
  {
    if cs != [] {
      var k := |cs| - 1;
      InCameFrom(cs[..k], lo);
      assert cs == cs[..k] + [cs[k]];
    }
  }

  // What became of the pins from `lo` on.
  lemma {:induction false} FatesFrom(cs: seq<Came>, ps: seq<Pin>, lo: nat)
    requires Fates(cs, ps)
    ensures Fates(CameFrom(cs, lo), PinsFrom(ps, lo))
    decreases |cs|
  {
    if cs != [] {
      var k := |cs| - 1;
      FatesFrom(cs[..k], ps[..k], lo);
    }
  }

  // The head message's descriptors are those of its pins that got here, when none was put aside.
  lemma HeadOf(l: Ledger, came: seq<Came>, pos: nat, stop: nat, bad: bool, hi: nat)
    requires Accounted(l, came, pos, stop, bad) && Placed(l, pos, hi, stop, pos) && l.whole
    ensures l.head == Arrivals(CameFrom(came, pos))
    ensures bad <==> exists c :: c in CameFrom(came, pos) && c.fate.Gone?
    ensures forall c | c in came :: c.pin.at < stop || c.pin.at < pos
  {
    hide Arrivals, CameFrom, Since;
    InCameFrom(came, pos);
    ArrivalsFrom(came, pos);
    SinceSplit(l.past, l.head, pos);
  }

  // What became of a message's pins, when what came reaches to `b` and stops short of `hi` past `lo`.
  lemma FatesBetween(came: seq<Came>, pins: seq<Pin>, a: nat, b: nat, lo: nat, hi: nat)
    requires Fates(came, PinsIn(pins, a, b)) && lo <= hi <= b
    requires forall c | c in came :: c.pin.at < hi || c.pin.at < lo
    ensures Fates(CameFrom(came, lo), PinsIn(pins, if a <= lo then lo else a, hi))
  {
    hide PinsIn, CameFrom, PinsFrom;
    var ps := PinsIn(pins, a, b);
    FatesFrom(came, ps, lo);
    forall p | p in ps
      ensures p.at < hi || p.at < lo
    {
      var i :| 0 <= i < |ps| && ps[i] == p;
      assert came[i] in came;
    }
    PinsBetween(pins, a, b, lo, hi);
  }

  // ---- open descriptors ----

  lemma QueueOne(live: multiset<int>, q: seq<int>, fd: int)
    requires multiset(q) <= live && fd in live - multiset(q)
    ensures multiset(q + [fd]) <= live
    ensures live - multiset(q + [fd]) == (live - multiset(q)) - multiset{fd}
    ensures fd in live && multiset(q) <= live - multiset{fd}
    ensures (live - multiset{fd}) - multiset(q) == (live - multiset(q)) - multiset{fd}
  {
  }

  lemma ClaimOne(live: multiset<int>, q: seq<int>, i: nat)
    requires i < |q| && multiset(q) <= live
    ensures multiset(q[..i] + q[i + 1..]) <= live
    ensures live - multiset(q[..i] + q[i + 1..]) == live - multiset(q) + multiset{q[i]}
  {
    assert q == q[..i] + [q[i]] + q[i + 1..];
  }
}
