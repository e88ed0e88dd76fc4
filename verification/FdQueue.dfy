// The queue of the head message's descriptors, over a fixed array of eight words.
module FdQueue {
  import opened Kernel
  import opened Attribution
  import opened Framing

  function Fds(s: seq<Arrival>): (q: seq<int>)
    ensures |q| == |s|
    ensures forall k | 0 <= k < |s| :: q[k] == s[k].fd
  {
    seq(|s|, k requires 0 <= k < |s| => s[k].fd)
  }

  // The open descriptors the queue does not hold: every descriptor delivered is queued, closed, or
  // among these.
  ghost function Outside(live: multiset<int>, l: Ledger): (m: multiset<int>) {
    live - multiset(Fds(l.queued))
  }

  ghost predicate QueueOpen(live: multiset<int>, l: Ledger) {
    multiset(Fds(l.queued)) <= live
  }

  class FdQueue {
    const table: Descriptors
    const fdq: array<int>
    var fdn: nat       // descriptors queued
    var fdtot: nat     // descriptors that arrived with the head message, queued or not
    var fdbad: bool    // the head message's descriptor set is incomplete
    ghost var led: Ledger

    ghost predicate Shape()
      reads this, fdq
    {
      && fdq.Length == FDQ_CAP
      && fdn == |led.queued| <= FDQ_CAP
      && fdtot == |led.head|
      && fdq[..fdn] == Fds(led.queued)
    }

    ghost predicate Valid()
      reads this, fdq, table
    {
      Shape() && QueueOpen(table.live, led)
    }

    constructor (table: Descriptors)
      ensures Valid() && led == EMPTY && !fdbad
      ensures this.table == table && fresh(fdq)
    {
      this.table := table;
      fdq := new int[FDQ_CAP];
      fdn, fdtot, fdbad, led := 0, 0, false, EMPTY;
    }

    // Queue the descriptor, or close it past the eighth; it counts as arrived either way.
    method Push(fd: int, ghost at: nat) returns (r: int)
      requires Valid()
      requires fd >= 0 && fd in Outside(table.live, led)
      modifies this`fdn, this`fdtot, this`led, fdq, table`live
      ensures Valid() && led == Pushed(old(led), Arrival(at, fd))
      ensures Outside(table.live, led) == old(Outside(table.live, led)) - multiset{fd}
      ensures r == if old(fdn) >= 8 then -1005 else 0
    {
      hide Fds, Outside, QueueOpen;
      PushFds(table.live, led, Arrival(at, fd));
      led := Pushed(led, Arrival(at, fd));
      fdtot := fdtot + 1;
      if fdn >= FDQ_CAP {
        table.Close(fd);
        return OVERFLOW;
      }
      fdq[fdn] := fd;
      fdn := fdn + 1;
      return 0;
    }

    // One that arrives while its message is being drained is closed at once.
    method Discard(fd: int, ghost at: nat)
      requires Valid()
      requires fd >= 0 && fd in Outside(table.live, led)
      modifies this`led, table`live
      ensures Valid() && led == Drained(old(led), Arrival(at, fd))
      ensures Outside(table.live, led) == old(Outside(table.live, led)) - multiset{fd}
    {
      hide Fds, Outside, QueueOpen;
      MoveOutside(table.live, led, fd, multiset{});
      assert table.live - multiset{fd} + multiset{} == table.live - multiset{fd};
      SameQueue(table.live - multiset{fd}, led, Drained(led, Arrival(at, fd)));
      led := Drained(led, Arrival(at, fd));
      table.Close(fd);
    }

    method Incomplete()
      requires Valid()
      modifies this`fdbad
      ensures Valid() && fdbad
    {
      fdbad := true;
    }

    // Hand descriptor number `i` of the queue to the caller.
    method Claim(i: int) returns (fd: int)
      requires Valid()
      modifies this`fdn, this`led, fdq
      ensures Valid()
      ensures led == if 0 <= i < |old(led).queued| then Claimed(old(led), i) else old(led)
      ensures fd == if 0 <= i < |old(led).queued| then old(led).queued[i].fd else -1
      ensures Outside(table.live, led) == old(Outside(table.live, led)) + (if fd < 0 then multiset{} else multiset{fd})
    {
      hide Fds, Outside, QueueOpen;
      if i < 0 || i >= fdn {
        return -1;
      }
      ClaimFds(table.live, led, i);
      fd := fdq[i];
      assert fd == fdq[..fdn][i];
      ShiftDown(i);
      led := Claimed(led, i);
      fdn := fdn - 1;
    }

    // The claim's loop: queue slots past `i` move down by one.
    method ShiftDown(i: nat)
      requires i < fdn <= fdq.Length
      modifies fdq
      ensures fdq[..fdn - 1] == old(fdq[..fdn])[..i] + old(fdq[..fdn])[i + 1..]
    {
      var j := i + 1;
      while j < fdn
        invariant i < j <= fdn
        invariant forall k | 0 <= k < i :: fdq[k] == old(fdq[k])
        invariant forall k | i <= k < j - 1 :: fdq[k] == old(fdq[k + 1])
        invariant forall k | j <= k < fdn :: fdq[k] == old(fdq[k])
        modifies fdq
      {
        fdq[j - 1] := fdq[j];
        j := j + 1;
      }
    }

    // Empty the queue by closing what is in it, and start counting again. `gone` says that the head
    // message is gone too.
    method CloseAll(ghost gone: bool)
      requires Valid()
      modifies this`fdn, this`fdtot, this`fdbad, this`led, table`live
      ensures Valid() && !fdbad && led == if gone then Passed(old(led)) else Dropped(old(led), old(fdbad))
      ensures Outside(table.live, led) == old(Outside(table.live, led))
    {
      hide Fds, Outside, QueueOpen;
      QueueAndRest(table.live, led);
      CloseEach(Fds(led.queued), Outside(table.live, led));
      led := if gone then Passed(led) else Dropped(led, fdbad);
      fdn, fdtot, fdbad := 0, 0, false;
      QueueAndRest(table.live, led);
    }

    // The closing loop. `rest` are the open descriptors outside the queue `q`.
    method CloseEach(ghost q: seq<int>, ghost rest: multiset<int>)
      requires fdn <= fdq.Length && q == fdq[..fdn] && table.live == rest + multiset(q)
      requires forall k | 0 <= k < |q| :: 0 <= q[k]
      modifies table`live
      ensures table.live == rest
    {
      var i := 0;
      while i < fdn
        invariant 0 <= i <= fdn
        invariant table.live == rest + multiset(q[i..])
        modifies table`live
      {
        FirstAndRest(q, i);
        if fdq[i] >= 0 {
          table.Close(fdq[i]);
        }
        i := i + 1;
      }
    }
  }

  lemma FirstAndRest(q: seq<int>, i: nat)
    requires i < |q|
    ensures multiset(q[i..]) == multiset{q[i]} + multiset(q[i + 1..])
  {
    assert q[i..] == [q[i]] + q[i + 1..];
  }

  // The open descriptors are the queued ones and the rest; with nothing queued, they are the rest.
  lemma QueueAndRest(live: multiset<int>, l: Ledger)
    ensures QueueOpen(live, l) ==> live == Outside(live, l) + multiset(Fds(l.queued))
    ensures l.queued == [] ==> QueueOpen(live, l) && Outside(live, l) == live
  {
  }

  // One more descriptor: queued if there is room, and otherwise safe to close.
  lemma PushFds(live: multiset<int>, l: Ledger, a: Arrival)
    requires QueueOpen(live, l) && a.fd in Outside(live, l)
    ensures a.fd in live
    ensures |l.queued| < FDQ_CAP ==>
      && Fds(Pushed(l, a).queued) == Fds(l.queued) + [a.fd]
      && QueueOpen(live, Pushed(l, a))
      && Outside(live, Pushed(l, a)) == Outside(live, l) - multiset{a.fd}
    ensures |l.queued| >= FDQ_CAP ==>
      && Fds(Pushed(l, a).queued) == Fds(l.queued)
      && QueueOpen(live - multiset{a.fd}, Pushed(l, a))
      && Outside(live - multiset{a.fd}, Pushed(l, a)) == Outside(live, l) - multiset{a.fd}
  {
    QueueOne(live, Fds(l.queued), a.fd);
    if |l.queued| < FDQ_CAP {
      assert Fds(Pushed(l, a).queued) == Fds(l.queued) + [a.fd];
    }
  }

  // Only what is queued matters.
  lemma SameQueue(live: multiset<int>, l: Ledger, l': Ledger)
    requires l.queued == l'.queued
    ensures Outside(live, l) == Outside(live, l') && QueueOpen(live, l) == QueueOpen(live, l')
  {
  }

  // A descriptor outside the queue is given another number, or lost: the queue is as it was.
  lemma MoveOutside(live: multiset<int>, l: Ledger, fd: int, more: multiset<int>)
    requires QueueOpen(live, l) && fd in Outside(live, l)
    ensures fd in live
    ensures QueueOpen(live - multiset{fd} + more, l)
    ensures Outside(live - multiset{fd} + more, l) == Outside(live, l) - multiset{fd} + more
  {
  }

  // Descriptors that arrive are outside the queue until they are put in it.
  lemma ArriveOutside(live: multiset<int>, l: Ledger, more: multiset<int>)
    requires QueueOpen(live, l)
    ensures QueueOpen(live + more, l)
    ensures Outside(live + more, l) == Outside(live, l) + more
  {
  }

  lemma ClaimFds(live: multiset<int>, l: Ledger, i: nat)
    requires i < |l.queued| && QueueOpen(live, l)
    ensures Fds(Claimed(l, i).queued) == Fds(l.queued)[..i] + Fds(l.queued)[i + 1..]
    ensures QueueOpen(live, Claimed(l, i))
    ensures Outside(live, Claimed(l, i)) == Outside(live, l) + multiset{l.queued[i].fd}
  {
    var q := Fds(l.queued);
    assert Fds(Claimed(l, i).queued) == q[..i] + q[i + 1..];
    ClaimOne(live, q, i);
  }
}
