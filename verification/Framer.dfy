// The framer: one fixed buffer, the cursors over it, and the queue of the head message's
// descriptors. Each method is proved to take one step of the state machine in FrameState.
module Framer {
  import opened Bytes
  import opened Framing
  import opened Kernel
  import opened Attribution
  import opened FrameState
  import opened FdQueue

  class Framer {
    const table: Descriptors
    const buf: array<Byte>
    const fds: FdQueue
    var off: nat       // first unconsumed byte
    var have: nat      // one past the last valid byte
    var skip: nat      // bytes still to discard for an over-cap message
    var eof: bool
    var abs0: nat      // stream position of buf[0]
    var moved: nat     // bytes compaction has moved
    ghost var g: Frame

    // The fields are the state `g`.
    ghost predicate Core()
      reads this, buf, fds, fds.fdq
    {
      && fds.table == table && fds.Shape()
      && buf.Length == CAP && off <= have <= CAP
      && abs0 == g.abs0 && abs0 + off == g.pos && abs0 + have == |g.stream|
      && buf[off..have] == g.stream[g.pos..]
      && skip == g.skip && eof == g.eof && moved == g.moved
      && fds.led == g.led && fds.fdbad == g.bad
      && Inv(g)
    }

    ghost predicate Valid()
      reads this, buf, fds, fds.fdq, table
    {
      Core() && QueueOpen(table.live, g.led)
    }

    // ---- dbus_frame_init ----

    constructor (table: Descriptors)
      ensures Valid() && g == INIT
      ensures this.table == table && fresh(buf) && fresh(fds) && fresh(fds.fdq)
    {
      this.table := table;
      buf := new Byte[CAP];
      fds := new FdQueue(table);
      off, have, skip, eof, abs0, moved := 0, 0, 0, false, 0, 0;
      g := INIT;
      new;
      InitInv();
    }

    // Re-initialisation: whatever was queued is closed, not forgotten.
    method Init()
      requires Valid()
      modifies this, fds, table`live
      ensures Valid() && g == INIT
      ensures Outside(table.live, g.led) == old(Outside(table.live, g.led))
    {
      hide Inv, Outside, QueueOpen;
      InitInv();
      fds.CloseAll(true);
      off, have, skip, eof, moved, abs0 := 0, 0, 0, false, 0, 0;
      SameQueue(table.live, fds.led, EMPTY);
      g, fds.led := INIT, EMPTY;
    }

    // ---- the buffer ----

    function Space(): (n: int)
      reads this
    {
      CAP - have
    }

    function Have(): (n: int)
      reads this
    {
      have - off
    }

    function Pos(): (p: nat)
      reads this
    {
      abs0 + off
    }

    function Received(): (n: nat)
      reads this
    {
      abs0 + have
    }

    // The unread bytes, as a reader at the buffer's base sees them.
    function Base(): (s: seq<Byte>)
      reads this, buf
      requires off <= have <= buf.Length
    {
      buf[off..have]
    }

    // A receive put `data` at the tail; commit moves the cursor past it.
    method Commit(data: seq<Byte>)
      requires Valid() && |data| <= Space()
      modifies this`have, this`g, buf
      ensures Valid() && g == Committed(old(g), data)
    {
      hide Inv, Fds;
      CommitInv(g, data);
      forall i | 0 <= i < |data| {
        buf[have + i] := data[i];
      }
      have := have + |data|;
      g := Committed(g, data);
      assert buf[off..have] == old(buf[off..have]) + data;
    }

    // Take `n` bytes, or all there are. It belongs to the handshake: in a drain, or once descriptors have
    // come, what is left of the stream and the queue would no longer be in step.
    method Consume(n: int)
      requires Valid()
      modifies this`off, this`g
      ensures off == if n <= 0 then old(off) else if old(off) + n > have then have else old(off) + n
      ensures old(skip == 0 && g.came == []) ==> Valid() && g == Eaten(old(g), n)
    {
      hide Inv, Fds;
      if skip == 0 && g.came == [] {
        EatInv(g, n);
        g := Eaten(g, n);
      }
      if n <= 0 {
        return;
      }
      off := off + n;
      if off > have {
        off := have;
      }
    }

    method SetEof()
      requires Valid()
      modifies this`eof, this`g
      ensures Valid() && g == old(g).(eof := true)
    {
      hide Parsed, Queues, Placed, Stop;
      eof := true;
      g := g.(eof := true);
    }

    // Slide the unconsumed bytes to the front: a forward copy onto lower addresses.
    method Compact()
      requires Valid()
      modifies this`off, this`have, this`abs0, this`moved, this`g, buf
      ensures Valid() && g == Compacted(old(g)) && off == 0
    {
      hide Inv, Fds;
      CompactInv(g);
      g := Compacted(g);
      if off == 0 {
        return;
      }
      var live := have - off;
      var i := 0;
      while i < live
        invariant 0 <= i <= live
        invariant forall k | 0 <= k < i :: buf[k] == old(buf[off + k])
        invariant forall k | off + i <= k < have :: buf[k] == old(buf[k])
        modifies buf
      {
        buf[i] := buf[off + i];
        i := i + 1;
      }
      moved := moved + live;
      abs0 := abs0 + off;
      off := 0;
      have := live;
      assert buf[..live] == old(buf[off..have]);
    }

    // ---- the head message's descriptors ----

    // The descriptor of `pin`, or an errno if it was lost. It is queued, or closed here: past the eighth,
    // or when the message it belongs to is being drained.
    method PushFd(fd: int, ghost pin: Pin) returns (r: int)
      requires Valid()
      requires g.pos <= pin.at < |g.stream| && pin.at < Stop(g.stream, g.pos, g.skip)
      requires fd >= 0 ==> fd in Outside(table.live, g.led)
      modifies this`g, fds, fds.fdq, table`live
      ensures Valid() && g == Pushed1(old(g), Came(pin, if fd < 0 then Lost else Has(fd)))
      ensures Outside(table.live, g.led)
           == old(Outside(table.live, g.led)) - (if fd < 0 then multiset{} else multiset{fd})
      ensures r == if fd >= 0 && skip == 0 && |old(g).led.queued| >= FDQ_CAP then OVERFLOW else 0
    {
      hide Inv, Stop, Outside, QueueOpen, Fds;
      ghost var c := Came(pin, if fd < 0 then Lost else Has(fd));
      PushInv(g, c);
      g := Pushed1(g, c);
      if fd < 0 {
        return 0;
      }
      if skip > 0 {
        fds.Discard(fd, pin.at);
        return 0;
      }
      r := fds.Push(fd, pin.at);
    }

    // The kernel dropped some of the head message's descriptors: those of `ps`.
    method FdsIncomplete(ghost ps: seq<Pin>)
      requires Valid() && ps != []
      requires forall p | p in ps :: g.pos <= p.at < |g.stream| && p.at < Stop(g.stream, g.pos, g.skip)
      modifies this`g, fds`fdbad
      ensures Valid() && g == Arrive(old(g), Drops(ps))
    {
      hide Inv, Stop, QueueOpen, Fds, Arrive, Drops;
      DropsInv(g, ps);
      ArriveDrops(g, ps);
      g := Arrive(g, Drops(ps));
      if skip > 0 {
        return;
      }
      fds.Incomplete();
    }

    // Hand descriptor number `i` of the queue to the caller.
    method ClaimFd(i: int) returns (fd: int)
      requires Valid()
      modifies this`g, fds, fds.fdq
      ensures Valid() && g == Claimed1(old(g), i)
      ensures fd == if 0 <= i < |old(g).led.queued| then old(g).led.queued[i].fd else -1
      ensures Outside(table.live, g.led)
           == old(Outside(table.live, g.led)) + (if fd < 0 then multiset{} else multiset{fd})
    {
      hide Inv, Outside, QueueOpen, Fds;
      ClaimInv(g, i);
      g := Claimed1(g, i);
      fd := fds.Claim(i);
    }

    // Empty the queue while its message stays at the head.
    method CloseFds()
      requires Valid()
      modifies this`g, fds, table`live
      ensures Valid() && g == FdsClosed(old(g))
      ensures Outside(table.live, g.led) == old(Outside(table.live, g.led))
    {
      hide Inv, Outside, QueueOpen, Fds;
      CloseInv(g);
      g := FdsClosed(g);
      fds.CloseAll(false);
    }

    // ---- how far a read may go ----

    // What is missing of the unit at the head of the buffer, as far as its length is known.
    method Want() returns (n: int)
      requires Valid()
      ensures n >= 0
      ensures n > 0 ==> |g.stream| + n == Stop(g.stream, g.pos, g.skip)
      ensures NextCode(g) == NEED_MORE && AfterNext(g) == g ==> n > 0
    {
      hide Parsed, Queues, Placed, Answer, Total;
      AnswerIsNextMessage(g.stream, g.Resume(), g.eof);
      if NextCode(g) == NEED_MORE {
        AnswerCodes(g.stream, g.Resume(), g.eof);
        NeedMoreIsStrictPrefix(g.stream, g.Resume());
      }
      var avail := have - off;
      if skip > 0 {
        var rest := skip - avail;
        if rest < 0 {
          rest := 0;
        }
        return rest;
      }
      if avail < HDR_SIZE {
        return HDR_SIZE - avail;
      }
      var total := Total(buf[off..have]);
      if total < 0 || total > CAP || total <= avail {
        return 0;
      }
      return total - avail;
    }

    // Slide the buffer if `want` bytes would not fit behind what it holds. All of them may then be read, or
    // as many as a buffer with nothing in front of the head message has room for.
    method Prepare(want: int) returns (n: int)
      requires Valid()
      modifies this`off, this`have, this`abs0, this`moved, this`g, buf
      ensures Valid() && g in {old(g), Compacted(old(g))}
      ensures want <= 0 ==> n == 0
      ensures want > 0 ==> n <= want && n <= Space() && (n == want || (off == 0 && n == Space()))
    {
      hide Inv, Fds;
      if want <= 0 {
        return 0;
      }
      if Space() < want {
        Compact();
      }
      var space := Space();
      if want > space {
        return space;
      }
      return want;
    }

    // ---- the framer ----

    // Yield the next complete message. The call to itself is made at most once: the stretch it then
    // discards is longer than the buffer.
    method Next() returns (r: int)
      requires Valid()
      modifies this`off, this`skip, this`g, fds, table`live
      ensures Valid() && g == AfterNext(old(g)) && r == NextCode(old(g))
      ensures Outside(table.live, g.led) == old(Outside(table.live, g.led))
      decreases if g.Resume() <= |g.stream| then 1 else 0
    {
      hide Inv, Outside, QueueOpen, Fds, Total, Answer;
      if skip > 0 {
        NextDraining(g);
        Drain();
        if skip > 0 {
          if eof {
            return TRUNCATED;
          }
          return NEED_MORE;
        }
        fds.CloseAll(true);
      }
      ghost var f := g;
      var avail := have - off;
      if avail == 0 {
        NextHere(f);
        if eof {
          return EOF;
        }
        return NEED_MORE;
      }
      if avail < HDR_SIZE {
        NextHere(f);
        if eof {
          return TRUNCATED;
        }
        return NEED_MORE;
      }
      var total := Total(buf[off..have]);
      if CAP < total < MSG_MAX {
        NextSkipping(f);
      } else {
        NextHere(f);
      }
      if total == BAD_ENDIAN {
        return BAD_ENDIAN;
      }
      if total == BAD_PROTO {
        return BAD_PROTO;
      }
      if total >= MSG_MAX {
        return TOO_LONG;
      }
      if total > CAP {
        fds.CloseAll(true);
        skip := total;
        g := SkipStep(f, total);
        r := Next();
        return;
      }
      if avail < total {
        if eof {
          return TRUNCATED;
        }
        return NEED_MORE;
      }
      return total;
    }

    // The part of it that discards: as much of the over-cap message as has been received.
    method Drain()
      requires Valid() && skip > 0
      modifies this`off, this`skip, this`g
      ensures Valid() && g == DrainStep(old(g))
    {
      hide Inv, Outside, QueueOpen, Fds, Answer, AfterNext, NextCode, Total, DrainStep;
      NextDraining(g);
      ghost var unread := buf[off..have];
      var avail := have - off;
      var take := skip;
      if take > avail {
        take := avail;
      }
      off := off + take;
      skip := skip - take;
      g := DrainStep(g);
      DrainTakes(old(g), take);
      assert buf[off..have] == unread[take..];
      Suffix(unread, g.stream, old(g.pos), take);
    }

    // Consume the head message; every descriptor of it that was not claimed is closed. With any other
    // length the cursor stops at the bytes there are, and the stream is out of step.
    method Advance(n: int)
      requires Valid()
      modifies this`off, this`g, fds, table`live
      ensures off == if n <= 0 then old(off) else if old(off) + n > have then have else old(off) + n
      ensures n > 0 ==> fds.led == Passed(old(fds.led)) && !fds.fdbad
      ensures Outside(table.live, fds.led) == old(Outside(table.live, fds.led))
      ensures n <= 0 || HeadIs(old(g), n) ==>
        Valid() && g == Advanced(old(g), n) && Outside(table.live, g.led) == old(Outside(table.live, g.led))
    {
      hide Inv, Outside, QueueOpen, Fds, TotalAt;
      if n <= 0 {
        return;
      }
      if HeadIs(g, n) {
        AdvanceInv(g, n);
        g := Advanced(g, n);
      }
      off := off + n;
      if off > have {
        off := have;
      }
      fds.CloseAll(true);
    }
  }

  lemma Suffix(b: seq<Byte>, s: seq<Byte>, p: nat, k: nat)
    requires p + k <= |s| && b == s[p..]
    ensures b[k..] == s[p + k..]
  {
  }
}
