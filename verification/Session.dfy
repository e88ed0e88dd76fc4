// The call layer: one bounded receive, a write the deadline bounds, the call/reply cycle, the pump,
// the connect handshake and TakeDevice, over the framer and against an arbitrary peer.
module Session {
  import opened Bytes
  import opened Framing
  import opened Kernel
  import opened Attribution
  import opened FrameState
  import opened FdQueue
  import opened Framer
  import opened Wire
  import opened Encoding
  import opened Marshal
  import opened Unmarshal
  import opened Replies
  import opened Exchanges
  import opened Auth

  const ECONNRESET := -104
  const ENOTCONN := -107
  const ETIMEDOUT := -110
  const EPROTO := -71
  const ENOBUFS := -105
  const EINVAL := -22
  const EBADF := -9
  const EIO := -5
  const EACCES := -13

  const READ_BACKSTOP := 65536
  const SASL_BACKSTOP := 4096
  const PUMP_MESSAGES := 256
  const PUMP_READS := 1024

  // `came` accounts for the pins of the stream's bytes [a, b).
  ghost predicate Tracked(came: seq<Came>, pins: seq<Pin>, a: nat, b: nat) {
    a <= b && Fates(came, PinsIn(pins, a, b))
  }

  // The errno of a framer status: 0 when the stream can be read on.
  function FaultErrno(code: int): (r: int)
    ensures r <= 0
  {
    if code == EOF || code == TRUNCATED then ECONNRESET
    else if code == BAD_ENDIAN || code == BAD_PROTO then EPROTO
    else if code == TOO_LONG then ENOBUFS
    else 0
  }

  class Session {
    const table: Descriptors
    const fr: Framer
    const ma: Marshaller
    const un: Unmarshaller
    const auth: Reader
    const mapError: seq<Byte> -> int
    var closed: bool
    var serial: int
    var uniq: seq<Byte>
    var timeoutMs: int
    ghost var greeted: nat   // bytes received when the handshake's lines ended: what came with them is not kept

    ghost predicate Valid()
      reads this, fr, fr.buf, fr.fds, fr.fds.fdq, table, ma, ma.buf
    {
      && fr.table == table && fr.Valid() && Amortised(fr.g)
      && ma.Valid() && ma.buf != fr.buf
      && 0 <= timeoutMs && 0 <= serial <= U32_MAX && fr.g.led.claimed == []
      && forall s :: mapError(s) < 0
    }

    // The framer has received what the socket has delivered, and accounts for every descriptor of it.
    ghost predicate Synced(sock: Socket)
      reads this, fr, sock
    {
      && sock.table == table && sock.Valid() && fr.g.stream == sock.wire[..sock.taken]
      && Tracked(fr.g.came, sock.pins, greeted, sock.taken)
    }

    // The open descriptors that are neither queued nor closed: those handed to the caller.
    ghost function Handed(): (m: multiset<int>)
      reads this, fr, table
    {
      Outside(table.live, fr.g.led)
    }

    constructor (table: Descriptors, mapError: seq<Byte> -> int)
      requires forall s :: mapError(s) < 0
      ensures Valid() && this.table == table && this.mapError == mapError
      ensures fr.g == INIT && !closed && uniq == [] && serial == 0 && greeted == 0
      ensures fresh(fr) && fresh(ma) && fresh(un) && fresh(auth)
    {
      hide Inv, Fds, Tracked, Message, Draft, Filled, Outside;
      this.table, this.mapError := table, mapError;
      var f := new Framer(table);
      var m := new Marshaller();
      fr, ma := f, m;
      un := new Unmarshaller();
      auth := new Reader();
      closed, serial, uniq, timeoutMs, greeted := false, 0, [], 25000, 0;
      InitInv();
    }

    // ---- one bounded receive ----

    // Moved off a stdio number, or lost.
    method OffStdio(fd: nat) returns (n: int)
      requires fr.table == table && fr.Valid() && fd in Handed()
      modifies table
      ensures fr.Valid() && (n >= 0 ==> n in Handed())
      ensures if fd > 2 then n == fd else n < 0 || n >= 3
      ensures Handed() - One(n) == old(Handed()) - multiset{fd}
    {
      hide Inv, Outside, QueueOpen, Fds, Tracked;
      n := fd;
      if fd <= 2 {
        ghost var was := table.live;
        MoveOutside(was, fr.g.led, fd, multiset{});
        n := table.AboveStdio(fd);
        MoveOutside(was, fr.g.led, fd, One(n));
        Renumber(Outside(was, fr.g.led), fd, n);
      }
    }

    // The descriptor of one pin: moved off a stdio number, then queued.
    method TakeIn(pin: Pin) returns (ghost c: Came)
      requires fr.table == table && fr.Valid() && pin.fd in Handed()
      requires fr.g.pos <= pin.at < |fr.g.stream| && pin.at < Stop(fr.g.stream, fr.g.pos, fr.g.skip)
      modifies table, fr`g, fr.fds, fr.fds.fdq
      ensures fr.Valid() && fr.g == Pushed1(old(fr.g), c) && c.pin == pin && FateOk(c) && !c.fate.Gone?
      ensures Handed() == old(Handed()) - multiset{pin.fd}
    {
      hide Inv, Stop, Outside, QueueOpen, Fds, Tracked, Pushed1;
      var n := OffStdio(pin.fd);
      c := Came(pin, if n < 0 then Fate.Lost else Has(n));
      var _ := fr.PushFd(n, pin);
    }

    // The descriptors that came with the bytes just committed are queued as the head message's.
    method Enqueue(got: seq<Pin>) returns (ghost cs: seq<Came>)
      requires fr.table == table && fr.Valid()
      requires forall p | p in got :: fr.g.pos <= p.at < |fr.g.stream| && p.at < Stop(fr.g.stream, fr.g.pos, fr.g.skip)
      requires multiset(Numbers(got)) <= Handed()
      modifies table, fr`g, fr.fds, fr.fds.fdq
      ensures fr.Valid() && Fates(cs, got) && fr.g == Arrive(old(fr.g), cs)
      ensures Handed() == old(Handed()) - multiset(Numbers(got))
    {
      hide Inv, Stop, Numbers, Outside, QueueOpen, Fds, Tracked, Arrive, Fates, FateOk, TotalAt, Pushed1;
      var i := 0;
      cs := [];
      ghost var f, q, rest := fr.g, Numbers(got), Handed() - multiset(Numbers(got));
      ArriveNone(f);
      assert q[0..] == q && got[..0] == [];
      while i < |got|
        invariant 0 <= i <= |got| && fr.Valid()
        invariant Fates(cs, got[..i]) && fr.g == Arrive(f, cs)
        invariant Handed() == rest + multiset(q[i..])
        modifies table, fr`g, fr.fds, fr.fds.fdq
      {
        FirstAndRest(q, i);
        assert got[i] in got;
        ghost var c := TakeIn(got[i]);
        ArriveOne(f, cs, c);
        FatesOne(cs, got, i, c);
        cs := cs + [c];
        i := i + 1;
      }
      assert got[..i] == got;
    }

    // How much the next receive may take: at least one byte, and nothing past the head message. The
    // source treats "nothing" as a cut stream; it never happens once `Next` has said need_more.
    method MakeRoom() returns (want: int)
      requires fr.Valid() && Amortised(fr.g) && Hungry(fr.g)
      modifies fr`off, fr`have, fr`abs0, fr`moved, fr`g, fr.buf
      ensures fr.Valid() && Roomy(old(fr.g), fr.g)
      ensures 0 < want <= fr.Space()
      ensures |fr.g.stream| + want <= Stop(fr.g.stream, fr.g.pos, fr.g.skip)
    {
      hide Inv, Stop, Amortised, QueueOpen, Fds, Tracked, Hungry, Compacted;
      HungryMeans(fr.g);
      PrepareKeeps(fr.g);
      var w := fr.Want();
      want := fr.Prepare(w);
    }

    // The bytes of a receive, and what became of the descriptors `all` attached to them: `got` came, and
    // the kernel dropped the rest.
    method Absorb(data: seq<Byte>, got: seq<Pin>, truncated: bool, ghost all: seq<Pin>) returns (ghost cs: seq<Came>)
      requires fr.table == table && fr.Valid() && Amortised(fr.g)
      requires |data| <= fr.Space() && |fr.g.stream| + |data| <= Stop(fr.g.stream, fr.g.pos, fr.g.skip)
      requires forall p | p in all :: |fr.g.stream| <= p.at < |fr.g.stream| + |data|
      requires got <= all && (truncated <==> |got| < |all|)
      requires multiset(Numbers(got)) <= Handed()
      modifies fr, fr.buf, fr.fds, fr.fds.fdq, table
      ensures fr.Valid() && Fates(cs, all)
      ensures fr.g == Absorbed(old(fr.g), data, cs) && Amortised(fr.g)
      ensures Handed() == old(Handed()) - multiset(Numbers(got))
    {
      hide Inv, Stop, Amortised, Outside, QueueOpen, Fds, Tracked, Arrive, Fates, Numbers, Drops;
      ghost var f := fr.g;
      InvBounds(f);
      CommitInv(f, data);
      StopGrows(f.stream, data, f.pos, f.skip);
      ghost var h, rest := Committed(f, data), all[|got|..];
      assert all == got + rest;
      assert forall p | p in got :: p in all;
      assert forall p | p in rest :: p in all;
      fr.Commit(data);
      cs := Enqueue(got);
      SameAmortised(h, fr.g);
      ArriveMore(h, cs, Drops(rest));
      FatesMore(cs, got, rest);
      MarkGone(truncated, rest);
      cs := cs + Drops(rest);
    }

    // The kernel dropped `rest`, if it says it dropped any.
    method MarkGone(truncated: bool, ghost rest: seq<Pin>)
      requires fr.table == table && fr.Valid() && Amortised(fr.g) && (truncated <==> rest != [])
      requires forall p | p in rest :: fr.g.pos <= p.at < |fr.g.stream| && p.at < Stop(fr.g.stream, fr.g.pos, fr.g.skip)
      modifies fr`g, fr.fds`fdbad
      ensures fr.Valid() && Amortised(fr.g) && fr.g == Arrive(old(fr.g), Drops(rest)) && Handed() == old(Handed())
    {
      hide Inv, Stop, Amortised, Outside, QueueOpen, Fds, Tracked, Arrive, Drops;
      ghost var f := fr.g;
      if truncated {
        ArriveDrops(f, rest);
        SameAmortised(f, Arrive(f, Drops(rest)));
        fr.FdsIncomplete(rest);
      } else {
        assert Drops(rest) == [];
        ArriveNone(f);
      }
    }

    // Receive once, and never past the head message: exactly the bytes delivered are
    // appended, and exactly the descriptors attached to them become that message's, in their order.
    method Recv(sock: Socket) returns (got: int)
      requires fr.table == table && fr.Valid() && Amortised(fr.g) && Synced(sock) && Hungry(fr.g)
      modifies fr, fr.buf, fr.fds, fr.fds.fdq, table, sock`taken, sock`recvs
      ensures fr.Valid() && Amortised(fr.g) && Synced(sock)
      ensures Handed() == old(Handed())
      ensures old(sock.taken) <= sock.taken
        && Received(old(fr.g), fr.g, got, sock.wire[old(sock.taken)..sock.taken],
                    PinsIn(sock.pins, old(sock.taken), sock.taken))
      ensures |sock.recvs| <= |old(sock.recvs)| <= |sock.recvs| + 1 && (got < 0 ==> |sock.recvs| < |old(sock.recvs)|)
    {
      hide Inv, Stop, Amortised, Outside, QueueOpen, Fds, Hungry, Numbers, PinsIn, Roomy, Received, Tracked;
      ghost var f := fr.g;
      var want := MakeRoom();
      ghost var h, before, a := fr.g, table.live, sock.taken;
      RoomyMeans(f, h);
      var n, data, pins, truncated := sock.Recv(want);
      ghost var all := PinsIn(sock.pins, a, sock.taken);
      Arrived(before, h.led, multiset(Numbers(pins)));
      if n > 0 {
        WireStep(sock.wire, a, n);
      } else {
        NothingCame(sock.pins, a);
      }
      Deliver(f, n, data, pins, truncated, all);
      ReceivedMeans(f, fr.g, n, data, all);
      ReceivedTracks(f, fr.g, n, data, sock.pins, greeted, a, sock.taken);
      return n;
    }

    // What came back: nothing, end of file, or bytes.
    method Deliver(ghost f: Frame, n: int, data: seq<Byte>, pins: seq<Pin>, truncated: bool, ghost all: seq<Pin>)
      requires fr.table == table && fr.Valid() && Roomy(f, fr.g)
      requires if n > 0 then |data| == n else data == [] && all == []
      requires |data| <= fr.Space() && |fr.g.stream| + |data| <= Stop(fr.g.stream, fr.g.pos, fr.g.skip)
      requires forall p | p in all :: |fr.g.stream| <= p.at < |fr.g.stream| + |data|
      requires pins <= all && (truncated <==> |pins| < |all|)
      requires multiset(Numbers(pins)) <= Handed()
      modifies fr, fr.buf, fr.fds, fr.fds.fdq, table
      ensures fr.Valid() && Amortised(fr.g) && Received(f, fr.g, n, data, all) && fr.g.stream == f.stream + data
      ensures Handed() == old(Handed()) - multiset(Numbers(pins))
    {
      hide Inv, Stop, Amortised, Outside, QueueOpen, Fds, Tracked, Numbers, Fates, Absorbed, Roomy, Received;
      ghost var h := fr.g;
      RoomyMeans(f, h);
      if n <= 0 {
        ReceivedNothing(f, h, n);
        NoneNumbered();
        if n == 0 {
          fr.SetEof();
        }
        return;
      }
      ghost var cs := Absorb(data, pins, truncated, all);
      ReceivedBytes(f, h, data, cs, all);
    }

    // ---- a write the deadline bounds ----

    // A request only part of which was written: nothing more can follow it, so the connection is closed.
    method Cut(sent: nat, err: int) returns (r: int)
      modifies this`closed
      ensures r == err && closed == (old(closed) || sent > 0)
    {
      if sent > 0 {
        closed := true;
      }
      return err;
    }

    // Put `len` bytes of `b` on the wire, or stop: what is on the wire is always a prefix of `b`, all
    // of it exactly when the length is answered, and a stop part-way closes the connection.
    method Write(sock: Socket, b: seq<Byte>, len: int, deadline: int) returns (r: int, ghost done: nat)
      requires len <= |b|
      modifies this`closed, sock`sent, sock`sends, sock`polls, sock`clocks
      ensures done <= |b| && sock.sent == old(sock.sent) + b[..done]
      ensures r >= 0 ==> r == len == done && closed == old(closed)
      ensures r < 0 && len >= 0 ==> done < len
      ensures r < 0 ==> closed == (old(closed) || done > 0)
    {
      if len < 0 {
        return EINVAL, 0;
      }
      var sent := 0;
      done := 0;
      assert b[..0] == [];
      while sent < len
        invariant 0 <= sent == done <= len
        invariant sock.sent == old(sock.sent) + b[..sent]
        invariant closed == old(closed)
        decreases len - sent, |sock.sends|
      {
        var n := sock.Send(b[sent..len]);
        assert n > 0 ==> b[..sent] + b[sent..len][..n] == b[..sent + n];
        if n == EINTR {
          continue;
        }
        if n == EAGAIN {
          var out, ready := WaitWritable(sock, deadline);
          if ready < 0 && ready != EINTR {
            r := Cut(sent, ready);
            return;
          }
          if out {
            r := Cut(sent, ETIMEDOUT);
            return;
          }
          continue;
        }
        if n < 0 {
          r := Cut(sent, n);
          return;
        }
        if n == 0 {
          r := Cut(sent, EPIPE);
          return;
        }
        sent := sent + n;
        done := sent;
      }
      return sent, done;
    }

    // A full send buffer: poll for the time left. `out` when there is none, or no clock.
    method WaitWritable(sock: Socket, deadline: int) returns (out: bool, ready: int)
      modifies sock`polls, sock`clocks
      ensures out ==> ready == 0
    {
      if deadline <= 0 {
        return true, 0;
      }
      var now := sock.Now();
      if now < 0 || now >= deadline {
        return true, 0;
      }
      ready := sock.Poll(deadline - now);
      return ready == 0, ready;
    }

    // ---- is the head message the reply? ----

    method BytesEq(a: seq<Byte>, b: seq<Byte>) returns (ok: bool)
      ensures ok <==> a == b
    {
      if |a| != |b| {
        return false;
      }
      var i := 0;
      while i < |a|
        invariant 0 <= i <= |a|
        invariant a[..i] == b[..i]
      {
        if a[i] != b[i] {
          return false;
        }
        i := i + 1;
      }
      return true;
    }

    // Addressed to us, or to nobody; permissive until the bus has told us our name.
    method DestOk(p: seq<Byte>) returns (ok: bool)
      requires un.limit <= |p|
      ensures ok <==> AddressedTo(p[..un.limit], uniq)
    {
      hide Header, Le32, Lookup;
      if |uniq| <= 0 {
        return true;
      }
      var off, sig := un.FindField(p, F_DESTINATION);
      if off == NOT_FOUND {
        return true;
      }
      if off < 0 {
        return false;
      }
      var n, ptr := un.StrAt(p, off);
      if n < 0 {
        return false;
      }
      assert p[ptr..ptr + n] == p[..un.limit][ptr..ptr + n];
      ok := BytesEq(p[ptr..ptr + n], uniq);
    }

    // Does the message of `n` bytes at the head answer the request? No field of it counts unless its
    // whole header is valid.
    method Consider(n: nat, serial: int, wm: nat) returns (mine: bool, ty: int)
      requires fr.Valid() && n > 0 && HeadIs(fr.g, n)
      modifies un`limit
      ensures un.limit == n && ty == Head(fr.g, n).bytes[1]
      ensures mine && ty in {TYPE_RETURN, TYPE_ERROR} <==> Answers(Head(fr.g, n), serial, wm, uniq)
    {
      hide Inv, QueueOpen, Fds, Tracked, Header, Le32, Lookup, ValidHeader, AddressedTo, TotalAt;
      var p := fr.Base();
      ghost var m := Head(fr.g, n).bytes;
      assert p[..n] == m;
      var _ := un.SetLimit(n);
      ty := p[1];
      assert m[1] == p[1];
      mine := false;
      var v := un.Validate(p);
      if v != 0 {
        return;
      }
      var rsOff, sig := un.FindField(p, F_REPLY_SERIAL);
      if rsOff <= 0 {
        return;
      }
      U32Inside(m, F_REPLY_SERIAL);
      Le32Local(p, m, rsOff, 0);
      if Le32(p, rsOff) != serial {
        return;
      }
      if fr.Pos() < wm {
        return;
      }
      mine := DestOk(p);
    }

    ghost function ErrorCode(m: seq<Byte>): (rc: int) {
      match StrOf(m, F_ERROR_NAME)
      case Some(name) => mapError(name)
      case None => EIO
    }

    // An error reply's errno is that of its name, and -EIO when it has none.
    lemma EncodedErrorCode(kind: int, flags: int, sn: int, fs: seq<FieldVal>, bs: seq<BodyVal>, name: seq<Byte>)
      requires Encodable(kind, flags, sn, fs, bs)
      ensures StrField(4, 's' as int, name) in fs ==> ErrorCode(Message(kind, flags, sn, fs, bs)) == mapError(name)
      ensures (forall f | f in fs :: f.code != 4) ==> ErrorCode(Message(kind, flags, sn, fs, bs)) == -5
    {
      hide Message, StrOf, Encodable;
      var m := Message(kind, flags, sn, fs, bs);
      EncodedErrorName(kind, flags, sn, fs, bs);
      assert StrOf(m, 4).Some? ==> StrField(4, 's' as int, StrOf(m, 4).value) in fs;
      assert StrField(4, 's' as int, name) in fs ==> StrOf(m, 4) == Some(name);
    }

    // The errno of the error reply at the head.
    method ErrorOf(n: nat) returns (rc: int)
      requires fr.Valid() && n > 0 && HeadIs(fr.g, n) && un.limit == n
      requires ValidHeader(Head(fr.g, n).bytes)
      ensures rc == ErrorCode(Head(fr.g, n).bytes)
    {
      hide Inv, QueueOpen, Fds, Tracked, ValidHeader, TotalAt;
      var p := fr.Base();
      assert p[..n] == Head(fr.g, n).bytes;
      rc := ErrorIn(p);
    }

    method ErrorIn(p: seq<Byte>) returns (rc: int)
      requires un.limit <= |p| && ValidHeader(p[..un.limit])
      ensures rc == ErrorCode(p[..un.limit])
    {
      hide Header, Le32, Lookup, ValidHeader;
      ghost var m := p[..un.limit];
      ValidHeaderLookups(m, F_ERROR_NAME);
      FoundPastFront(m, F_ERROR_NAME);
      rc := EIO;
      var eo, sig := un.FindField(p, F_ERROR_NAME);
      if eo > 0 {
        assert eo == Lookup(Header(m), F_ERROR_NAME);
        assert FieldType(F_ERROR_NAME) == SIG_S;
        assert eo + 4 + Le32(m, eo) + 1 <= |m|;
        var k, ptr := un.StrAt(p, eo);
        assert k == Le32(m, eo);
        assert p[ptr..ptr + k] == m[ptr..ptr + k];
        rc := mapError(p[ptr..ptr + k]);
      }
    }

    // ---- the call/reply cycle ----

    // How a pass over the buffered messages, which took `passed` off the front, ends, for one called `name`.
    ghost predicate Settled(found: Found, passed: seq<Item>, g: Frame, serial: int, wm: nat, name: seq<Byte>) {
      match found
      case Nothing(code) =>
        code <= 0 && code == NextCode(g) && AfterNext(g) == g && NoneAnswer(passed, serial, wm, name)
      case Reply(n) =>
        && n > 0 && HeadIs(g, n) && n == NextCode(g) && AfterNext(g) == g
        && Answers(Head(g, n), serial, wm, name) && Head(g, n).bytes[1] == TYPE_RETURN
        && NoneAnswer(passed, serial, wm, name)
      case Error(rc) =>
        && passed != []
        && var e, rest := passed[|passed| - 1], passed[..|passed| - 1];
        && Answers(e, serial, wm, name) && e.bytes[1] == TYPE_ERROR && rc == ErrorCode(e.bytes) < 0
        && NoneAnswer(rest, serial, wm, name)
    }

    // Take messages off the front until one is the reply or there are no more.
    method Scan(serial: int, wm: nat) returns (found: Found, ghost passed: seq<Item>)
      requires fr.table == table && fr.Valid() && Amortised(fr.g) && forall s :: mapError(s) < 0
      modifies fr`off, fr`skip, fr`g, fr.fds, table`live, un`limit
      ensures fr.Valid() && Amortised(fr.g)
      ensures Handed() == old(Handed())
      ensures Reads(old(fr.g), fr.g, passed)
      ensures fr.g.stream == old(fr.g.stream) && fr.g.came == old(fr.g.came) && fr.g.eof == old(fr.g.eof)
      ensures Settled(found, passed, fr.g, serial, wm, uniq)
    {
      hide Inv, Amortised, Outside, QueueOpen, Fds, Tracked, AfterNext, NextCode, HeadIs, Advanced, Head, Reads,
           Answers, NoneAnswer, Settled;
      ghost var f := fr.g;
      passed := [];
      NextKeeps(f, f, []);
      NoneAnswersNone(serial, wm, uniq);
      var r := fr.Next();
      while r > 0
        invariant fr.Valid() && Amortised(fr.g) && Handed() == old(Handed())
        invariant Reads(f, fr.g, passed) && fr.g.stream == f.stream && fr.g.came == f.came && fr.g.eof == f.eof
        invariant NoneAnswer(passed, serial, wm, uniq)
        invariant r == NextCode(fr.g) && AfterNext(fr.g) == fr.g
        invariant r > 0 ==> HeadIs(fr.g, r) && fr.g.pos + r <= |fr.g.stream|
        decreases |f.stream| - fr.g.pos
      {
        ghost var g, item := fr.g, Head(fr.g, r);
        AdvanceKeeps(f, g, r, passed);
        var one := Judge(r, serial, wm);
        SettledOne(one, passed, item, g, fr.g, r, serial, wm, uniq);
        if one.Some? {
          return one.value, if one.value.Error? then passed + [item] else passed;
        }
        passed := passed + [item];
        NextKeeps(f, fr.g, passed);
        assert fr.g.pos > g.pos;
        r := fr.Next();
      }
      SettledNone(r, passed, fr.g, serial, wm, uniq);
      return Nothing(r), passed;
    }

    // What the message at the head makes of a pass.
    ghost predicate Judged(one: Option<Found>, item: Item, g: Frame, h: Frame, n: nat,
                           serial: int, wm: nat, name: seq<Byte>)
      requires n > 0 ==> g.pos + n <= |g.stream|
    {
      match one
      case None => !Answers(item, serial, wm, name) && h == Advanced(g, n)
      case Some(Reply(k)) => k == n && Answers(item, serial, wm, name) && item.bytes[1] == TYPE_RETURN && h == g
      case Some(Error(rc)) =>
        && Answers(item, serial, wm, name) && item.bytes[1] == TYPE_ERROR && rc == ErrorCode(item.bytes)
        && h == Advanced(g, n)
      case Some(Nothing(_)) => false
    }

    // The message of `n` bytes at the head: the reply, which stays; an error reply, taken off; or
    // nobody's that we are waiting for, taken off.
    method Judge(n: nat, serial: int, wm: nat) returns (one: Option<Found>)
      requires fr.table == table && fr.Valid() && n > 0 && HeadIs(fr.g, n) && fr.g.pos + n <= |fr.g.stream|
      modifies fr`off, fr`g, fr.fds, table`live, un`limit
      ensures fr.Valid() && Handed() == old(Handed())
      ensures Judged(one, Head(old(fr.g), n), old(fr.g), fr.g, n, serial, wm, uniq)
    {
      hide Inv, Amortised, Outside, QueueOpen, Fds, Tracked, HeadIs, Advanced, Head, Answers;
      ghost var item := Head(fr.g, n);
      var mine, ty := Consider(n, serial, wm);
      if mine && ty == TYPE_RETURN {
        return Some(Reply(n));
      }
      if mine && ty == TYPE_ERROR {
        AnswerIsValid(item, serial, wm, uniq);
        var rc := ErrorOf(n);
        fr.Advance(n);
        return Some(Error(rc));
      }
      fr.Advance(n);
      return None;
    }

    lemma SettledOne(one: Option<Found>, passed: seq<Item>, item: Item, g: Frame, h: Frame, n: nat,
                     serial: int, wm: nat, name: seq<Byte>)
      requires NoneAnswer(passed, serial, wm, name) && (forall s :: mapError(s) < 0)
      requires n > 0 && HeadIs(g, n) && g.pos + n <= |g.stream| && item == Head(g, n)
      requires n == NextCode(g) && AfterNext(g) == g
      requires Judged(one, item, g, h, n, serial, wm, name)
      ensures one == None ==> NoneAnswer(passed + [item], serial, wm, name)
      ensures one.Some? ==>
        Settled(one.value, if one.value.Error? then passed + [item] else passed, h, serial, wm, name)
    {
      hide HeadIs, NextCode, AfterNext, Answers, NoneAnswer, Advanced;
      if one == None {
        NoneAnswersMore(passed, item, serial, wm, name);
      } else if one.value.Error? {
        assert (passed + [item])[..|passed|] == passed;
      }
    }

    lemma SettledNone(r: int, passed: seq<Item>, g: Frame, serial: int, wm: nat, name: seq<Byte>)
      requires r <= 0 && r == NextCode(g) && AfterNext(g) == g && NoneAnswer(passed, serial, wm, name)
      ensures Settled(Nothing(r), passed, g, serial, wm, name)
    {
    }

    // ---- a dead connection is a state ----

    method Lost() returns (r: int)
      modifies this`closed
      ensures closed && r == -104
    {
      closed := true;
      return ECONNRESET;
    }

    // What became of a failed send, poll or receive: some errnos mean the peer is gone, the others are the
    // caller's to see.
    method IoFail(e: int) returns (r: int)
      requires e < 0
      modifies this`closed
      ensures r == if IsDisconnect(e) then -104 else e
      ensures closed == (old(closed) || IsDisconnect(e))
    {
      if IsDisconnect(e) {
        r := Lost();
        return;
      }
      return e;
    }

    // What the framer's status means for the connection.
    method FrameFault(code: int) returns (r: int)
      modifies this`closed
      ensures r == FaultErrno(code)
      ensures closed == (old(closed) || code in {EOF, TRUNCATED})
    {
      if code == EOF || code == TRUNCATED {
        r := Lost();
        return;
      }
      if code == BAD_ENDIAN || code == BAD_PROTO {
        return EPROTO;
      }
      if code == TOO_LONG {
        return ENOBUFS;
      }
      return 0;
    }

    // Wait for the time left, if there is a deadline, and receive once. 0 to go round again.
    method Await(sock: Socket, deadline: int) returns (r: int)
      requires fr.table == table && fr.Valid() && Amortised(fr.g) && Synced(sock) && Hungry(fr.g)
      modifies this`closed, fr, fr.buf, fr.fds, fr.fds.fdq, table, sock`taken, sock`recvs, sock`polls, sock`clocks
      ensures fr.Valid() && Amortised(fr.g) && Synced(sock) && Handed() == old(Handed())
      ensures Reads(old(fr.g), fr.g, [])
      ensures r <= 0 && (old(closed) ==> closed)
      ensures r == 0 && deadline > 0 ==> |sock.clocks| < |old(sock.clocks)|
      ensures deadline <= 0 ==> sock.clocks == old(sock.clocks)
      ensures r < 0 ==> NextCode(fr.g) == NextCode(old(fr.g)) && fr.g.stream == old(fr.g.stream)
      ensures r == ECONNRESET ==> closed
      ensures Classified(r)
    {
      hide Inv, Amortised, Outside, QueueOpen, Fds, Tracked, Hungry, Reads, Received, NextCode;
      ReadsNone(fr.g);
      if deadline > 0 {
        var now := sock.Now();
        if now < 0 || now >= deadline {
          return ETIMEDOUT;
        }
        var ready := sock.Poll(deadline - now);
        if ready == 0 {
          return ETIMEDOUT;
        }
        if ready == EINTR {
          return 0;
        }
        if ready < 0 {
          r := IoFail(ready);
          return;
        }
      }
      ghost var f, a := fr.g, sock.taken;
      var got := Recv(sock);
      ReceivedReads(f, fr.g, got, sock.wire[a..sock.taken], PinsIn(sock.pins, a, sock.taken));
      if got == EINTR {
        return 0;
      }
      if got == EAGAIN {
        return if deadline > 0 then 0 else ETIMEDOUT;
      }
      if got < 0 {
        r := IoFail(got);
        return;
      }
      return 0;
    }

    // How a call ends: with the reply at the head, with an error reply taken off, or without either,
    // in which case nothing it took off was an answer.
    ghost predicate Ended(how: Found, r: int, passed: seq<Item>, g: Frame, serial: int, wm: nat, name: seq<Byte>) {
      match how
      case Nothing(_) => r < 0 && NoneAnswer(passed, serial, wm, name)
      case Reply(_) => r == 0 && Settled(how, passed, g, serial, wm, name)
      case Error(rc) => r == rc && Settled(how, passed, g, serial, wm, name)
    }

    // Send the message built, and read until its reply. Nothing is sent when the message could not
    // be built, on a closed connection, or when the replies could not be read.
    method Call(sock: Socket, serial: int) returns (r: int, ghost how: Found, ghost passed: seq<Item>, ghost done: nat)
      requires Valid() && Synced(sock) && ma.stage == Finished
      modifies this`closed, fr, fr.buf, fr.fds, fr.fds.fdq, table, un`limit,
               sock`taken, sock`recvs, sock`polls, sock`clocks, sock`sent, sock`sends
      ensures Valid() && Synced(sock) && Handed() == old(Handed())
      ensures Reads(old(fr.g), fr.g, passed)
      ensures Ended(how, r, passed, fr.g, serial, |old(fr.g.stream)|, uniq)
      ensures done <= |ma.buf[..ma.at]| && sock.sent == old(sock.sent) + ma.buf[..ma.at][..done]
      ensures CallEnds(Ending(how, r, done, ma.at, ma.bad, old(closed), NextCode(old(fr.g)), NextCode(fr.g), closed))
    {
      hide Inv, Amortised, Outside, QueueOpen, Fds, Tracked, AfterNext, NextCode, Reads, NoneAnswer, Answers, HeadIs,
           Message, Draft, Filled, Hungry;
      passed, done := [], 0;
      ghost var f := fr.g;
      ReadsNone(f);
      NoneAnswersNone(serial, |f.stream|, uniq);
      if ma.bad {
        return EINVAL, Nothing(0), [], 0;
      }
      if closed {
        return ENOTCONN, Nothing(0), [], 0;
      }
      r := StreamLost();
      if r < 0 {
        return r, Nothing(0), [], 0;
      }
      r, how, passed, done := Exchange(sock, serial, f);
    }

    // Write, and wait for the reply until the deadline.
    method Exchange(sock: Socket, serial: int, ghost f: Frame)
      returns (r: int, ghost how: Found, ghost passed: seq<Item>, ghost done: nat)
      requires Valid() && Synced(sock) && Reads(f, fr.g, []) && f.led.claimed == []
      modifies this`closed, fr, fr.buf, fr.fds, fr.fds.fdq, table, un`limit,
               sock`taken, sock`recvs, sock`polls, sock`clocks, sock`sent, sock`sends
      ensures Valid() && Synced(sock) && Handed() == old(Handed())
      ensures Reads(f, fr.g, passed)
      ensures Ended(how, r, passed, fr.g, serial, |old(fr.g.stream)|, uniq)
      ensures done <= |ma.buf[..ma.at]| && sock.sent == old(sock.sent) + ma.buf[..ma.at][..done]
      ensures !how.Nothing? ==> done == ma.at
      ensures how.Nothing? ==>
        (r == ECONNRESET ==> closed) && (if done < ma.at then Classified(r) else Unanswered(r, NextCode(fr.g), closed))
      ensures old(closed) || 0 < done < ma.at ==> closed
    {
      hide Inv, Amortised, Outside, QueueOpen, Fds, Tracked, AfterNext, NextCode, Reads, NoneAnswer, Answers, HeadIs,
           Message, Draft, Filled, Hungry;
      var wm := fr.Received();
      var deadline := 0;
      var t0 := sock.Now();
      if t0 >= 0 {
        deadline := t0 + timeoutMs;
      }
      NoneAnswersNone(serial, wm, uniq);
      r, done := Transmit(sock, deadline);
      if r < 0 {
        return r, Nothing(0), [], done;
      }
      r, how, passed := ReadReply(sock, serial, wm, deadline, f);
      ReadsClaimed(f, fr.g, passed);
    }

    // Is the stream one whose replies could not be read? Then nothing is to be written.
    method StreamLost() returns (r: int)
      requires fr.table == table && fr.Valid() && Amortised(fr.g) && fr.g.led.claimed == []
      modifies this`closed, fr`off, fr`skip, fr`g, fr.fds, table`live
      ensures fr.Valid() && Amortised(fr.g) && fr.g.led.claimed == [] && Handed() == old(Handed())
      ensures Reads(old(fr.g), fr.g, []) && fr.g.stream == old(fr.g.stream) && fr.g.came == old(fr.g.came)
      ensures r == FaultErrno(NextCode(old(fr.g))) && NextCode(fr.g) == NextCode(old(fr.g))
      ensures closed == (old(closed) || NextCode(old(fr.g)) in {EOF, TRUNCATED})
    {
      hide Inv, Amortised, Outside, QueueOpen, Fds, Tracked, AfterNext, NextCode, Reads;
      ghost var f := fr.g;
      NextKeeps(f, f, []);
      ReadsClaimed(f, AfterNext(f), []);
      var lost := fr.Next();
      if lost < 0 && lost != NEED_MORE {
        r := FrameFault(lost);
        return;
      }
      return 0;
    }

    // Write the message built. The deadline's own timeout is not a disconnect; a send errno may be.
    method Transmit(sock: Socket, deadline: int) returns (r: int, ghost done: nat)
      requires ma.at <= ma.buf.Length
      modifies this`closed, sock`sent, sock`sends, sock`polls, sock`clocks
      ensures done <= ma.at && sock.sent == old(sock.sent) + ma.buf[..ma.at][..done]
      ensures r <= 0 && (r == 0 ==> done == ma.at && closed == old(closed))
      ensures (old(closed) ==> closed) && (0 < done < ma.at ==> closed)
      ensures r < 0 ==> done < ma.at && Classified(r) && (r == ECONNRESET ==> closed)
    {
      var w: int;
      w, done := Write(sock, ma.buf[..ma.at], ma.at, deadline);
      if w == ETIMEDOUT {
        return ETIMEDOUT, done;
      }
      if w < 0 {
        r := IoFail(w);
        return r, done;
      }
      return 0, done;
    }

    // One more pass, after those that took `before` off the front.
    method ScanMore(serial: int, wm: nat, ghost f: Frame, ghost before: seq<Item>)
      returns (found: Found, ghost passed: seq<Item>)
      requires fr.table == table && fr.Valid() && Amortised(fr.g) && forall s :: mapError(s) < 0
      requires Reads(f, fr.g, before) && NoneAnswer(before, serial, wm, uniq)
      modifies fr`off, fr`skip, fr`g, fr.fds, table`live, un`limit
      ensures fr.Valid() && Amortised(fr.g) && Handed() == old(Handed())
      ensures Reads(f, fr.g, passed) && Settled(found, passed, fr.g, serial, wm, uniq)
      ensures fr.g.stream == old(fr.g.stream) && fr.g.came == old(fr.g.came)
      ensures found.Nothing? ==>
        && found.code == NextCode(fr.g) <= 0 && NoneAnswer(passed, serial, wm, uniq)
        && (FaultErrno(found.code) == 0 ==> Hungry(fr.g))
    {
      hide Inv, Amortised, Outside, QueueOpen, Fds, AfterNext, NextCode, Reads, NoneAnswer, Answers, HeadIs, Hungry;
      ghost var g := fr.g;
      ghost var more;
      found, more := Scan(serial, wm);
      ReadsTrans(f, g, fr.g, before, more);
      SettledMore(found, before, more, fr.g, serial, wm, uniq);
      passed := before + more;
      if found.Nothing? {
        NothingCodes(fr.g);
      }
    }

    // The reply loop.
    method ReadReply(sock: Socket, serial: int, wm: nat, deadline: int, ghost f: Frame)
      returns (r: int, ghost how: Found, ghost passed: seq<Item>)
      requires Valid() && Synced(sock) && Reads(f, fr.g, [])
      modifies this`closed, fr, fr.buf, fr.fds, fr.fds.fdq, table, un`limit,
               sock`taken, sock`recvs, sock`polls, sock`clocks
      ensures fr.Valid() && Amortised(fr.g) && Synced(sock) && Handed() == old(Handed())
      ensures Reads(f, fr.g, passed)
      ensures Ended(how, r, passed, fr.g, serial, wm, uniq)
      ensures how.Nothing? ==> Unanswered(r, NextCode(fr.g), closed)
      ensures old(closed) ==> closed
    {
      hide Inv, Amortised, Outside, QueueOpen, Fds, Tracked, AfterNext, NextCode, Reads, NoneAnswer, Answers, HeadIs,
           Message, Draft, Filled, Hungry;
      passed := [];
      NoneAnswersNone(serial, wm, uniq);
      var rounds := 0;
      while true
        invariant fr.Valid() && Amortised(fr.g) && Synced(sock) && Handed() == old(Handed())
        invariant Reads(f, fr.g, passed) && NoneAnswer(passed, serial, wm, uniq)
        invariant 0 <= rounds && (deadline <= 0 ==> rounds <= READ_BACKSTOP)
        invariant old(closed) ==> closed
        decreases |sock.clocks|, READ_BACKSTOP - rounds
      {
        var found;
        found, passed := ScanMore(serial, wm, f, passed);
        if found.Reply? {
          return 0, found, passed;
        }
        if found.Error? {
          return found.rc, found, passed;
        }
        var fault := FrameFault(found.code);
        if fault < 0 {
          return fault, Nothing(0), passed;
        }
        if deadline <= 0 {
          rounds := rounds + 1;
          if rounds > READ_BACKSTOP {
            return ETIMEDOUT, Nothing(0), passed;
          }
        }
        ghost var h := fr.g;
        r := Await(sock, deadline);
        ReadsTrans(f, h, fr.g, passed, []);
        assert passed + [] == passed;
        if r < 0 {
          return r, Nothing(0), passed;
        }
      }
    }

    lemma SettledMore(found: Found, passed: seq<Item>, more: seq<Item>, g: Frame, serial: int, wm: nat, name: seq<Byte>)
      requires NoneAnswer(passed, serial, wm, name) && Settled(found, more, g, serial, wm, name)
      ensures Settled(found, passed + more, g, serial, wm, name)
    {
      hide Answers, HeadIs, NextCode, AfterNext;
      if found.Error? {
        assert (passed + more)[..|passed + more| - 1] == passed + more[..|more| - 1];
      }
    }

    // ---- the pump ----

    // Take whole messages off the front, at most up to the cap, after those that took `before`.
    method TakeWhole(drained: nat, ghost f: Frame, ghost before: seq<Item>)
      returns (n: nat, r: int, ghost passed: seq<Item>)
      requires fr.table == table && fr.Valid() && Amortised(fr.g)
      requires Reads(f, fr.g, before) && drained == |before| < PUMP_MESSAGES
      modifies fr`off, fr`skip, fr`g, fr.fds, table`live
      ensures fr.Valid() && Amortised(fr.g) && Handed() == old(Handed())
      ensures Reads(f, fr.g, passed) && n == |passed| <= PUMP_MESSAGES
      ensures fr.g.stream == old(fr.g.stream) && fr.g.came == old(fr.g.came)
      ensures n < PUMP_MESSAGES ==> r == NextCode(fr.g) && (r == NEED_MORE ==> Hungry(fr.g))
      ensures n < PUMP_MESSAGES ==> r in {NEED_MORE, EOF, TRUNCATED, BAD_ENDIAN, BAD_PROTO, TOO_LONG}
    {
      hide Inv, Amortised, Outside, QueueOpen, Fds, AfterNext, NextCode, HeadIs, Advanced, Head, Reads, Hungry;
      ghost var s, came := fr.g.stream, fr.g.came;
      passed, n := before, drained;
      NextKeeps(f, fr.g, passed);
      r := fr.Next();
      while r > 0
        invariant fr.Valid() && Amortised(fr.g) && Handed() == old(Handed())
        invariant Reads(f, fr.g, passed) && n == |passed| < PUMP_MESSAGES && fr.g.stream == s && fr.g.came == came
        invariant r == NextCode(fr.g) && AfterNext(fr.g) == fr.g
        invariant r > 0 ==> HeadIs(fr.g, r) && fr.g.pos + r <= |fr.g.stream|
        decreases PUMP_MESSAGES - n
      {
        n := n + 1;
        AdvanceKeeps(f, fr.g, r, passed);
        passed := passed + [Head(fr.g, r)];
        fr.Advance(r);
        if n >= PUMP_MESSAGES {
          return;
        }
        NextKeeps(f, fr.g, passed);
        r := fr.Next();
      }
      NothingCodes(fr.g);
    }

    // One receive of the pump: whether to go on, and the errno if it failed other than for want of data.
    method PumpRead(sock: Socket) returns (more: bool, io: int)
      requires fr.table == table && fr.Valid() && Amortised(fr.g) && Synced(sock) && Hungry(fr.g)
      modifies this`closed, fr, fr.buf, fr.fds, fr.fds.fdq, table, sock`taken, sock`recvs
      ensures fr.Valid() && Amortised(fr.g) && Synced(sock) && Handed() == old(Handed())
      ensures Reads(old(fr.g), fr.g, [])
      ensures |sock.recvs| + 1 >= |old(sock.recvs)|
      ensures io <= 0 && (old(closed) ==> closed) && (more ==> io == 0)
      ensures |sock.recvs| <= |old(sock.recvs)| && (io < 0 ==> |sock.recvs| < |old(sock.recvs)|)
      ensures !more ==> NextCode(fr.g) == NextCode(old(fr.g))
    {
      hide Inv, Amortised, Outside, QueueOpen, Fds, Tracked, NextCode, Reads, Hungry, Received;
      ghost var f, a := fr.g, sock.taken;
      var got := Recv(sock);
      ReceivedReads(f, fr.g, got, sock.wire[a..sock.taken], PinsIn(sock.pins, a, sock.taken));
      if got >= 0 {
        return true, 0;
      }
      io := 0;
      if got != EAGAIN && got != EINTR {
        io := IoFail(got);
      }
      return false, io;
    }

    // Drain what is readable, one bounded receive at a time, and say how many messages went past. It
    // sends nothing, takes at most 256 messages and makes at most 1024 receives; on a closed
    // connection it never says that nothing happened. `err` is the errno of a receive that failed.
    method Pump(sock: Socket) returns (r: int, ghost passed: seq<Item>, ghost err: int)
      requires Valid() && Synced(sock)
      modifies this`closed, fr, fr.buf, fr.fds, fr.fds.fdq, table, sock`taken, sock`recvs
      ensures Valid() && Synced(sock) && Handed() == old(Handed())
      ensures Reads(old(fr.g), fr.g, passed) && |passed| <= 256
      ensures |sock.recvs| + 1024 >= |old(sock.recvs)|
      ensures r > 0 ==> r == |passed|
      ensures r <= 0 ==> passed == []
      ensures |passed| < 256 ==> NextCode(fr.g) <= 0
      ensures err <= 0 && (err < 0 ==> |sock.recvs| < |old(sock.recvs)|)
      ensures passed == [] ==> r == PumpErrno(NextCode(fr.g), err, closed)
      ensures passed == [] && NextCode(fr.g) in {EOF, TRUNCATED} ==> closed
      ensures r == 0 ==> !closed && NextCode(fr.g) == NEED_MORE
      ensures old(closed) ==> closed
    {
      hide Inv, Amortised, Outside, QueueOpen, Fds, Tracked, AfterNext, NextCode, Reads, Hungry, Received, Message,
           Draft, Filled;
      ghost var f := fr.g;
      var drained, io, rounds, more, code := 0, 0, 0, true, 0;
      passed, err := [], 0;
      ReadsNone(f);
      while more
        invariant fr.Valid() && Amortised(fr.g) && Synced(sock) && Handed() == old(Handed())
        invariant Reads(f, fr.g, passed) && drained == |passed| < PUMP_MESSAGES
        invariant 0 <= rounds <= PUMP_READS && |sock.recvs| + rounds >= |old(sock.recvs)|
        invariant io == err <= 0 && (io < 0 ==> !more && |sock.recvs| < |old(sock.recvs)|) && (old(closed) ==> closed)
        invariant |sock.recvs| <= |old(sock.recvs)|
        invariant !more ==> code == NextCode(fr.g)
        invariant !more ==> code in {NEED_MORE, EOF, TRUNCATED, BAD_ENDIAN, BAD_PROTO, TOO_LONG}
        decreases PUMP_READS - rounds, more
      {
        drained, code, passed := TakeWhole(drained, f, passed);
        if drained >= PUMP_MESSAGES {
          ReadsClaimed(f, fr.g, passed);
          return drained, passed, err;
        }
        more := code == NEED_MORE && sock.fd > 2 && rounds < PUMP_READS;
        if more {
          rounds := rounds + 1;
          ghost var h := fr.g;
          more, io := PumpRead(sock);
          err := io;
          ReadsTrans(f, h, fr.g, passed, []);
          assert passed + [] == passed;
        }
      }
      ReadsClaimed(f, fr.g, passed);
      r := PumpAnswer(drained, code, io);
    }

    // What a pump says: the messages that went past, or why there were none.
    method PumpAnswer(drained: nat, code: int, io: int) returns (r: int)
      modifies this`closed
      ensures closed == (old(closed) || (drained == 0 && code in {EOF, TRUNCATED}))
      ensures r == if drained > 0 then drained else PumpErrno(code, io, closed)
    {
      if drained > 0 {
        return drained;
      }
      var fault := FrameFault(code);
      if fault < 0 {
        return fault;
      }
      if io < 0 {
        return io;
      }
      if closed {
        return ECONNRESET;
      }
      return 0;
    }

    // ---- connecting ----

    method Reset()
      modifies this`serial, this`closed, this`uniq, this`timeoutMs
      ensures serial == 0 && !closed && uniq == [] && timeoutMs == 25000
    {
      serial, closed, uniq, timeoutMs := 0, false, [], 25000;
    }

    // Open a connection. Whatever an earlier one left is closed or forgotten; `conn` is what connecting gave, and
    // on the socket it gave the handshake is made. `agreed` is the framer when the lines ended, and `f`
    // when the call that says Hello did. A socket whose handshake fails is closed.
    method Open(conn: int, sock: Socket, blob: seq<Byte>)
      returns (r: int, bus: Option<int>, ghost agreed: Frame, ghost how: Found, ghost passed: seq<Item>, ghost f: Frame)
      requires Valid() && sock.Valid() && sock.table == table && sock.taken == 0
      modifies this, fr, fr.buf, fr.fds, fr.fds.fdq, table, un, ma, ma.buf, auth,
               sock`taken, sock`recvs, sock`polls, sock`clocks, sock`sent, sock`sends, sock`open
      ensures Valid() && Synced(sock) && Handed() == old(Handed())
      ensures r <= 0 && fr.g.led.queued == []
      ensures bus == if r == 0 then Some(conn) else None
      ensures conn < 0 ==> r == conn && fr.g == INIT && sock.sent == old(sock.sent) && sock.open == old(sock.open)
      ensures conn >= 0 ==> sock.open == (old(sock.open) && r == 0)
      ensures r == 0 ==> SaslEnds(agreed, 0, true) && Reads(agreed, f, passed) && fr.g.led.whole
      ensures r == 0 ==> HelloEnded(f, fr.g, how, passed, |agreed.stream|, [], 0, uniq)
      ensures r == 0 ==> sock.sent == old(sock.sent) + blob + HelloRequest(serial)
    {
      hide Inv, Amortised, Outside, QueueOpen, Fds, Tracked, Message, Draft, Filled, SaslEnds, HelloEnded, Reads,
           HelloRequest;
      Fresh(sock);
      how, passed, f, agreed := Nothing(0), [], fr.g, fr.g;
      if conn < 0 {
        return conn, None, agreed, how, passed, f;
      }
      r, agreed := Greet(sock, blob);
      if r == 0 {
        r, how, passed, f := Hello(sock);
      }
      if r < 0 {
        sock.Close();
        return r, None, agreed, how, passed, f;
      }
      return r, Some(conn), agreed, how, passed, f;
    }

    method Fresh(sock: Socket)
      requires Valid() && sock.Valid() && sock.table == table && sock.taken == 0
      modifies this, fr, fr.fds, table`live, auth
      ensures Valid() && Synced(sock) && Handed() == old(Handed())
      ensures fr.g == INIT && !auth.sawOk && serial == 0 && !closed && uniq == []
    {
      hide Inv, Outside, QueueOpen, Fds, Tracked, Message, Draft, Filled;
      fr.Init();
      InitInv();
      auth.Reset();
      Reset();
      greeted := 0;
      TrackedNone(sock.pins, 0);
    }

    method Greet(sock: Socket, blob: seq<Byte>) returns (r: int, ghost agreed: Frame)
      requires Valid() && Synced(sock) && fr.g == INIT && !auth.sawOk && sock.taken == 0
      modifies this`closed, this`greeted, auth, fr`off, fr`have, fr`g, fr.buf, table`live,
               sock`taken, sock`recvs, sock`polls, sock`clocks, sock`sent, sock`sends
      ensures Valid() && Synced(sock) && Handed() == old(Handed())
      ensures r <= 0 && agreed == fr.g && fr.g.led == EMPTY
      ensures r == 0 ==> SaslEnds(agreed, 0, true) && sock.sent == old(sock.sent) + blob
    {
      hide Inv, Outside, QueueOpen, Fds, Tracked, Message, Draft, Filled, Decide, Amortised;
      ghost var decided;
      r, decided := Sasl(sock, blob);
      agreed := fr.g;
    }

    // ---- the connect handshake ----

    // A descriptor that arrives during the handshake belongs to no message: it is closed.
    method CloseStray(got: seq<Pin>)
      requires multiset(Numbers(got)) <= table.live
      modifies table`live
      ensures table.live == old(table.live) - multiset(Numbers(got))
    {
      hide Numbers;
      ghost var q, rest := Numbers(got), table.live - multiset(Numbers(got));
      var i := 0;
      assert q[0..] == q;
      while i < |got|
        invariant 0 <= i <= |got|
        invariant table.live == rest + multiset(q[i..])
        modifies table`live
      {
        FirstAndRest(q, i);
        table.Close(got[i].fd);
        i := i + 1;
      }
    }

    // A receive whose descriptors are not wanted.
    method RecvBytes(sock: Socket, space: nat) returns (got: int, data: seq<Byte>)
      requires sock.Valid() && sock.table == table && space > 0
      modifies table`live, sock`taken, sock`recvs
      ensures sock.Valid() && table.live == old(table.live) && got <= space
      ensures |data| == (if got > 0 then got else 0) && sock.taken == old(sock.taken) + |data|
      ensures data == sock.wire[old(sock.taken)..sock.taken]
    {
      hide Numbers, PinsIn;
      ghost var before := table.live;
      var pins, truncated;
      got, data, pins, truncated := sock.Recv(space);
      CloseStray(pins);
      assert table.live == before;
    }

    // Wait for the time left, if there is a deadline. `go` says whether to receive; a negative `r`
    // ends the exchange.
    method SaslWait(sock: Socket, deadline: int) returns (go: bool, r: int)
      modifies sock`polls, sock`clocks
      ensures r <= 0 && (go ==> r == 0)
      ensures r == 0 && deadline > 0 ==> |sock.clocks| < |old(sock.clocks)|
      ensures deadline <= 0 ==> go && sock.clocks == old(sock.clocks)
    {
      if deadline <= 0 {
        return true, 0;
      }
      var now := sock.Now();
      if now < 0 || now >= deadline {
        return false, ETIMEDOUT;
      }
      var ready := sock.Poll(deadline - now);
      if ready == 0 {
        return false, ETIMEDOUT;
      }
      if ready == EINTR {
        return false, 0;
      }
      if ready < 0 {
        return false, ready;
      }
      return true, 0;
    }

    // Some of the server's bytes: into the buffer, and as many lines as they complete.
    method SaslFeed(data: seq<Byte>) returns (st: int)
      requires fr.Valid() && |data| <= fr.Space() && SaslAt(fr.g, auth.sawOk)
      modifies auth, fr`off, fr`have, fr`g, fr.buf
      ensures fr.Valid() && fr.g.stream == old(fr.g.stream) + data && fr.g.led == EMPTY && fr.g.came == []
      ensures var d := Decide(fr.g.stream, false);
        st == d.code && fr.g == Eaten(Committed(INIT, fr.g.stream), d.used) && auth.sawOk == d.sawOk
      ensures st == AUTH_NEED_MORE ==> SaslAt(fr.g, auth.sawOk)
    {
      hide Inv, QueueOpen, Fds, Tracked, Decide, Outside, SaslAt, Eaten, Committed;
      SaslMore(fr.g, data, auth.sawOk);
      fr.Commit(data);
      st := auth.DrainLines(fr);
    }

    // One receive of the exchange: its descriptors are closed, its bytes are read. Descriptors count as a
    // message's only if they come after it.
    method SaslReceive(sock: Socket, space: nat) returns (got: int, st: int)
      requires fr.table == table && fr.Valid() && Synced(sock) && 0 < space <= fr.Space() && SaslAt(fr.g, auth.sawOk)
      modifies this`greeted, auth, fr`off, fr`have, fr`g, fr.buf, table`live, sock`taken, sock`recvs
      ensures fr.Valid() && Synced(sock) && Handed() == old(Handed())
      ensures got <= 0 ==> st == AUTH_NEED_MORE
      ensures st == Decide(fr.g.stream, false).code
      ensures fr.g == Eaten(Committed(INIT, fr.g.stream), Decide(fr.g.stream, false).used)
      ensures st == AUTH_NEED_MORE ==> SaslAt(fr.g, auth.sawOk)
    {
      hide Inv, Outside, QueueOpen, Fds, Decide, Numbers, PinsIn, Tracked, SaslAt, Eaten, Committed;
      SaslNone(fr.g, auth.sawOk);
      st := AUTH_NEED_MORE;
      var data;
      got, data := RecvBytes(sock, space);
      if got > 0 {
        WireStep(sock.wire, sock.taken - got, got);
        st := SaslFeed(data);
      }
      greeted := sock.taken;
      TrackedNone(sock.pins, greeted);
    }

    // The SASL exchange. What is decided is a function of the server's bytes alone, however they
    // arrive, and on success the first message of the framer is the first after it.
    method Sasl(sock: Socket, blob: seq<Byte>) returns (r: int, ghost decided: bool)
      requires Valid() && Synced(sock) && fr.g == INIT && !auth.sawOk && sock.taken == 0
      modifies this`closed, this`greeted, auth, fr`off, fr`have, fr`g, fr.buf, table`live,
               sock`taken, sock`recvs, sock`polls, sock`clocks, sock`sent, sock`sends
      ensures Valid() && Synced(sock) && Handed() == old(Handed())
      ensures SaslEnds(fr.g, r, decided)
      ensures r == 0 || decided ==> sock.sent == old(sock.sent) + blob
    {
      hide Inv, Amortised, Outside, QueueOpen, Fds, Tracked, Decide, Message, Draft, Filled, Numbers, PinsIn, SaslAt,
           SaslEnds, Eaten, Committed;
      SaslStart();
      var deadline := 0;
      var t0 := sock.Now();
      if t0 >= 0 {
        deadline := t0 + timeoutMs;
      }
      var w;
      ghost var done;
      w, done := Write(sock, blob, |blob|, deadline);
      if w < 0 {
        SaslStill(fr.g, auth.sawOk);
        return w, false;
      }
      assert blob[..done] == blob;
      r, decided := SaslRead(sock, deadline);
    }

    method SaslRead(sock: Socket, deadline: int) returns (r: int, ghost decided: bool)
      requires fr.table == table && fr.Valid() && Synced(sock) && SaslAt(fr.g, auth.sawOk)
      modifies this`greeted, auth, fr`off, fr`have, fr`g, fr.buf, table`live,
               sock`taken, sock`recvs, sock`polls, sock`clocks
      ensures fr.Valid() && Synced(sock) && Handed() == old(Handed())
      ensures Amortised(fr.g) && fr.g.led == EMPTY && SaslEnds(fr.g, r, decided)
    {
      hide Inv, Amortised, Outside, QueueOpen, Fds, Tracked, Decide, Numbers, PinsIn, SaslAt, SaslEnds, Eaten,
           Committed;
      var rounds := 0;
      while true
        invariant fr.Valid() && Synced(sock) && Handed() == old(Handed())
        invariant SaslAt(fr.g, auth.sawOk)
        invariant 0 <= rounds && (deadline <= 0 ==> rounds <= SASL_BACKSTOP)
        decreases |sock.clocks|, SASL_BACKSTOP - rounds
      {
        SaslStill(fr.g, auth.sawOk);
        var space := fr.Space();
        if space <= 0 {
          return EPROTO, false;
        }
        var go;
        go, r := SaslWait(sock, deadline);
        if r < 0 {
          return r, false;
        }
        if !go {
          continue;
        }
        if deadline <= 0 {
          rounds := rounds + 1;
          if rounds > SASL_BACKSTOP {
            return ETIMEDOUT, false;
          }
        }
        var got, st := SaslReceive(sock, space);
        SaslNow(fr.g);
        if got == EINTR {
          continue;
        }
        if got == EAGAIN {
          if deadline > 0 {
            continue;
          }
          return ETIMEDOUT, false;
        }
        if got < 0 {
          return got, false;
        }
        if got == 0 {
          return ECONNRESET, false;
        }
        if st == AUTH_OK {
          return 0, true;
        }
        if st != AUTH_NEED_MORE {
          return EACCES, true;
        }
      }
    }

    // ---- logind calls ----

    // Within u32, and never 0, which the specification reserves.
    method NextSerial() returns (n: int)
      requires 0 <= serial <= U32_MAX
      modifies this`serial
      ensures serial == n == if old(serial) == U32_MAX then 1 else old(serial) + 1
      ensures 1 <= n <= U32_MAX
    {
      serial := if serial + 1 > U32_MAX || serial + 1 == 0 then 1 else serial + 1;
      return serial;
    }

    method BeginCall(path: seq<Byte>, member: seq<Byte>, onMgr: bool, serial: int)
      requires ma.buf.Length == MARSHAL_CAP
      modifies ma, ma.buf
      ensures ma.Valid() && ma.stage == InFields && !ma.spoilt && ma.kind == (TYPE_CALL, 0, serial)
      ensures ma.fields == CallFields(path, member, onMgr) && ma.values == []
    {
      hide Message, Draft, Filled, Ascii, Interface;
      ma.Begin(TYPE_CALL, 0, serial);
      AddText(F_PATH, SIG_O, path);
      AddText(F_MEMBER, SIG_S, member);
      AddText(F_INTERFACE, SIG_S, Interface(onMgr));
      AddText(F_DESTINATION, SIG_S, Ascii("org.freedesktop.login1"));
    }

    // A string field, all of it.
    method AddText(code: Byte, sig: Byte, text: seq<Byte>)
      requires ma.Valid() && ma.stage == InFields && !ma.spoilt
      modifies ma`at, ma`bad, ma`want, ma`spoilt, ma`fields, ma.buf
      ensures ma.Valid() && !ma.spoilt && ma.fields == old(ma.fields) + [StrField(code, sig, text)]
    {
      hide Message, Draft, Filled;
      ma.AddStr(code, sig, text, |text|);
      assert text[..|text|] == text;
    }

    method BuildTakeDevice(path: seq<Byte>, major: int, minor: int, serial: int)
      requires ma.buf.Length == MARSHAL_CAP
      modifies ma, ma.buf
      ensures ma.Valid() && ma.stage == Finished && !ma.spoilt
      ensures ma.Built() == TakeDeviceRequest(path, major, minor, serial)
      ensures !ma.bad ==> ma.buf[..ma.at] == ma.Built()
    {
      hide Message, Draft, Filled, Ascii;
      BeginCall(path, Ascii("TakeDevice"), false, serial);
      var sg := Ascii("uu");
      ma.AddSig(F_SIGNATURE, sg, |sg|);
      assert sg[..|sg|] == sg;
      ma.EndFields();
      ma.BodyU32(major);
      ma.BodyU32(minor);
      assert ma.values == [U32Val(major), U32Val(minor)] && ma.fields == TakeDeviceFields(path);
      var _ := ma.Finish();
    }

    // Is the reply a (hb) carrying exactly the descriptors it says? With the index and flag it holds.
    method JudgeTake(m: seq<Byte>, arrived: nat, lost: bool) returns (ok: bool, idx: int, inactive: int)
      requires un.limit == |m| >= HDR_SIZE && ValidHeader(m)
      modifies un`body, un`at, un`end
      ensures ok <==> TakeReplyOk(m, Ascii("hb"), arrived, lost)
      ensures ok ==> (idx, inactive) == HbBody(m)
      ensures inactive == Inactive(m)
    {
      hide Header, Le32, Lookup, ValidHeader, BodyCursor, Ascii;
      assert m[..|m|] == m;
      ok := true;
      var so, sig := un.FindField(m, F_SIGNATURE);
      if so < 0 {
        ok := false;
      }
      if ok {
        var sn, sp := un.SigAt(m, so);
        if sn < 0 {
          ok := false;
        } else {
          ok := BytesEq(m[sp..sp + sn], Ascii("hb"));
        }
      }
      U32Inside(m, F_UNIX_FDS);
      var declared := 0;
      var uo, sig2 := un.FindField(m, F_UNIX_FDS);
      if uo == MALFORMED {
        ok := false;
      }
      if uo > 0 {
        declared := Le32(m, uo);
      }
      ValidHeaderLookups(m, F_UNIX_FDS);
      if declared != arrived {
        ok := false;
      }
      if lost {
        ok := false;
      }
      un.BodyBegin(m);
      idx := un.NextU32();
      inactive := un.NextBool();
      if idx < 0 {
        ok := false;
      }
      if inactive < 0 {
        ok := false;
        inactive := 0;
      }
    }

    // Claim the descriptor the reply names, and keep it only if it is the device asked for.
    method ClaimDevice(ok: bool, idx: int, major: int, minor: int) returns (fd: int)
      requires fr.table == table && fr.Valid() && Amortised(fr.g)
      modifies fr`g, fr.fds, fr.fds.fdq, table
      ensures fr.Valid() && Amortised(fr.g)
      ensures fr.g == if ok then Claimed1(old(fr.g), idx) else old(fr.g)
      ensures Handed() == old(Handed()) + One(fd)
      ensures Picked(old(fr.g).led.queued, ok, idx, major, minor, table.asked, fd)
    {
      hide Inv, Amortised, Outside, QueueOpen, Fds, Tracked, Claimed1;
      ghost var q := fr.g.led.queued;
      ClaimKeeps(fr.g, idx);
      if !ok {
        return -1;
      }
      fd := fr.ClaimFd(idx);
      if fd >= 0 {
        ghost var was := table.live;
        var device := table.IsDevice(fd, major, minor);
        if !device {
          MoveOutside(was, fr.g.led, fd, multiset{});
          assert was - multiset{fd} + multiset{} == was - multiset{fd};
          table.Close(fd);
          return -1;
        }
      }
    }

    // The reply to TakeDevice is at the head: hand out the descriptor its body names, if everything
    // about it is as it should be, and consume it.
    method TakeReply(n: nat, major: int, minor: int) returns (r: int, out: Outs)
      requires fr.table == table && fr.Valid() && Amortised(fr.g) && n > 0 && HeadIs(fr.g, n) && fr.g.led.claimed == []
      requires fr.g.pos + n <= |fr.g.stream| && ValidHeader(Head(fr.g, n).bytes)
      modifies un, fr`off, fr`g, fr.fds, fr.fds.fdq, table
      ensures fr.Valid() && Amortised(fr.g)
      ensures Took(old(fr.g), fr.g, n, major, minor, table.asked, r, out)
      ensures fr.g.stream == old(fr.g.stream) && fr.g.came == old(fr.g.came) && fr.g.led.claimed == []
      ensures Handed() == old(Handed()) + (if r == 0 then multiset{out.fd} else multiset{})
    {
      hide Inv, Amortised, Outside, QueueOpen, Fds, Tracked, Advanced, Claimed1, HeadIs, TakeReplyOk, HbBody,
           Inactive, ValidHeader, Ascii, Took;
      ghost var f := fr.g;
      HeadInside(f, n);
      var p := fr.Base()[..n];
      assert p == Head(f, n).bytes;
      var _ := un.SetLimit(n);
      var ok, idx, inactive := JudgeTake(p, fr.fds.fdtot, fr.fds.fdbad);
      FirstEight(f, idx);
      ClaimKeeps(f, idx);
      var fd := ClaimDevice(ok, idx, major, minor);
      out := Outs(fd, inactive);
      TookIt(f, fr.g, n, ok, out, (idx, inactive), major, minor, table.asked);
      fr.Advance(n);
      return if fd < 0 then EBADF else 0, out;
    }

    method TakeArgsOk(sess: Option<seq<Byte>>, major: int, minor: int) returns (ok: bool)
      ensures ok <==> sess.Some? && IsPath(sess.value) && 0 <= major <= 4294967295 && 0 <= minor <= 4294967295
    {
      if sess == None {
        return false;
      }
      assert sess.value[..|sess.value|] == sess.value;
      ok := un.PathOk(sess.value, |sess.value|);
      ok := ok && 0 <= major <= U32_MAX && 0 <= minor <= U32_MAX;
    }

    // How a TakeDevice ends. `f` is the framer when its call ended: when that was with a reply at the
    // head, the reply was consumed; otherwise nothing was stored.
    ghost predicate TakeEnded(f: Frame, g: Frame, how: Found, passed: seq<Item>, wm: nat,
                              major: int, minor: int, r: int, out: Option<Outs>)
      reads this`uniq, this`serial, table`asked
    {
      if how.Reply? then
        Ended(how, 0, passed, f, serial, wm, uniq) && f.pos + how.n <= |f.stream| && out.Some?
        && Took(f, g, how.n, major, minor, table.asked, r, out.value)
      else
        r < 0 && Ended(how, r, passed, f, serial, wm, uniq) && g == f && out == None
    }

    // Ask logind for a device. On success the descriptor handed out came with the reply's own bytes,
    // is the one the reply's index names, and is the device asked for; whenever a reply was consumed
    // nothing is left in the queue, and a refusal stores -1.
    method TakeDevice(sock: Socket, sess: Option<seq<Byte>>, major: int, minor: int)
      returns (r: int, out: Option<Outs>, ghost how: Found, ghost passed: seq<Item>, ghost f: Frame)
      requires Valid() && Synced(sock)
      modifies this`closed, this`serial, fr, fr.buf, fr.fds, fr.fds.fdq, table, un, ma, ma.buf,
               sock`taken, sock`recvs, sock`polls, sock`clocks, sock`sent, sock`sends
      ensures Valid() && Synced(sock)
      ensures Handed() == old(Handed()) + (if r == 0 && out.Some? then multiset{out.value.fd} else multiset{})
      ensures Reads(old(fr.g), f, passed)
      ensures TakeEnded(f, fr.g, how, passed, |old(fr.g.stream)|, major, minor, r, out)
      ensures Inv(f) && Synced(sock)
      ensures old(fr.g.led.whole) && how.Reply? ==> exists cs :: OwnPins(f, how.n, sock.pins, cs)
      ensures old(fr.g.led.whole) && r == 0 ==> out.Some? && TookPin(f, how.n, sock.pins, out.value)
      ensures !(sess.Some? && IsPath(sess.value) && 0 <= major <= 4294967295 && 0 <= minor <= 4294967295) ==>
        r == -22 && fr.g == old(fr.g) && sock.sent == old(sock.sent)
      ensures !how.Nothing? ==>
        && sess.Some? && IsPath(sess.value) && 0 <= major <= 4294967295 && 0 <= minor <= 4294967295
        && sock.sent == old(sock.sent) + TakeDeviceRequest(sess.value, major, minor, serial)
        && AsksForDevice(TakeDeviceRequest(sess.value, major, minor, serial), sess.value, major, minor, serial)
    {
      hide Inv, Amortised, Outside, QueueOpen, Fds, Took, Reads, NoneAnswer, Answers, HeadIs, Message, Draft, Filled,
           AfterNext, NextCode, IsPath, Ended, TakeDeviceRequest, AsksForDevice, Tracked, OwnPins, TookPin;
      f, how, passed, out := fr.g, Nothing(0), [], None;
      TrackedFrom(f.came, sock.pins, greeted, sock.taken);
      ReadsNone(f);
      EndedUntried(serial, f, |f.stream|, uniq);
      var ok := TakeArgsOk(sess, major, minor);
      if !ok {
        r := EINVAL;
        return;
      }
      r, how, passed := AskTake(sock, sess.value, major, minor);
      f := fr.g;
      FrameInv();
      ReadsWhole(old(fr.g), f, passed);
      if r < 0 {
        return;
      }
      SettledReply(how, passed, f, serial, |old(fr.g.stream)|, uniq);
      var n := fr.Next();
      var o;
      r, o := TakeReply(n, major, minor);
      out := Some(o);
      if f.led.whole {
        OwnedPins(f, n, sock.pins, greeted, sock.taken);
        if r == 0 {
          TakenPin(f, fr.g, n, major, minor, table.asked, o, sock.pins);
        }
      }
    }

    lemma FrameInv()
      requires fr.Valid()
      ensures Inv(fr.g)
    {
      hide Inv;
    }

    method AskTake(sock: Socket, path: seq<Byte>, major: int, minor: int)
      returns (r: int, ghost how: Found, ghost passed: seq<Item>)
      requires Valid() && Synced(sock) && 0 <= major <= U32_MAX && 0 <= minor <= U32_MAX
      modifies this`closed, this`serial, fr, fr.buf, fr.fds, fr.fds.fdq, table, un`limit, ma, ma.buf,
               sock`taken, sock`recvs, sock`polls, sock`clocks, sock`sent, sock`sends
      ensures Valid() && Synced(sock) && Handed() == old(Handed())
      ensures Reads(old(fr.g), fr.g, passed)
      ensures Ended(how, r, passed, fr.g, serial, |old(fr.g.stream)|, uniq)
      ensures r <= 0 && (how.Reply? <==> r == 0)
      ensures !how.Nothing? ==> sock.sent == old(sock.sent) + TakeDeviceRequest(path, major, minor, serial)
      ensures !how.Nothing? ==> AsksForDevice(TakeDeviceRequest(path, major, minor, serial), path, major, minor, serial)
    {
      hide Inv, Amortised, Outside, QueueOpen, Fds, Tracked, Reads, NoneAnswer, Answers, HeadIs, Message, Draft, Filled,
           AfterNext, NextCode, Ended, TakeDeviceRequest, AsksForDevice;
      ghost var wm := |fr.g.stream|;
      var sn := NextSerial();
      BuildTakeDevice(path, major, minor, sn);
      ghost var done;
      r, how, passed, done := Call(sock, sn);
      assert done == ma.at ==> ma.buf[..ma.at][..done] == ma.buf[..ma.at];
      if !how.Nothing? {
        EncodedAsks(path, major, minor, sn);
      }
      EndedNegative(how, r, passed, fr.g, sn, wm, uniq);
    }

    lemma EndedUntried(serial: int, f: Frame, wm: nat, name: seq<Byte>)
      ensures Ended(Nothing(0), EINVAL, [], f, serial, wm, name)
    {
    }

    lemma EndedNegative(how: Found, r: int, passed: seq<Item>, g: Frame, serial: int, wm: nat, name: seq<Byte>)
      requires Ended(how, r, passed, g, serial, wm, name)
      ensures r <= 0 && (how.Reply? <==> r == 0)
      ensures r == 0 ==> Ended(how, 0, passed, g, serial, wm, name)
    {
      hide Answers, NoneAnswer, HeadIs;
    }

    // How a Hello ends. `f` is the framer when its call ended: when that was with a reply at the head, the
    // reply was consumed, and it gives us the name or there is none in it.
    ghost predicate HelloEnded(f: Frame, g: Frame, how: Found, passed: seq<Item>, wm: nat,
                               was: seq<Byte>, r: int, now: seq<Byte>)
      reads this`serial
    {
      if how.Reply? then
        Ended(how, 0, passed, f, serial, wm, was) && f.pos + how.n <= |f.stream| && Named(f, g, how.n, was, r, now)
      else
        && r < 0 && Ended(how, r, passed, f, serial, wm, was)
        && g.stream == f.stream && g.consumed == f.consumed && now == was
    }

    // Hello, whose reply names us. When it fails, no descriptor it brought is left in the queue.
    method Hello(sock: Socket) returns (r: int, ghost how: Found, ghost passed: seq<Item>, ghost f: Frame)
      requires Valid() && Synced(sock)
      modifies this`closed, this`serial, this`uniq, fr, fr.buf, fr.fds, fr.fds.fdq, table, un, ma, ma.buf,
               sock`taken, sock`recvs, sock`polls, sock`clocks, sock`sent, sock`sends
      ensures Valid() && Synced(sock) && Handed() == old(Handed())
      ensures Inv(f) && Reads(old(fr.g), f, passed)
      ensures HelloEnded(f, fr.g, how, passed, |old(fr.g.stream)|, old(uniq), r, uniq)
      ensures r <= 0 && (r == 0 ==> how.Reply?) && fr.g.led.queued == []
      ensures r == 0 ==> fr.g.led.head == [] && fr.g.led.whole == old(fr.g.led.whole)
      ensures !how.Nothing? ==>
        sock.sent == old(sock.sent) + HelloRequest(serial) && AsksForName(HelloRequest(serial), serial)
    {
      hide Inv, Outside, QueueOpen, Fds, Tracked, FdsClosed, Message, Draft, Filled, HelloEnded, Reads, HelloRequest,
           AsksForName, Amortised;
      r, how, passed, f := HelloCall(sock);
      if r < 0 {
        CloseKeeps(fr.g);
        HelloClosed(f, fr.g, FdsClosed(fr.g), how, passed, |old(fr.g.stream)|, old(uniq), r, uniq);
        fr.CloseFds();
      }
    }

    lemma HelloClosed(f: Frame, g: Frame, h: Frame, how: Found, passed: seq<Item>, wm: nat,
                      was: seq<Byte>, r: int, now: seq<Byte>)
      requires HelloEnded(f, g, how, passed, wm, was, r, now) && h == FdsClosed(g)
      ensures HelloEnded(f, h, how, passed, wm, was, r, now)
    {
      hide Ended, HelloNames;
    }

    method HelloCall(sock: Socket) returns (r: int, ghost how: Found, ghost passed: seq<Item>, ghost f: Frame)
      requires Valid() && Synced(sock)
      modifies this`closed, this`serial, this`uniq, fr, fr.buf, fr.fds, fr.fds.fdq, table, un, ma, ma.buf,
               sock`taken, sock`recvs, sock`polls, sock`clocks, sock`sent, sock`sends
      ensures Valid() && Synced(sock) && Handed() == old(Handed())
      ensures Inv(f) && Reads(old(fr.g), f, passed)
      ensures HelloEnded(f, fr.g, how, passed, |old(fr.g.stream)|, old(uniq), r, uniq)
      ensures r <= 0 && (r == 0 ==> how.Reply?)
      ensures r == 0 ==> fr.g.led.head == [] && fr.g.led.queued == [] && fr.g.led.whole == old(fr.g.led.whole)
      ensures !how.Nothing? ==>
        sock.sent == old(sock.sent) + HelloRequest(serial) && AsksForName(HelloRequest(serial), serial)
    {
      hide Inv, Amortised, Outside, QueueOpen, Fds, Reads, NoneAnswer, Answers, HeadIs, Message, Draft, Filled,
           AfterNext, NextCode, Ended, Named, HelloRequest, AsksForName, Advanced, Tracked;
      r, how, passed := AskHello(sock);
      f := fr.g;
      FrameInv();
      ReadsWhole(old(fr.g), f, passed);
      if r < 0 {
        return;
      }
      SettledReply(how, passed, f, serial, |old(fr.g.stream)|, uniq);
      var n := fr.Next();
      r := KeepName(n);
    }

    method AskHello(sock: Socket) returns (r: int, ghost how: Found, ghost passed: seq<Item>)
      requires Valid() && Synced(sock)
      modifies this`closed, this`serial, fr, fr.buf, fr.fds, fr.fds.fdq, table, un`limit, ma, ma.buf,
               sock`taken, sock`recvs, sock`polls, sock`clocks, sock`sent, sock`sends
      ensures Valid() && Synced(sock) && Handed() == old(Handed())
      ensures Reads(old(fr.g), fr.g, passed)
      ensures Ended(how, r, passed, fr.g, serial, |old(fr.g.stream)|, uniq)
      ensures r <= 0 && (how.Reply? <==> r == 0)
      ensures !how.Nothing? ==> sock.sent == old(sock.sent) + HelloRequest(serial)
      ensures !how.Nothing? ==> AsksForName(HelloRequest(serial), serial)
      ensures fr.g.led.claimed == []
    {
      hide Inv, Amortised, Outside, QueueOpen, Fds, Tracked, Reads, NoneAnswer, Answers, HeadIs, Message, Draft, Filled,
           AfterNext, NextCode, Ended, HelloRequest, AsksForName;
      ghost var wm := |fr.g.stream|;
      var sn := NextSerial();
      BuildHello(sn);
      ghost var done;
      r, how, passed, done := Call(sock, sn);
      assert done == ma.at ==> ma.buf[..ma.at][..done] == ma.buf[..ma.at];
      if !how.Nothing? {
        EncodedHello(sn);
      }
      EndedNegative(how, r, passed, fr.g, sn, wm, uniq);
    }

    // Read our name out of the Hello reply at the head, and consume the reply.
    method KeepName(n: nat) returns (r: int)
      requires fr.table == table && fr.Valid() && Amortised(fr.g) && fr.g.led.claimed == []
      requires n > 0 && HeadIs(fr.g, n) && fr.g.pos + n <= |fr.g.stream| && ValidHeader(Head(fr.g, n).bytes)
      modifies this`uniq, un, fr`off, fr`g, fr.fds, table`live
      ensures fr.Valid() && Amortised(fr.g) && fr.g.led.claimed == [] && Handed() == old(Handed())
      ensures fr.g.stream == old(fr.g.stream) && fr.g.came == old(fr.g.came)
      ensures Named(old(fr.g), fr.g, n, old(uniq), r, uniq)
      ensures fr.g.led.head == [] && fr.g.led.queued == [] && fr.g.led.whole == old(fr.g.led.whole)
      ensures r <= 0
    {
      hide Inv, Amortised, Outside, QueueOpen, Fds, Tracked, HeadIs, HelloNames, Advanced, ValidHeader;
      var name := ReadName(n);
      AdvanceGone(fr.g, n);
      fr.Advance(n);
      if name == None {
        return EPROTO;
      }
      if |name.value| > 255 {
        return EINVAL;
      }
      uniq := name.value;
      return 0;
    }

    method BuildHello(serial: int)
      requires ma.buf.Length == MARSHAL_CAP
      modifies ma, ma.buf
      ensures ma.Valid() && ma.stage == Finished && !ma.spoilt
      ensures ma.Built() == HelloRequest(serial)
      ensures !ma.bad ==> ma.buf[..ma.at] == ma.Built()
    {
      hide Message, Draft, Filled, Ascii;
      ma.Begin(TYPE_CALL, 0, serial);
      AddText(F_PATH, SIG_O, Ascii("/org/freedesktop/DBus"));
      AddText(F_MEMBER, SIG_S, Ascii("Hello"));
      AddText(F_INTERFACE, SIG_S, Ascii("org.freedesktop.DBus"));
      AddText(F_DESTINATION, SIG_S, Ascii("org.freedesktop.DBus"));
      assert ma.fields == HelloFields() && ma.values == [];
      ma.EndFields();
      var _ := ma.Finish();
    }

    // The unique name the Hello reply of `n` bytes at the head gives us, if it gives one.
    method ReadName(n: nat) returns (name: Option<seq<Byte>>)
      requires fr.Valid() && n > 0 && HeadIs(fr.g, n) && fr.g.pos + n <= |fr.g.stream|
      requires ValidHeader(Head(fr.g, n).bytes)
      modifies un
      ensures forall x :: HelloNames(Head(fr.g, n).bytes, x) <==> name == Some(x) && |x| <= 255
    {
      hide Inv, QueueOpen, Fds, Tracked, ValidHeader, HeadIs, HelloNames;
      HeadInside(fr.g, n);
      var p := fr.Base()[..n];
      assert p == Head(fr.g, n).bytes;
      name := NameIn(p);
    }

    method NameIn(p: seq<Byte>) returns (name: Option<seq<Byte>>)
      requires |p| >= HDR_SIZE && ValidHeader(p)
      modifies un
      ensures forall x :: HelloNames(p, x) <==> name == Some(x) && |x| <= 255
    {
      hide Header, Le32, Lookup, ValidHeader, BodyCursor, Ascii;
      var n := |p|;
      assert p[..n] == p;
      var _ := un.SetLimit(n);
      var so, sig := un.FindField(p, F_SIGNATURE);
      var ok := false;
      if so >= 0 {
        var sn, sp := un.SigAt(p, so);
        if sn >= 0 {
          ok := BytesEq(p[sp..sp + sn], Ascii("s"));
        }
      }
      un.BodyBegin(p);
      var k, ptr := un.NextStr();
      if k < 2 || !ok || p[ptr] != 58 {
        return None;
      }
      var clean := un.HasNoNul(p[ptr..], k);
      assert p[ptr..][..k] == p[ptr..ptr + k];
      if !clean {
        return None;
      }
      return Some(p[ptr..ptr + k]);
    }

    // What a call answers, as a statement about the parse of the whole stream: among the messages from
    // the first not yet consumed when it began, the reply or the error is the first that answers, and a
    // call that ends without one, with nothing whole left to read, had none to find.
    lemma CallSelects(f: Frame, g: Frame, how: Found, r: int, passed: seq<Item>, serial: int, wm: nat, name: seq<Byte>)
      requires Inv(g) && Reads(f, g, passed) && Ended(how, r, passed, g, serial, wm, name)
      ensures var ms, from := Messages(g.stream, g.start), |f.consumed|;
        match how
        case Reply(n) =>
          && r == 0 && FirstAnswer(ms, from, |g.consumed|, serial, wm, name)
          && ms[|g.consumed|].pos == g.pos && |ms[|g.consumed|].bytes| == n && ms[|g.consumed|].bytes[1] == TYPE_RETURN
        case Error(_) =>
          && FirstAnswer(ms, from, |g.consumed| - 1, serial, wm, name)
          && ms[|g.consumed| - 1].bytes[1] == TYPE_ERROR && r == ErrorCode(ms[|g.consumed| - 1].bytes)
        case Nothing(_) =>
          r < 0 && (NextCode(g) <= 0 ==> from <= |ms| && NoneAnswer(ms[from..], serial, wm, name))
    {
      hide Queues, Placed, Answers, NoneAnswer, Answer, Stop, TotalAt, Messages;
      assert g.stream + [] == g.stream;
      AnswerIsNextMessage(g.stream, g.Resume(), g.eof);
      var ms, from := Messages(g.stream, g.start), |f.consumed|;
      assert ms == f.consumed + passed + Messages(g.stream, g.Resume());
      match how
      case Reply(n) =>
        assert ms[from..|g.consumed|] == passed;
      case Error(_) =>
        assert ms[from..|g.consumed| - 1] == passed[..|passed| - 1];
      case Nothing(_) =>
        if NextCode(g) <= 0 {
          assert ms[from..] == passed;
        }
    }

    lemma SettledReply(how: Found, passed: seq<Item>, g: Frame, serial: int, wm: nat, name: seq<Byte>)
      requires Ended(how, 0, passed, g, serial, wm, name)
      ensures how.Reply? && how.n > 0 && HeadIs(g, how.n) && how.n == NextCode(g) && AfterNext(g) == g
      ensures g.pos + how.n <= |g.stream| && ValidHeader(Head(g, how.n).bytes)
      ensures Answers(Head(g, how.n), serial, wm, name) && wm <= g.pos
    {
    }
  }

  // What TakeDevice stores for its caller.
  datatype Outs = Outs(fd: int, active: int)

  function Interface(onMgr: bool): (s: seq<Byte>) {
    if onMgr then Ascii("org.freedesktop.login1.Manager") else Ascii("org.freedesktop.login1.Session")
  }

  // The fields of a call, in the order they are written.
  function CallFields(path: seq<Byte>, member: seq<Byte>, onMgr: bool): (fs: seq<FieldVal>) {
    [StrField(F_PATH, SIG_O, path), StrField(F_MEMBER, SIG_S, member),
     StrField(F_INTERFACE, SIG_S, Interface(onMgr)),
     StrField(F_DESTINATION, SIG_S, Ascii("org.freedesktop.login1"))]
  }

  // Any reader finds in such a call the object, the method and the interface it is for, and logind's name.
  lemma EncodedCall(path: seq<Byte>, member: seq<Byte>, onMgr: bool, serial: int, bs: seq<BodyVal>)
    requires Encodable(1, 0, serial, CallFields(path, member, onMgr), bs)
    ensures var m := Message(1, 0, serial, CallFields(path, member, onMgr), bs);
      && StrOf(m, 1) == Some(path)
      && (onMgr ==> StrOf(m, 2) == Some(Ascii("org.freedesktop.login1.Manager")))
      && (!onMgr ==> StrOf(m, 2) == Some(Ascii("org.freedesktop.login1.Session")))
      && StrOf(m, 3) == Some(member)
      && StrOf(m, 6) == Some(Ascii("org.freedesktop.login1"))
  {
    hide Message, Ascii, ReadBack, ReadsAll, StrOf, BodyCursor, Total;
    var fs := CallFields(path, member, onMgr);
    var m := Message(1, 0, serial, fs, bs);
    EncodedReadsBack(1, 0, serial, fs, bs);
    StrHere(m, fs, 0);
    StrHere(m, fs, 1);
    StrHere(m, fs, 2);
    StrHere(m, fs, 3);
  }

  // The flag stored for the caller: the body's, and 0 when that is malformed.
  function Inactive(m: seq<Byte>): (v: int)
    requires |m| >= HDR_SIZE
  {
    if HbBody(m).1 < 0 then 0 else HbBody(m).1
  }

  // The last device check made.
  ghost predicate Asked(asked: seq<Check>, c: Check) {
    asked != [] && asked[|asked| - 1] == c
  }

  // What becomes of the descriptor at `idx` of the queue `q`, if there is one: it is checked, and kept
  // if it passed.
  ghost predicate Picked(q: seq<Arrival>, ok: bool, idx: int, major: int, minor: int, asked: seq<Check>, fd: int) {
    if ok && 0 <= idx < |q| then
      fd in {-1, q[idx].fd as int} && Asked(asked, Check(q[idx].fd, major, minor, fd != -1))
    else fd == -1
  }

  // The message of the head of `f` says, consistently, which of its descriptors is the device.
  ghost predicate Fits(f: Frame, m: seq<Byte>)
    requires |m| >= HDR_SIZE
  {
    && TakeReplyOk(m, Ascii("hb"), |f.led.head|, f.bad)
    && 0 <= HbBody(m).0 < |f.led.head| && HbBody(m).0 < FDQ_CAP
  }

  // The reply of `n` bytes at the head of `f` was consumed. It succeeds exactly when the reply is a
  // consistent one and the descriptor it names passes the device check, made on that descriptor; then
  // that is the one handed out. On refusal none is, and -1 is stored.
  ghost predicate Took(f: Frame, g: Frame, n: nat, major: int, minor: int, asked: seq<Check>, r: int, out: Outs)
    requires f.pos + n <= |f.stream|
  {
    var m := Head(f, n).bytes;
    && |m| >= HDR_SIZE
    && r in {0, -9}
    && g.pos == f.pos + n && g.stream == f.stream && g.came == f.came && g.eof == f.eof
    && g.skip == 0 && g.start == f.start
    && g.consumed == f.consumed + [Head(f, n)]
    && g.led.head == [] && g.led.queued == [] && g.led.claimed == [] && g.led.whole == f.led.whole
    && out.active == Inactive(m)
    && (if Fits(f, m) then
          && Asked(asked, Check(f.led.head[HbBody(m).0].fd, major, minor, r == 0))
          && (r == 0 ==> out.fd == f.led.head[HbBody(m).0].fd)
        else r != 0)
    && (r != 0 ==> out.fd == -1)
  }

  // The descriptors of the message of `n` bytes at the head of `f`, as the peer attached them: `cs` is what
  // became of each pin on its bytes; those that got here are the ones counted, in order, and the set is
  // marked incomplete exactly when the kernel dropped one.
  ghost predicate OwnPins(f: Frame, n: nat, pins: seq<Pin>, cs: seq<Came>) {
    && Fates(cs, PinsIn(pins, f.pos, f.pos + n))
    && f.led.head == Arrivals(cs)
    && (f.bad <==> exists c :: c in cs && c.fate.Gone?)
  }

  // The descriptor handed out is the one the body's index names among those attached to the message's own
  // bytes, as many as the message declares. Unless one was lost moving off a stdio number, it is the
  // pin of that index, under its own number or, for a stdio one, a higher one.
  ghost predicate TookPin(f: Frame, n: nat, pins: seq<Pin>, out: Outs)
    requires f.pos + n <= |f.stream|
  {
    var m := Head(f, n).bytes;
    && |m| >= HDR_SIZE
    && exists cs :: OwnPins(f, n, pins, cs) && Indexed(cs, HbBody(m).0, DeclaredFds(m), out.fd)
  }

  ghost predicate Indexed(cs: seq<Came>, i: int, declared: nat, fd: int) {
    && (forall c | c in cs :: !c.fate.Gone?)
    && declared == |Arrivals(cs)| && 0 <= i < declared
    && fd == Arrivals(cs)[i].fd
    && ((forall c | c in cs :: c.fate.Has?) ==>
          declared == |cs| && if cs[i].pin.fd > 2 then fd == cs[i].pin.fd else fd >= 3)
  }

  lemma OwnedPins(f: Frame, n: nat, pins: seq<Pin>, from: nat, taken: nat)
    requires Inv(f) && n > 0 && HeadIs(f, n) && f.led.whole && from <= f.pos
    requires taken == |f.stream| && Tracked(f.came, pins, from, taken)
    ensures OwnPins(f, n, pins, CameFrom(f.came, f.pos))
  {
    hide Inv, HeadIs, Fates, PinsIn, Arrivals, CameFrom;
    HeadPins(f, n, pins, from);
  }

  lemma TakenPin(f: Frame, g: Frame, n: nat, major: int, minor: int, asked: seq<Check>, out: Outs,
                  pins: seq<Pin>)
    requires f.pos + n <= |f.stream| && Took(f, g, n, major, minor, asked, 0, out)
    requires OwnPins(f, n, pins, CameFrom(f.came, f.pos))
    ensures TookPin(f, n, pins, out)
  {
    hide Inv, TakeReplyOk, HbBody, DeclaredFds, Tracked, PinsIn, Arrivals, CameFrom;
    var cs := CameFrom(f.came, f.pos);
    var m := Head(f, n).bytes;
    TakeReplyMeans(m, Ascii("hb"), |f.led.head|, f.bad);
    if forall c | c in cs :: c.fate.Has? {
      AllArrive(cs);
    }
    assert Indexed(cs, HbBody(m).0, DeclaredFds(m), out.fd);
  }

  lemma TakeReplyMeans(m: seq<Byte>, hb: seq<Byte>, arrived: nat, lost: bool)
    requires |m| >= HDR_SIZE && TakeReplyOk(m, hb, arrived, lost)
    ensures DeclaredFds(m) == arrived && !lost
  {
  }

  lemma {:induction false} AllArrive(cs: seq<Came>)
    requires forall c | c in cs :: c.fate.Has?
    ensures |Arrivals(cs)| == |cs|
    ensures forall i | 0 <= i < |cs| :: Arrivals(cs)[i] == Arrival(cs[i].pin.at, cs[i].fate.n)
    decreases |cs|
  {
    if cs != [] {
      var k := |cs| - 1;
      assert cs[k] in cs;
      AllArrive(cs[..k]);
    }
  }

  lemma ReadsWhole(f: Frame, g: Frame, passed: seq<Item>)
    requires Reads(f, g, passed)
    ensures g.led.whole == f.led.whole && f.came <= g.came
  {
  }

  // The message of `n` bytes at the head of `f` was consumed, and we took the name in it, if there is one.
  ghost predicate Named(f: Frame, g: Frame, n: nat, was: seq<Byte>, r: int, now: seq<Byte>)
    requires f.pos + n <= |f.stream|
  {
    && g.stream == f.stream && g.pos == f.pos + n && g.consumed == f.consumed + [Head(f, n)]
    && r in {0, -71, -22}
    && if r == 0 then HelloNames(Head(f, n).bytes, now) else now == was && forall x :: !HelloNames(Head(f, n).bytes, x)
  }

  // The message is a Hello reply giving this name: an `s` body, ':' and at least one more byte, no NUL.
  ghost predicate HelloNames(m: seq<Byte>, name: seq<Byte>) {
    && HDR_SIZE <= |m|
    && SigTextOf(m, F_SIGNATURE) == Some(Ascii("s"))
    && var (k, ptr, _) := ReadStr(m, BodyCursor(m, |m|));
    && k >= 0 && name == m[ptr..ptr + k]
    && 2 <= |name| <= 255 && name[0] == 58 && NoNul(name)
  }

  // An encoded Hello reply gives a name exactly when it is an `s` and its text is one: a colon and at least one
  // byte more, at most 255 in all, none of them NUL.
  lemma EncodedName(kind: int, flags: int, sn: int, fs: seq<FieldVal>, text: seq<Byte>, name: seq<Byte>)
    requires Encodable(kind, flags, sn, fs, [StrVal(text)])
    ensures HelloNames(Message(kind, flags, sn, fs, [StrVal(text)]), name)
        <==> && SigField(8, ['s' as int]) in fs && name == text
             && 2 <= |text| <= 255 && text[0] == ':' as int && (forall i | 0 <= i < |text| :: text[i] != 0)
  {
    hide Message, ReadBack, BodyCursor, ReadStr, ReadsAll, SigTextOf, Total, WellTyped;
    var m := Message(kind, flags, sn, fs, [StrVal(text)]);
    EncodedReadsBack(kind, flags, sn, fs, [StrVal(text)]);
    EncodedString(kind, flags, sn, fs, text);
    SigFound(m, fs);
    assert Ascii("s") == ['s' as int];
  }

  lemma EncodedInactive(kind: int, flags: int, sn: int, fs: seq<FieldVal>, index: U32, inactive: bool)
    requires Encodable(kind, flags, sn, fs, [U32Val(index), BoolVal(inactive)])
    ensures |Message(kind, flags, sn, fs, [U32Val(index), BoolVal(inactive)])| >= 16
    ensures Inactive(Message(kind, flags, sn, fs, [U32Val(index), BoolVal(inactive)])) == if inactive then 1 else 0
  {
    hide Message, HbBody;
    EncodedHb(kind, flags, sn, fs, index, inactive);
  }

  lemma CloseKeeps(f: Frame)
    requires Inv(f) && Amortised(f)
    ensures var g := FdsClosed(f);
      && Amortised(g) && g.stream == f.stream && g.came == f.came
      && g.led.queued == [] && g.led.head == [] && g.led.claimed == []
  {
    hide Parsed, Queues, Placed, Stop;
    CloseInv(f);
  }

  lemma AdvanceGone(f: Frame, n: nat)
    requires Inv(f) && Amortised(f) && HeadIs(f, n) && n > 0
    ensures f.pos + n <= |f.stream|
    ensures var g := Advanced(f, n);
      && Amortised(g) && g.stream == f.stream && g.came == f.came && g.pos == f.pos + n
      && g.consumed == f.consumed + [Head(f, n)]
      && g.led.head == [] && g.led.queued == [] && g.led.claimed == [] && g.led.whole == f.led.whole
  {
    hide Parsed, Queues, Placed, Stop;
    AdvanceInv(f, n);
  }

  lemma HeadInside(f: Frame, n: nat)
    requires Inv(f) && HeadIs(f, n)
    ensures f.skip == 0 && HDR_SIZE <= n && f.pos + n <= |f.stream|
  {
  }

  // With nothing claimed yet, queue slot `i` is the head message's descriptor `i`.
  lemma FirstEight(f: Frame, i: int)
    requires Inv(f) && f.led.claimed == []
    ensures f.led.queued == First8(f.led.head)
    ensures 0 <= i < |f.led.queued| <==> 0 <= i < |f.led.head| && i < FDQ_CAP
    ensures 0 <= i < |f.led.queued| ==> f.led.queued[i] == f.led.head[i]
  {
  }

  lemma ClaimKeeps(f: Frame, i: int)
    requires Inv(f) && Amortised(f)
    ensures var g := Claimed1(f, i);
      && Amortised(g) && g == f.(led := g.led)
      && g.led.head == f.led.head && g.led.whole == f.led.whole && g.led.past == f.led.past
  {
    hide Parsed, Queues, Placed, Stop;
    ClaimInv(f, i);
  }

  // Consuming the reply, whether or not a descriptor of it was claimed first.
  lemma TookIt(f: Frame, c: Frame, n: nat, ok: bool, out: Outs, body: (int, int),
               major: int, minor: int, asked: seq<Check>)
    requires Inv(c) && Amortised(c) && HeadIs(f, n) && n > 0 && c == f.(led := c.led)
    requires c.led.whole == f.led.whole
    requires f.pos + n <= |f.stream| && HDR_SIZE <= n
    requires var m := Head(f, n).bytes;
      && (ok <==> TakeReplyOk(m, Ascii("hb"), |f.led.head|, f.bad))
      && (ok ==> body == HbBody(m)) && out.active == Inactive(m)
    requires f.led.queued == First8(f.led.head) && Picked(f.led.queued, ok, body.0, major, minor, asked, out.fd)
    ensures HeadIs(c, n) && c.pos + n <= |c.stream|
    ensures var g := Advanced(c, n);
      && Amortised(g) && g.stream == f.stream && g.came == f.came && g.led.claimed == []
      && Took(f, g, n, major, minor, asked, if out.fd < 0 then EBADF else 0, out)
  {
    hide Parsed, Queues, Placed, Stop, TakeReplyOk, HbBody, Ascii;
    AdvanceInv(c, n);
  }

  // The SASL reader after the lines of the stream so far, none of which decided.
  ghost predicate SaslAt(f: Frame, sawOk: bool) {
    && Decide(f.stream, false).code == AUTH_NEED_MORE
    && Decide(f.stream, false).sawOk == sawOk
    && Decide(f.stream, false).used == f.pos
    && f == Eaten(Committed(INIT, f.stream), f.pos)
  }

  // The exchange has ended with the decision the server's bytes make, or without one; nothing past
  // what decided it has been read.
  ghost predicate SaslEnds(f: Frame, r: int, decided: bool) {
    var d := Decide(f.stream, false);
    && (decided <==> d.code != AUTH_NEED_MORE)
    && (decided ==> r == if d.code == AUTH_OK then 0 else -13)
    && (!decided ==> r < 0)
    && d.used <= |f.stream|
    && f == Eaten(Committed(INIT, f.stream), d.used)
  }

  // On success the binary stream begins just past the line that decided, with nothing yielded yet.
  lemma SaslSuccess(f: Frame, r: int, decided: bool)
    requires SaslEnds(f, r, decided) && r == 0
    ensures f.pos == f.start == Decide(f.stream, false).used && f.consumed == [] && f.led == EMPTY
    ensures exists n: nat ::
              && Settles(Lines(f.stream), n, false, Decide(f.stream, false)) && KindOf(Lines(f.stream)[n]) == Agree
              && exists k :: 0 <= k < n && KindOf(Lines(f.stream)[k]) == Okay
  {
    hide KindOf;
    DecideMeaning(f.stream, false);
    DecideUses(f.stream, false);
  }

  // More bytes, and the lines they complete: the decision is that on the whole stream.
  lemma SaslMore(f: Frame, data: seq<Byte>, sawOk: bool)
    requires SaslAt(f, sawOk)
    ensures var g := Committed(f, data);
      && g.stream == f.stream + data && g.skip == 0 && g.led == EMPTY && g.came == [] && g.pos <= |g.stream|
      && var part, d := Decide(g.stream[g.pos..], sawOk), Decide(g.stream, false);
      var h := Eaten(g, part.used);
      && part.code == d.code && part.sawOk == d.sawOk
      && h == Eaten(Committed(INIT, g.stream), d.used) && h.stream == g.stream && h.led == EMPTY && h.came == []
      && (d.code == AUTH_NEED_MORE ==> SaslAt(h, d.sawOk))
  {
    hide Decide;
    var s, used := f.stream, f.pos;
    DecideResumes(s, data, false);
    DecideUses(s + data, false);
    assert (s + data)[used..] == s[used..] + data;
    EatenTwice(Committed(INIT, s + data), used, Decide(s[used..] + data, sawOk).used);
  }

  // The reader after some more of the server's bytes: still undecided, or decided.
  lemma SaslNow(f: Frame)
    requires f == Eaten(Committed(INIT, f.stream), Decide(f.stream, false).used)
    ensures Amortised(f) && f.led == EMPTY
    ensures var code := Decide(f.stream, false).code;
      if code == AUTH_NEED_MORE then forall r | r < 0 :: SaslEnds(f, r, false)
      else SaslEnds(f, if code == AUTH_OK then 0 else EACCES, true)
  {
    hide Decide;
  }

  lemma SaslStill(f: Frame, sawOk: bool)
    requires SaslAt(f, sawOk)
    ensures Amortised(f) && f.led == EMPTY
    ensures forall r | r < 0 :: SaslEnds(f, r, false)
  {
    hide Decide;
  }

  lemma SaslNone(f: Frame, sawOk: bool)
    requires SaslAt(f, sawOk)
    ensures f.came == [] && f.led == EMPTY
    ensures var d := Decide(f.stream, false);
      d.code == AUTH_NEED_MORE && f == Eaten(Committed(INIT, f.stream), d.used)
  {
    hide Decide;
  }

  lemma TrackedFrom(came: seq<Came>, pins: seq<Pin>, a: nat, b: nat)
    requires Tracked(came, pins, a, b)
    ensures a <= b
  {
  }

  lemma TrackedNone(pins: seq<Pin>, a: nat)
    ensures Tracked([], pins, a, a)
  {
    NothingCame(pins, a);
  }

  lemma SaslStart()
    ensures SaslAt(INIT, false)
  {
  }

  // The errnos sd-bus takes for a disconnect, of a send, a poll or a receive.
  predicate IsDisconnect(e: int) {
    e in {-103, -111, -104, -112, -113, -100, -102, -101, -64, -92, -107, -32, -71, -108, -110}
  }

  lemma ReadsNone(f: Frame)
    ensures Reads(f, f, [])
  {
  }

  lemma ReadsClaimed(f: Frame, g: Frame, passed: seq<Item>)
    requires Reads(f, g, passed) && f.led.claimed == []
    ensures g.led.claimed == []
  {
  }

  lemma ReadsTrans(f: Frame, g: Frame, h: Frame, a: seq<Item>, b: seq<Item>)
    requires Reads(f, g, a) && Reads(g, h, b)
    ensures Reads(f, h, a + b)
  {
  }

  lemma ReceivedReads(f: Frame, g: Frame, got: int, data: seq<Byte>, ps: seq<Pin>)
    requires Received(f, g, got, data, ps)
    ensures Reads(f, g, [])
    ensures got < 0 ==> NextCode(g) == NextCode(f) && g.stream == f.stream
  {
    hide Answer, Received;
    ReceivedMeans(f, g, got, data, ps);
    assert got <= 0 ==> f.stream + data == f.stream;
  }

  lemma NothingCodes(g: Frame)
    requires Inv(g) && NextCode(g) <= 0 && AfterNext(g) == g
    ensures NextCode(g) in {NEED_MORE, EOF, TRUNCATED, BAD_ENDIAN, BAD_PROTO, TOO_LONG}
    ensures NextCode(g) == NEED_MORE ==> Hungry(g)
  {
    hide Parsed, Queues, Placed, Answer, Stop;
    AnswerCodes(g.stream, g.Resume(), g.eof);
  }

  // Reading on: bytes arrive, `passed` are taken off the front, and nothing else about the stream,
  // where it begins or what has been handed out changes.
  ghost predicate Reads(f: Frame, g: Frame, passed: seq<Item>) {
    && f.stream <= g.stream && f.came <= g.came
    && g.consumed == f.consumed + passed
    && g.start == f.start
    && g.led.whole == f.led.whole
    && (f.led.claimed == [] ==> g.led.claimed == [])
  }

  lemma NextKeeps(f0: Frame, f: Frame, passed: seq<Item>)
    requires Inv(f) && Amortised(f) && (Reads(f0, f, passed) || (f0 == f && passed == []))
    ensures var g, n := AfterNext(f), NextCode(f);
      && Amortised(g) && Reads(f0, g, passed)
      && g.stream == f.stream && g.came == f.came && g.eof == f.eof
      && NextCode(g) == n && AfterNext(g) == g && f.pos <= g.pos <= |g.stream|
      && (n > 0 ==> HeadIs(g, n) && g.pos + n <= |g.stream|)
  {
    hide Parsed, Queues, Placed, Answer, Stop, TotalAt;
    NextAmortised(f);
    NextAgain(f);
    AnswerIsNextMessage(f.stream, f.Resume(), f.eof);
  }

  lemma AdvanceKeeps(f0: Frame, f: Frame, n: nat, passed: seq<Item>)
    requires Inv(f) && Amortised(f) && n > 0 && HeadIs(f, n) && Reads(f0, f, passed)
    ensures f.pos + n <= |f.stream|
    ensures var g := Advanced(f, n);
      && Amortised(g) && Reads(f0, g, passed + [Head(f, n)])
      && g.stream == f.stream && g.came == f.came && g.eof == f.eof && g.pos == f.pos + n
  {
    hide Parsed, Queues, Placed, Stop, TotalAt;
    AdvanceInv(f, n);
  }

  lemma AnswerIsValid(i: Item, serial: int, wm: nat, uniq: seq<Byte>)
    requires Answers(i, serial, wm, uniq)
    ensures ValidHeader(i.bytes)
  {
  }

  lemma NoneAnswersNone(serial: int, wm: nat, uniq: seq<Byte>)
    ensures NoneAnswer([], serial, wm, uniq)
  {
  }

  lemma NoneAnswersMore(ms: seq<Item>, i: Item, serial: int, wm: nat, uniq: seq<Byte>)
    requires NoneAnswer(ms, serial, wm, uniq) && !Answers(i, serial, wm, uniq)
    ensures NoneAnswer(ms + [i], serial, wm, uniq)
  {
    hide Answers;
  }

  // No errno of a peer that is gone, but the one they all become and the deadline's own.
  predicate Classified(r: int) {
    IsDisconnect(r) ==> r in {-104, -110}
  }

  // A call that sent its whole request ends without a reply, the framer's answer being `code`: everything
  // whole has been looked at, and a framer status has its own errno.
  predicate Unanswered(r: int, code: int, closed: bool) {
    && code <= 0 && r < 0
    && (if FaultErrno(code) < 0 then r == FaultErrno(code) else Classified(r))
    && (r == -104 || code in {EOF, TRUNCATED} ==> closed)
  }

  // How a call ended: with what, its result, how much of its request of `total` bytes was written, whether
  // the request could not be built, whether the connection was closed before, the framer's answer
  // before and after, and whether the connection is closed.
  datatype Ending = Ending(how: Found, r: int, done: nat, total: nat, bad: bool, wasClosed: bool,
                           before: int, after: int, closed: bool)

  // Nothing is sent when the request could not be built, on a closed connection, or when the stream has
  // ended or is unreadable; a request sent in part closes the connection; and a call that
  // sent it whole ends with the first answer, or with everything whole looked at.
  predicate CallEnds(e: Ending) {
    && e.done <= e.total
    && (match e.how
        case Nothing(_) => e.r < 0
        case Reply(_) => e.r == 0 && e.done == e.total && !e.bad
        case Error(rc) => e.r == rc < 0 && e.done == e.total && !e.bad)
    && (e.bad ==> e.r == -22 && e.done == 0)
    && (e.wasClosed ==> e.closed && e.how.Nothing? && e.done == 0 && (e.bad || e.r == -107))
    && (!e.bad && !e.wasClosed && FaultErrno(e.before) < 0 ==>
          e.how.Nothing? && e.r == FaultErrno(e.before) && e.done == 0)
    && (!e.bad && !e.wasClosed && e.how.Nothing? ==>
          && (e.r == -104 ==> e.closed)
          && (FaultErrno(e.before) < 0
              || if e.done < e.total then Classified(e.r) else Unanswered(e.r, e.after, e.closed)))
    && (0 < e.done < e.total ==> e.closed)
  }

  // What a pump that saw no message answers: the framer's status, a failed receive, a connection that is
  // closed, or nothing.
  function PumpErrno(code: int, err: int, closed: bool): (r: int) {
    if FaultErrno(code) < 0 then FaultErrno(code) else if err < 0 then err else if closed then ECONNRESET else 0
  }

  // These, by number: the errno of each framer status and of a pump, and the errnos that end a connection.
  lemma FaultErrnos(code: int)
    ensures FaultErrno(code) in {0, -71, -104, -105}
    ensures FaultErrno(code) == -104 <==> code in {-1001, -1002}
    ensures FaultErrno(code) == -71 <==> code in {-1003, -1004}
    ensures FaultErrno(code) == -105 <==> code == -1006
  {
  }

  lemma Disconnects(e: int)
    ensures IsDisconnect(e) <==>
              e in {-32, -64, -71, -92, -107, -108} || -104 <= e <= -100 || -113 <= e <= -110
  {
  }

  lemma PumpErrnos(code: int, err: int, closed: bool)
    requires err <= 0
    ensures PumpErrno(code, err, closed) == 0 <==>
              code !in {-1001, -1002, -1003, -1004, -1006} && err == 0 && !closed
    ensures code in {-1001, -1002} ==> PumpErrno(code, err, closed) == -104
    ensures code in {-1003, -1004} ==> PumpErrno(code, err, closed) == -71
    ensures code == -1006 ==> PumpErrno(code, err, closed) == -105
    ensures code == -1000 && err < 0 ==> PumpErrno(code, err, closed) == err
    ensures code == -1000 && err == 0 && closed ==> PumpErrno(code, err, closed) == -104
  {
  }

  // A call without a reply, by number: what was not sent at all, and what was sent and never answered.
  lemma EndingErrnos(e: Ending)
    requires CallEnds(e) && !e.bad && e.how.Nothing?
    ensures e.wasClosed ==> e.r == -107 && e.done == 0
    ensures !e.wasClosed && e.before in {-1001, -1002} ==> e.r == -104 && e.done == 0
    ensures !e.wasClosed && e.before in {-1003, -1004} ==> e.r == -71 && e.done == 0
    ensures !e.wasClosed && e.before == -1006 ==> e.r == -105 && e.done == 0
    ensures !e.wasClosed && FaultErrno(e.before) == 0 && e.done == e.total ==>
      && (e.after in {-1001, -1002} ==> e.r == -104 && e.closed)
      && (e.after in {-1003, -1004} ==> e.r == -71)
      && (e.after == -1006 ==> e.r == -105)
      && (e.after == -1000 ==> e.r !in {-32, -64, -71, -92, -107, -108} && !(-103 <= e.r <= -100))
  {
    FaultErrnos(e.before);
    FaultErrnos(e.after);
    Disconnects(e.r);
  }

  // How a pass over the buffered messages ends: none is left and the framer answers `code`; the reply
  // is at the head; or an error reply was taken off.
  datatype Found = Nothing(code: int) | Reply(n: nat) | Error(rc: int)

  lemma InvBounds(f: Frame)
    requires Inv(f)
    ensures f.abs0 <= f.pos <= |f.stream| <= f.abs0 + CAP
  {
  }

  // Making room moves at most the window.
  ghost predicate Roomy(f: Frame, g: Frame) {
    Amortised(g) && f.abs0 <= f.pos <= |f.stream| && (g == f || g == Compacted(f))
  }

  lemma RoomyMeans(f: Frame, g: Frame)
    requires Roomy(f, g)
    ensures Amortised(g) && SameHead(f, g) && g.stream == f.stream && g.led == f.led && g.came == f.came
    ensures g.eof == f.eof && g.bad == f.bad && g.pos == f.pos
  {
  }

  // What one receive does to the framer, after making room: nothing, end of file, or `data` and the
  // descriptors `ps` attached to it, each accounted for.
  ghost predicate Received(f: Frame, g: Frame, got: int, data: seq<Byte>, ps: seq<Pin>) {
    exists h, cs ::
      && Roomy(f, h) && Fates(cs, ps)
      && if got > 0 then |data| == got && g == Absorbed(h, data, cs)
         else data == [] && cs == [] && g == if got == 0 then h.(eof := true) else h
  }

  lemma ReceivedMeans(f: Frame, g: Frame, got: int, data: seq<Byte>, ps: seq<Pin>)
    requires Received(f, g, got, data, ps)
    ensures SameHead(f, g) && g.stream == f.stream + data && f.came <= g.came && |data| == if got > 0 then got else 0
    ensures Fates(g.came[|f.came|..], ps)
    ensures g.eof == (f.eof || got == 0)
    ensures got <= 0 ==> g.led == f.led && g.bad == f.bad && g.came == f.came
  {
    hide Fates, Roomy;
    var h, cs :| && Roomy(f, h) && Fates(cs, ps)
      && if got > 0 then |data| == got && g == Absorbed(h, data, cs)
         else data == [] && cs == [] && g == if got == 0 then h.(eof := true) else h;
    RoomyMeans(f, h);
    assert g.came == f.came + cs;
    assert g.came[|f.came|..] == cs;
  }

  // So the framer goes on accounting for every descriptor of the stream.
  lemma ReceivedTracks(f: Frame, g: Frame, got: int, data: seq<Byte>, pins: seq<Pin>, a: nat, b: nat, c: nat)
    requires Tracked(f.came, pins, a, b) && b <= c && InOrder(pins)
    requires f.came <= g.came && Fates(g.came[|f.came|..], PinsIn(pins, b, c))
    ensures Tracked(g.came, pins, a, c)
  {
    hide PinsIn, FateOk;
    PinsSplit(pins, a, b, c);
  }

  lemma ReceivedNothing(f: Frame, g: Frame, got: int)
    requires Roomy(f, g) && got <= 0
    ensures got < 0 ==> Received(f, g, got, [], [])
    ensures got == 0 ==> Received(f, g.(eof := true), 0, [], []) && Amortised(g.(eof := true))
  {
    hide Absorbed;
    assert Fates([], []);
  }

  lemma ReceivedBytes(f: Frame, g: Frame, data: seq<Byte>, cs: seq<Came>, ps: seq<Pin>)
    requires Roomy(f, g) && |data| > 0 && Fates(cs, ps)
    ensures Received(f, Absorbed(g, data, cs), |data|, data, ps)
    ensures Absorbed(g, data, cs).stream == f.stream + data
  {
  }

  lemma NoneNumbered()
    ensures multiset(Numbers([])) == multiset{}
  {
  }

  lemma NothingCame(pins: seq<Pin>, a: nat)
    ensures PinsIn(pins, a, a) == []
  {
    PinsBefore(pins, a, a);
  }

  // What has just arrived is outside the queue, and without it what is outside is as it was.
  lemma Arrived(live: multiset<int>, l: Ledger, more: multiset<int>)
    requires QueueOpen(live, l)
    ensures QueueOpen(live + more, l)
    ensures more <= Outside(live + more, l) && Outside(live + more, l) - more == Outside(live, l)
  {
    hide Outside, QueueOpen;
    ArriveOutside(live, l, more);
  }

  lemma WireStep(wire: seq<Byte>, a: nat, n: nat)
    requires a + n <= |wire|
    ensures wire[..a] + wire[a..a + n] == wire[..a + n] && |wire[..a]| == a
  {
  }

  lemma SameAmortised(f: Frame, g: Frame)
    requires Amortised(f) && g.stream == f.stream && g.pos == f.pos && g.skip == f.skip && g.abs0 == f.abs0
    requires g.moved == f.moved && g.movedTo == f.movedTo
    ensures Amortised(g)
  {
  }

  lemma HungryMeans(f: Frame)
    requires Hungry(f)
    ensures NextCode(f) == NEED_MORE && AfterNext(f) == f
  {
  }

  // Making room leaves the head message, its position and its descriptors as they are, and there is
  // some: the head message's unread bytes are fewer than the buffer holds.
  lemma PrepareKeeps(f: Frame)
    requires Inv(f) && Amortised(f) && Hungry(f)
    ensures f.abs0 <= f.pos <= |f.stream|
    ensures var g := Compacted(f);
      && Amortised(g) && SameHead(f, g)
      && g.stream == f.stream && g.led == f.led && g.eof == f.eof && g.pos - g.abs0 == 0
    ensures |f.stream| - f.pos < CAP
  {
    hide Parsed, Queues, Placed;
    HungryRoom(f);
    CompactInv(f);
  }

  lemma ArriveNone(f: Frame)
    ensures Arrive(f, []) == f && Fates([], [])
  {
  }

  lemma FatesOne(cs: seq<Came>, ps: seq<Pin>, i: nat, c: Came)
    requires i < |ps| && Fates(cs, ps[..i]) && c.pin == ps[i] && FateOk(c)
    ensures Fates(cs + [c], ps[..i + 1])
  {
    hide FateOk;
  }

  lemma FatesMore(cs: seq<Came>, ps: seq<Pin>, rest: seq<Pin>)
    requires Fates(cs, ps)
    ensures Fates(cs + Drops(rest), ps + rest)
  {
  }

  lemma Renumber(m: multiset<int>, fd: int, n: int)
    requires fd in m
    ensures n >= 0 ==> n in m - multiset{fd} + One(n)
    ensures m - multiset{fd} + One(n) - One(n) == m - multiset{fd}
  {
  }
}
