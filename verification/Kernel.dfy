// The environment: the process's descriptors, and one connected socket whose every result is
// arbitrary. A run of the backend is a run against some tapes of results; a tape that has run out
// answers with an ordinary failure, so every finite run of the source is the run of some tapes.
module Kernel {
  import opened Bytes

  const EINTR := -4
  const EAGAIN := -11
  const EPIPE := -32

  // A descriptor the peer attached to the byte at stream position `at`, and the number the kernel
  // gives it on arrival.
  datatype Pin = Pin(at: nat, fd: nat)

  // The pins among `ps` attached to a byte in [a, b), in order.
  function PinsIn(ps: seq<Pin>, a: nat, b: nat): (r: seq<Pin>)
    ensures forall q | q in r :: q in ps && a <= q.at < b
  {
    if ps == [] then []
    else (if a <= ps[0].at < b then [ps[0]] else []) + PinsIn(ps[1..], a, b)
  }

  // The pins are listed in the order of the bytes they are attached to.
  predicate InOrder(ps: seq<Pin>) {
    forall i, j | 0 <= i < j < |ps| :: ps[i].at <= ps[j].at
  }

  // The pins of `ps` from position `lo` on.
  function PinsFrom(ps: seq<Pin>, lo: nat): (r: seq<Pin>)
    decreases |ps|
  {
    if ps == [] then []
    else
      var k := |ps| - 1;
      PinsFrom(ps[..k], lo) + if lo <= ps[k].at then [ps[k]] else []
  }

  lemma {:induction false} PinsFromCons(p: Pin, ps: seq<Pin>, lo: nat)
    ensures PinsFrom([p] + ps, lo) == (if lo <= p.at then [p] else []) + PinsFrom(ps, lo)
    decreases |ps|
  {
    if ps != [] {
      var k := |ps| - 1;
      assert ([p] + ps)[..k + 1] == [p] + ps[..k];
      PinsFromCons(p, ps[..k], lo);
    }
  }

  // Of the pins in [a, b), those from `lo` on, when none is at or past `hi`, are the pins in [lo, hi).
  lemma {:induction false} PinsBetween(ps: seq<Pin>, a: nat, b: nat, lo: nat, hi: nat)
    requires forall p | p in PinsIn(ps, a, b) :: p.at < hi || p.at < lo
    requires lo <= hi <= b
    ensures PinsFrom(PinsIn(ps, a, b), lo) == PinsIn(ps, if a <= lo then lo else a, hi)
  {
    hide PinsIn;
    var from := if a <= lo then lo else a;
    PinsStep(ps, a, b);
    PinsStep(ps, from, hi);
    if ps != [] {
      var rest := PinsIn(ps[1..], a, b);
      if a <= ps[0].at < b {
        PinsFromCons(ps[0], rest, lo);
        assert PinsIn(ps, a, b)[0] == ps[0];
        assert forall p | p in rest :: p in [ps[0]] + rest;
      }
      PinsBetween(ps[1..], a, b, lo, hi);
    }
  }

  lemma PinsStep(ps: seq<Pin>, a: nat, b: nat)
    ensures ps == [] ==> PinsIn(ps, a, b) == []
    ensures ps != [] && a <= ps[0].at < b ==> PinsIn(ps, a, b) == [ps[0]] + PinsIn(ps[1..], a, b)
    ensures ps != [] && !(a <= ps[0].at < b) ==> PinsIn(ps, a, b) == PinsIn(ps[1..], a, b)
  {
    assert [] + PinsIn(ps, a, b) == PinsIn(ps, a, b);
  }

  // Two receives, one after the other, bring what one of both lengths would.
  lemma {:induction false} PinsSplit(ps: seq<Pin>, a: nat, b: nat, c: nat)
    requires InOrder(ps) && a <= b <= c
    ensures PinsIn(ps, a, c) == PinsIn(ps, a, b) + PinsIn(ps, b, c)
  {
    hide PinsIn;
    PinsStep(ps, a, b);
    PinsStep(ps, b, c);
    PinsStep(ps, a, c);
    if ps != [] {
      var rest := ps[1..];
      PinsSplit(rest, a, b, c);
      if a <= ps[0].at < b {
        assert [ps[0]] + (PinsIn(rest, a, b) + PinsIn(rest, b, c))
            == ([ps[0]] + PinsIn(rest, a, b)) + PinsIn(rest, b, c);
      } else if b <= ps[0].at < c {
        PinsBefore(rest, a, b);
      }
    }
  }

  lemma {:induction false} PinsBefore(ps: seq<Pin>, a: nat, b: nat)
    requires forall i | 0 <= i < |ps| :: !(a <= ps[i].at < b)
    ensures PinsIn(ps, a, b) == []
  {
    if ps != [] {
      PinsBefore(ps[1..], a, b);
    }
  }

  function Numbers(ps: seq<Pin>): (r: seq<int>)
    ensures |r| == |ps|
    ensures forall i | 0 <= i < |ps| :: r[i] == ps[i].fd
  {
    seq(|ps|, i requires 0 <= i < |ps| => ps[i].fd)
  }

  // Is this descriptor the device with these numbers?
  datatype Check = Check(fd: int, major: int, minor: int, ok: bool)

  // The descriptors received on the bus and not yet closed. Closing one that is not open here is
  // not expressible, so nothing is closed twice.
  class Descriptors {
    ghost var live: multiset<int>
    ghost var asked: seq<Check>   // the device checks made, and what each said
    var dups: seq<int>
    var checks: seq<bool>

    constructor (dups: seq<int>, checks: seq<bool>)
      ensures live == multiset{} && asked == [] && this.dups == dups && this.checks == checks
    {
      this.live, this.asked, this.dups, this.checks := multiset{}, [], dups, checks;
    }

    // F_GETFL and statx: is it a read-write character device with these numbers?
    method IsDevice(fd: int, major: int, minor: int) returns (ok: bool)
      modifies this`asked, this`checks
      ensures asked == old(asked) + [Check(fd, major, minor, ok)]
    {
      ok := |checks| > 0 && checks[0];
      checks := if |checks| > 0 then checks[1..] else checks;
      asked := asked + [Check(fd, major, minor, ok)];
    }

    method Close(fd: int)
      requires fd in live
      modifies this`live
      ensures live == old(live) - multiset{fd}
    {
      live := live - multiset{fd};
    }

    // fcntl(F_DUPFD_CLOEXEC, 3): a new descriptor at 3 or above, or an errno.
    method Dup() returns (n: int)
      modifies this
      ensures n < 0 || 3 <= n
      ensures live == old(live) + One(n)
    {
      if |dups| == 0 {
        return -24;
      }
      n := if 0 <= dups[0] < 3 then 3 else dups[0];
      dups := dups[1..];
      live := live + One(n);
    }

    // Never leave a descriptor on a stdio number: move it up, or lose it.
    method AboveStdio(fd: int) returns (n: int)
      requires fd in live
      modifies this
      ensures if fd > 2 then n == fd else n < 0 || n >= 3
      ensures live == old(live) - multiset{fd} + One(n)
    {
      if fd > 2 {
        return fd;
      }
      n := Dup();
      Close(fd);
    }
  }

  // One descriptor, or none for an errno.
  ghost function One(n: int): (m: multiset<int>) {
    if n < 0 then multiset{} else multiset{n}
  }

  // What one receive does: `n` > 0 delivers up to `n` bytes, 0 is end of file, negative is an errno;
  // `keep` is how many descriptors the control buffer had room for.
  datatype Delivery = Delivery(n: int, keep: nat)

  class Socket {
    const fd: nat
    const table: Descriptors
    const wire: seq<Byte>      // everything the peer ever sends
    const pins: seq<Pin>       // and the descriptors it attaches
    var taken: nat             // how much of it has been received
    ghost var sent: seq<Byte>  // the bytes the kernel accepted from us, in order
    var recvs: seq<Delivery>
    var sends: seq<int>
    var polls: seq<int>
    var clocks: seq<int>
    ghost var open: bool

    ghost predicate Valid()
      reads this
    {
      taken <= |wire| && InOrder(pins)
    }

    constructor (fd: nat, table: Descriptors, wire: seq<Byte>, pins: seq<Pin>,
                 recvs: seq<Delivery>, sends: seq<int>, polls: seq<int>, clocks: seq<int>)
      requires InOrder(pins)
      ensures Valid() && taken == 0 && sent == [] && this.fd == fd && this.table == table
      ensures this.wire == wire && this.pins == pins && this.recvs == recvs && this.sends == sends
      ensures this.polls == polls && this.clocks == clocks && open
    {
      this.fd, this.table, this.wire, this.pins := fd, table, wire, pins;
      this.taken, this.sent := 0, [];
      this.recvs, this.sends, this.polls, this.clocks, open := recvs, sends, polls, clocks, true;
    }

    // recvmsg: the bytes [a, b) bring exactly the descriptors pinned in [a, b), unless the kernel
    // says it dropped some; end of file brings none.
    method Recv(want: nat) returns (n: int, data: seq<Byte>, got: seq<Pin>, truncated: bool)
      requires Valid() && want > 0
      modifies this`taken, this`recvs, table`live
      ensures Valid() && n <= want && |recvs| <= |old(recvs)| <= |recvs| + 1 && (n < 0 ==> |recvs| < |old(recvs)|)
      ensures n <= 0 ==> data == [] && got == [] && !truncated && taken == old(taken)
      ensures n > 0 ==> taken == old(taken) + n && data == wire[old(taken)..taken]
      ensures n > 0 ==> |got| <= |PinsIn(pins, old(taken), taken)|
                        && got == PinsIn(pins, old(taken), taken)[..|got|]
                        && (truncated <==> |got| < |PinsIn(pins, old(taken), taken)|)
      ensures table.live == old(table.live) + multiset(Numbers(got))
    {
      n, data, got, truncated := 0, [], [], false;
      if |recvs| > 0 {
        var d := recvs[0];
        recvs := recvs[1..];
        n := d.n;
        if n > 0 {
          n := if n < want then n else want;
          n := if n < |wire| - taken then n else |wire| - taken;
          if n == 0 {
            n := EAGAIN;
          } else {
            data := wire[taken..taken + n];
            var all := PinsIn(pins, taken, taken + n);
            var k := if d.keep < |all| then d.keep else |all|;
            got, truncated := all[..k], k < |all|;
            taken := taken + n;
            table.live := table.live + multiset(Numbers(got));
          }
        }
      }
    }

    method Close()
      modifies this`open
      ensures !open
    {
      open := false;
    }

    // sendto: accepts a non-empty prefix, or answers 0 or an errno.
    method Send(b: seq<Byte>) returns (n: int)
      requires |b| > 0
      modifies this`sent, this`sends
      ensures n <= |b|
      ensures sent == old(sent) + (if n > 0 then b[..n] else [])
      ensures n == EINTR || n == EAGAIN ==> |sends| < |old(sends)|
    {
      n := EPIPE;
      if |sends| > 0 {
        n := if sends[0] < |b| then sends[0] else |b|;
        sends := sends[1..];
      }
      sent := sent + if n > 0 then b[..n] else [];
    }

    // poll for `budget` milliseconds: ready, 0 when the time is up, or an errno.
    method Poll(budget: int) returns (r: int)
      requires budget > 0
      modifies this`polls
    {
      r := 0;
      if |polls| > 0 {
        r := polls[0];
        polls := polls[1..];
      }
    }

    // The monotonic clock in milliseconds, or an errno.
    method Now() returns (t: int)
      modifies this`clocks
      ensures t >= 0 ==> |clocks| < |old(clocks)|
    {
      t := -14;
      if |clocks| > 0 {
        t := clocks[0];
        clocks := clocks[1..];
      }
    }
  }
}
