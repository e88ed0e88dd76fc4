// The control-message walk of a receive: what a control buffer means as a list of messages, and the
// loop that collects the descriptors in it.
module Cmsg {
  import opened Bytes
  import opened Kernel
  import opened Attribution

  const HDR := 16
  const SOL_SOCKET := 1
  const SCM_RIGHTS := 1
  const SCM_PIDFD := 4
  const FD_MAX := 253

  // A 64-bit word as a signed number; the header's length is one.
  function Le64(s: seq<Byte>, o: nat): (r: int)
    requires o + 8 <= |s|
  {
    var w := Le32(s, o) + 0x1_0000_0000 * Le32(s, o + 4);
    if w >= 0x8000_0000_0000_0000 then w - 0x1_0000_0000_0000_0000 else w
  }

  // A 32-bit word as a signed number; a descriptor is one.
  function Int32(s: seq<Byte>, o: nat): (r: int)
    requires o + 4 <= |s|
    ensures -0x8000_0000 <= r < 0x8000_0000
  {
    var w := Le32(s, o);
    if w >= 0x8000_0000 then w - 0x1_0000_0000 else w
  }

  // ---- control messages ----

  datatype Message = Message(level: U32, kind: U32, data: seq<Byte>)

  // The signed 32-bit words of `s`; a tail of fewer than four bytes is not one.
  function Words(s: seq<Byte>): (ws: seq<int>) {
    if |s| < 4 then [] else [Int32(s, 0)] + Words(s[4..])
  }

  // The messages of a control buffer: each starts 8-aligned after the one before, and one that claims
  // less than its header, or more than there is, ends the list.
  function Messages(c: seq<Byte>): (ms: seq<Message>)
    decreases |c|
  {
    if |c| < HDR then []
    else
      var n := Le64(c, 0);
      if n < HDR || n > |c| then []
      else
        var m := Message(Le32(c, 8), Le32(c, 12), c[HDR..n]);
        [m] + if Align(n, 8) >= |c| then [] else Messages(c[Align(n, 8)..])
  }

  function NonNegative(ws: seq<int>): (fds: seq<int>)
    ensures forall f | f in fds :: f >= 0
  {
    if ws == [] then [] else (if ws[0] >= 0 then [ws[0]] else []) + NonNegative(ws[1..])
  }

  // The descriptors a message carries under one kind; none under any other.
  function Carried(m: Message, kind: int): (fds: seq<int>)
    ensures forall f | f in fds :: f >= 0
  {
    if m.level == SOL_SOCKET && m.kind == kind then NonNegative(Words(m.data)) else []
  }

  function AllCarried(ms: seq<Message>, kind: int): (fds: seq<int>)
    ensures forall f | f in fds :: f >= 0
  {
    if ms == [] then [] else Carried(ms[0], kind) + AllCarried(ms[1..], kind)
  }

  // The first 253 are kept.
  function Kept(fds: seq<int>): (r: seq<int>) {
    if |fds| <= FD_MAX then fds else fds[..FD_MAX]
  }

  // ---- the walk against the layout a sender uses ----

  function Le64Bytes(v: int): (s: seq<Byte>)
    ensures |s| == 8
  {
    Le32Bytes(v) + Le32Bytes(v / 0x1_0000_0000)
  }

  function Zeros(n: nat): (s: seq<Byte>)
    ensures |s| == n
  {
    seq(n, _ => 0)
  }

  function Block(m: Message): (s: seq<Byte>)
    ensures |s| == HDR + |m.data|
  {
    Le64Bytes(HDR + |m.data|) + Le32Bytes(m.level) + Le32Bytes(m.kind) + m.data
  }

  // The messages laid out one after another, each but the last padded to 8 bytes.
  function Layout(ms: seq<Message>): (s: seq<Byte>) {
    if ms == [] then []
    else if |ms| == 1 then Block(ms[0])
    else
      var b := Block(ms[0]);
      b + Zeros(Align(|b|, 8) - |b|) + Layout(ms[1..])
  }

  lemma BlockHeader(m: Message, c: seq<Byte>)
    requires |m.data| < 0x1000_0000 && Block(m) <= c
    ensures |c| >= HDR
    ensures Le64(c, 0) == HDR + |m.data| && Le32(c, 8) == m.level && Le32(c, 12) == m.kind
    ensures c[HDR..HDR + |m.data|] == m.data
  {
    hide Le32, Le32Bytes;
    var b, n := Block(m), HDR + |m.data|;
    assert c[..|b|] == b;
    assert c[0..4] == b[0..4] == Le32Bytes(n);
    assert c[4..8] == b[4..8] == Le32Bytes(n / 0x1_0000_0000);
    assert c[8..12] == b[8..12] == Le32Bytes(m.level);
    assert c[12..16] == b[12..16] == Le32Bytes(m.kind);
    assert c[HDR..n] == b[HDR..n] == m.data;
    Le32RoundTrip(n, c, 0);
    Le32RoundTrip(n / 0x1_0000_0000, c, 4);
    Le32RoundTrip(m.level, c, 8);
    Le32RoundTrip(m.kind, c, 12);
  }

  // The walk inverts the layout, with or without padding after the last message.
  lemma {:induction false} MessagesOfLayout(ms: seq<Message>, pad: nat)
    requires forall m | m in ms :: |m.data| < 0x1000_0000
    requires ms == [] || pad <= Align(|Block(ms[|ms| - 1])|, 8) - |Block(ms[|ms| - 1])|
    requires ms == [] ==> pad < HDR
    ensures Messages(Layout(ms) + Zeros(pad)) == ms
    decreases |ms|
  {
    hide Le32, Le32Bytes, Align, Le64, Block;
    var c := Layout(ms) + Zeros(pad);
    if ms != [] {
      var m, b := ms[0], Block(ms[0]);
      var n := |b|;
      assert m in ms;
      BlockHeader(m, c);
      if |ms| == 1 {
        assert ms == [m];
        assert |c| <= Align(n, 8);
      } else {
        assert c == (b + Zeros(Align(n, 8) - n)) + (Layout(ms[1..]) + Zeros(pad));
        assert c[Align(n, 8)..] == Layout(ms[1..]) + Zeros(pad);
        LayoutNonEmpty(ms[1..]);
        MessagesOfLayout(ms[1..], pad);
        assert ms == [m] + ms[1..];
      }
    }
  }

  lemma LayoutNonEmpty(ms: seq<Message>)
    requires ms != []
    ensures |Layout(ms)| >= HDR
  {
    hide Le64Bytes, Align;
  }

  // ---- descriptors in a message ----

  // Descriptors as a sender lays them out: four bytes each, least significant first.
  function Packed(fds: seq<int>): (s: seq<Byte>)
    ensures |s| == 4 * |fds|
  {
    if fds == [] then [] else Le32Bytes(fds[0]) + Packed(fds[1..])
  }

  predicate Fits(fds: seq<int>) {
    forall i | 0 <= i < |fds| :: -0x8000_0000 <= fds[i] < 0x8000_0000
  }

  lemma {:induction false} WordsOfPacked(fds: seq<int>)
    requires Fits(fds)
    ensures Words(Packed(fds)) == fds
    decreases |fds|
  {
    if fds != [] {
      hide Le32Bytes, Int32;
      var s := Packed(fds);
      assert s[0..4] == Le32Bytes(fds[0]);
      Int32RoundTrip(fds[0], s);
      WordsOfPacked(fds[1..]);
      assert s[4..] == Packed(fds[1..]);
      assert fds == [fds[0]] + fds[1..];
    }
  }

  lemma Int32RoundTrip(v: int, s: seq<Byte>)
    requires |s| >= 4 && s[0..4] == Le32Bytes(v) && -0x8000_0000 <= v < 0x8000_0000
    ensures Int32(s, 0) == v
  {
    hide Le32, Le32Bytes;
    Le32RoundTrip(v, s, 0);
  }

  // One descriptor, byte for byte: the length of twenty in eight bytes, the level, the kind and the descriptor.
  lemma BlockBytes(kind: Byte, fd: Byte)
    ensures Block(Message(1, kind, Packed([fd])))
         == [20, 0, 0, 0, 0, 0, 0, 0, 1, 0, 0, 0, kind, 0, 0, 0, fd, 0, 0, 0]
  {
    hide Le32Bytes;
    ByteOrder(20);
    ByteOrder(0);
    ByteOrder(1);
    ByteOrder(kind);
    ByteOrder(fd);
    assert [fd as int][1..] == [];
    assert Packed([fd]) == [fd, 0, 0, 0] + Packed([]);
  }

  lemma {:induction false} NonNegativeMore(a: seq<int>, b: seq<int>)
    ensures NonNegative(a + b) == NonNegative(a) + NonNegative(b)
    decreases |a|
  {
    if a == [] {
      assert a + b == b;
    } else {
      NonNegativeMore(a[1..], b);
      assert a + b == [a[0]] + (a[1..] + b);
      var first := if a[0] >= 0 then [a[0]] else [];
      assert first + (NonNegative(a[1..]) + NonNegative(b)) == (first + NonNegative(a[1..])) + NonNegative(b);
    }
  }

  // Negative words are no descriptors, and all others are.
  lemma {:induction false} NonNegativeWords(a: seq<int>)
    ensures (forall i | 0 <= i < |a| :: a[i] >= 0) ==> NonNegative(a) == a
    ensures (forall i | 0 <= i < |a| :: a[i] < 0) ==> NonNegative(a) == []
    decreases |a|
  {
    if a != [] {
      NonNegativeWords(a[1..]);
      assert a == [a[0]] + a[1..];
    }
  }

  lemma {:induction false} AllCarriedMore(a: seq<Message>, b: seq<Message>, kind: int)
    ensures AllCarried(a + b, kind) == AllCarried(a, kind) + AllCarried(b, kind)
    decreases |a|
  {
    hide Carried;
    if a == [] {
      assert a + b == b;
    } else {
      AllCarriedMore(a[1..], b, kind);
      assert (a + b)[1..] == a[1..] + b;
    }
  }

  lemma {:induction false} NoneCarried(ms: seq<Message>, kind: int)
    requires forall m | m in ms :: !(m.level == 1 && m.kind == kind)
    ensures AllCarried(ms, kind) == []
    decreases |ms|
  {
    if ms != [] {
      assert ms[0] in ms;
      NoneCarried(ms[1..], kind);
    }
  }

  // Another message, of a size there is.
  predicate Other(m: Message, kind: int) {
    |m.data| < 0x1000_0000 && !(m.level == 1 && m.kind == kind)
  }

  // Among messages of other kinds, only this one carries descriptors of its kind.
  lemma CarriedAmong(pre: seq<Message>, m: Message, post: seq<Message>, kind: int)
    requires m.level == 1 && m.kind == kind
    requires (forall x | x in pre :: Other(x, kind)) && (forall x | x in post :: Other(x, kind))
    ensures AllCarried(pre + [m] + post, kind) == NonNegative(Words(m.data))
  {
    hide Words, NonNegative, AllCarried;
    AllCarriedMore(pre + [m], post, kind);
    AllCarriedMore(pre, [m], kind);
    NoneCarried(pre, kind);
    NoneCarried(post, kind);
    OneCarried(m, kind);
  }

  // The descriptors of a message of SOL_SOCKET, laid out among messages of other kinds, are what the control
  // buffer is found to carry under that kind: SCM_RIGHTS is 1 and SCM_PIDFD is 4.
  lemma DescriptorsDelivered(pre: seq<Message>, kind: U32, fds: seq<int>, post: seq<Message>)
    requires Fits(fds) && |fds| < 0x400_0000
    requires (forall m | m in pre :: Other(m, kind)) && (forall m | m in post :: Other(m, kind))
    ensures AllCarried(Messages(Layout(pre + [Message(1, kind, Packed(fds))] + post)), kind) == NonNegative(fds)
  {
    hide Messages, Layout, Words, Packed, Block, Align, NonNegative, AllCarried;
    var m := Message(1, kind, Packed(fds));
    LayoutRead(pre, m, post, kind);
    CarriedAmong(pre, m, post, kind);
    WordsOfPacked(fds);
  }

  lemma LayoutRead(pre: seq<Message>, m: Message, post: seq<Message>, kind: int)
    requires |m.data| < 0x1000_0000
    requires (forall x | x in pre :: Other(x, kind)) && (forall x | x in post :: Other(x, kind))
    ensures Messages(Layout(pre + [m] + post)) == pre + [m] + post
  {
    hide Messages, Layout, Block, Align;
    var ms := pre + [m] + post;
    forall x | x in ms
      ensures |x.data| < 0x1000_0000
    {
      assert x in pre || x == m || x in post;
    }
    MessagesOfLayout(ms, 0);
    assert Layout(ms) + Zeros(0) == Layout(ms);
  }

  lemma OneCarried(m: Message, kind: int)
    requires m.level == 1 && m.kind == kind
    ensures AllCarried([m], kind) == NonNegative(Words(m.data))
  {
    hide Words, NonNegative;
    assert [m][1..] == [];
    assert AllCarried([], kind) == [];
  }

  // No more than 253 are kept, and they are the first.
  lemma KeptFirst(fds: seq<int>)
    ensures |Kept(fds)| == (if |fds| <= 253 then |fds| else 253)
    ensures forall i | 0 <= i < |Kept(fds)| :: Kept(fds)[i] == fds[i]
  {
  }

  // ---- the receiver ----

  class Receiver {
    const table: Descriptors
    const rx: array<int>
    var rxn: nat
    ghost var got: seq<int>   // every SCM_RIGHTS descriptor of the last receive

    ghost predicate Valid()
      reads this, rx, table
    {
      && rx.Length == FD_MAX && rxn == |Kept(got)| && rx[..rxn] == Kept(got)
      && KeptOpen(table.live, got)
    }

    constructor (table: Descriptors)
      ensures Valid() && got == [] && this.table == table && fresh(rx)
    {
      this.table := table;
      rx := new int[FD_MAX];
      rxn, got := 0, [];
    }

    // One more descriptor: kept, or closed past the 253rd.
    method RxAdd(fd: int)
      requires Valid() && fd in Beyond(table.live, got)
      modifies this`rxn, this`got, rx, table`live
      ensures Valid() && got == old(got) + [fd]
      ensures Beyond(table.live, got) == old(Beyond(table.live, got)) - multiset{fd}
    {
      hide Kept, KeptOpen, Beyond;
      KeepOne(table.live, got, fd);
      got := got + [fd];
      if rxn >= FD_MAX {
        table.Close(fd);
        return;
      }
      rx[rxn] := fd;
      rxn := rxn + 1;
    }

    // A pidfd belongs to no message.
    method CloseStray(fd: int)
      requires Valid() && fd in Beyond(table.live, got)
      modifies table`live
      ensures Valid() && Beyond(table.live, got) == old(Beyond(table.live, got)) - multiset{fd}
    {
      hide Kept, KeptOpen, Beyond;
      KeepOne(table.live, got, fd);
      table.Close(fd);
    }

    // The words of one message's data: kept as descriptors, or closed if they are pidfds.
    method TakeWords(c: seq<Byte>, lo: nat, hi: nat, rights: int)
      requires Valid() && lo <= hi <= |c| && rights in {1, 2}
      requires multiset(WordFds(c, lo, hi)) <= Beyond(table.live, got)
      modifies this`rxn, this`got, rx, table`live
      ensures Valid()
      ensures got == old(got) + (if rights == 1 then WordFds(c, lo, hi) else [])
      ensures Beyond(table.live, got) == old(Beyond(table.live, got)) - multiset(WordFds(c, lo, hi))
    {
      hide Kept, Le32, WordFds, KeptOpen, Beyond, Int32;
      ghost var all := WordFds(c, lo, hi);
      ghost var base := Beyond(table.live, got) - multiset(all);
      ghost var target := got + (if rights == 1 then all else []);
      var off := lo;
      while off + 4 <= hi
        invariant lo <= off <= hi && Valid()
        invariant rights == 1 ==> got + WordFds(c, off, hi) == target
        invariant rights == 2 ==> got == target
        invariant Beyond(table.live, got) == base + multiset(WordFds(c, off, hi))
        modifies this`rxn, this`got, rx, table`live
      {
        WordFdsStep(c, off, hi, got, base);
        TakeWord(Int32(c, off), rights);
        off := off + 4;
      }
      WordFdsEnd(c, off, hi);
    }

    method TakeWord(x: int, rights: int)
      requires Valid() && rights in {1, 2} && (x >= 0 ==> x in Beyond(table.live, got))
      modifies this`rxn, this`got, rx, table`live
      ensures Valid()
      ensures got == if x >= 0 && rights == 1 then old(got) + [x] else old(got)
      ensures Beyond(table.live, got) == old(Beyond(table.live, got)) - (if x >= 0 then multiset{x} else multiset{})
    {
      hide Kept, KeptOpen, Beyond;
      if x >= 0 {
        if rights == 1 {
          RxAdd(x);
        } else {
          CloseStray(x);
        }
      }
    }

    // Collect every SCM_RIGHTS descriptor of a control buffer, in order; close SCM_PIDFD ones and
    // those past the 253rd; ignore everything else. Only the first `ctrllen` bytes are looked at.
    method ParseRights(ctrl: seq<Byte>, ctrllen: int) returns (r: int)
      requires rx.Length == FD_MAX && ctrllen <= |ctrl|
      requires var ms := Messages(Filled(ctrl, ctrllen));
        multiset(AllCarried(ms, 1)) + multiset(AllCarried(ms, 4)) <= table.live
      modifies this`rxn, this`got, rx, table`live
      ensures Valid() && r == rxn
      ensures var ms := Messages(Filled(ctrl, ctrllen));
        && rx[..rxn] == Kept(AllCarried(ms, 1))
        && Beyond(table.live, got)
           == old(table.live) - (multiset(AllCarried(ms, 1)) + multiset(AllCarried(ms, 4)))
    {
      hide AllCarried, Messages, WordFds, Le32, Le64, Align, KeptOpen, Beyond, From, Left;
      rxn, got := 0, [];
      NothingKept(table.live);
      var c := Filled(ctrl, ctrllen);
      FromStart(c);
      ghost var base := table.live - Left(c, 0);
      var at := 0;
      var more := true;
      while more
        invariant Valid()
        invariant got + From(c, at, SCM_RIGHTS) == From(c, 0, SCM_RIGHTS)
        invariant Beyond(table.live, got) == base + Left(c, at)
        invariant !more ==> From(c, at, SCM_RIGHTS) == [] && Left(c, at) == multiset{}
        decreases more, |c| - at
      {
        more, at := ParseOne(c, at, base);
      }
      assert got == From(c, 0, SCM_RIGHTS);
      return rxn;
    }

    // One control message, if there is a whole one at `at`.
    method ParseOne(c: seq<Byte>, at: nat, ghost base: multiset<int>) returns (more: bool, next: nat)
      requires Valid() && Beyond(table.live, got) == base + Left(c, at)
      modifies this`rxn, this`got, rx, table`live
      ensures Valid() && Beyond(table.live, got) == base + Left(c, next)
      ensures got + From(c, next, SCM_RIGHTS) == old(got) + From(c, at, SCM_RIGHTS)
      ensures more ==> next > at && at < |c|
      ensures !more ==> next == at && From(c, at, SCM_RIGHTS) == [] && Left(c, at) == multiset{}
    {
      hide WordFds, Le32, Align, KeptOpen, Beyond, From, Left, Kept;
      WalkStep(c, at);
      var room := |c| - at;
      if room < HDR {
        return false, at;
      }
      var clen := Le64(c, at);
      if clen < HDR || clen > room {
        return false, at;
      }
      StepCarries(c, at, got);
      var rights := RightsOf(Le32(c, at + 8), Le32(c, at + 12));
      if rights != 0 {
        TakeWords(c, at + HDR, at + clen, rights);
      }
      return true, at + Align(clen, 8);
    }
  }

  // The part of the buffer the kernel says it filled.
  function Filled(ctrl: seq<Byte>, ctrllen: int): (c: seq<Byte>)
    requires ctrllen <= |ctrl|
  {
    ctrl[..if ctrllen < 0 then 0 else ctrllen]
  }

  // 1: descriptors; 2: a pidfd; 0: neither.
  function RightsOf(level: int, kind: int): (r: int) {
    if level != SOL_SOCKET then 0
    else if kind == SCM_RIGHTS then 1
    else if kind == SCM_PIDFD then 2
    else 0
  }

  // What the messages from `at` on carry under a kind.
  ghost function From(c: seq<Byte>, at: nat, kind: int): (fds: seq<int>) {
    if at >= |c| then [] else AllCarried(Messages(c[at..]), kind)
  }

  ghost function Left(c: seq<Byte>, at: nat): (m: multiset<int>) {
    multiset(From(c, at, SCM_RIGHTS)) + multiset(From(c, at, SCM_PIDFD))
  }

  lemma FromStart(c: seq<Byte>)
    ensures From(c, 0, SCM_RIGHTS) == AllCarried(Messages(c), SCM_RIGHTS)
    ensures Left(c, 0) == multiset(AllCarried(Messages(c), SCM_RIGHTS)) + multiset(AllCarried(Messages(c), SCM_PIDFD))
  {
    assert c[0..] == c;
  }

  ghost predicate HasMessage(c: seq<Byte>, at: nat) {
    at + HDR <= |c| && HDR <= Le64(c, at) <= |c| - at
  }

  // One step of the walk, as the messages see it and as the loop does.
  lemma HeadMessage(c: seq<Byte>, at: nat)
    requires HasMessage(c, at)
    ensures var n := Le64(c, at);
      Messages(c[at..]) == [Message(Le32(c, at + 8), Le32(c, at + 12), c[at + HDR..at + n])]
                           + if at + Align(n, 8) >= |c| then [] else Messages(c[at + Align(n, 8)..])
  {
    hide Le32, Align;
    var s := c[at..];
    Le32Local(s, c, 0, at);
    Le32Local(s, c, 4, at);
    Le32Local(s, c, 8, at);
    Le32Local(s, c, 12, at);
    var n := Le64(c, at);
    assert Le64(s, 0) == n;
    assert s[HDR..n] == c[at + HDR..at + n];
    if at + Align(n, 8) < |c| {
      assert s[Align(n, 8)..] == c[at + Align(n, 8)..];
    }
  }

  lemma NoMessage(c: seq<Byte>, at: nat, kind: int)
    requires !HasMessage(c, at)
    ensures From(c, at, kind) == []
  {
    hide Le32, Align;
    if at + HDR <= |c| {
      var s := c[at..];
      Le32Local(s, c, 0, at);
      Le32Local(s, c, 4, at);
      assert Le64(s, 0) == Le64(c, at);
      assert Messages(s) == [];
    } else if at < |c| {
      assert Messages(c[at..]) == [];
    }
  }

  lemma KindStep(c: seq<Byte>, at: nat, kind: int)
    requires HasMessage(c, at)
    ensures var n := Le64(c, at);
      From(c, at, kind)
      == (if Le32(c, at + 8) == SOL_SOCKET && Le32(c, at + 12) == kind then WordFds(c, at + HDR, at + n) else [])
         + From(c, at + Align(n, 8), kind)
  {
    hide Le32, Align, Le64, Messages, NonNegative, Words;
    HeadMessage(c, at);
    var n := Le64(c, at);
    var m := Message(Le32(c, at + 8), Le32(c, at + 12), c[at + HDR..at + n]);
    var rest := if at + Align(n, 8) >= |c| then [] else Messages(c[at + Align(n, 8)..]);
    AllCarriedCons(m, rest, kind);
  }

  lemma WalkStep(c: seq<Byte>, at: nat)
    ensures !HasMessage(c, at) ==> From(c, at, SCM_RIGHTS) == [] && Left(c, at) == multiset{}
  {
    hide From, Le64;
    if !HasMessage(c, at) {
      NoMessage(c, at, SCM_RIGHTS);
      NoMessage(c, at, SCM_PIDFD);
    }
  }

  lemma AllCarriedCons(m: Message, ms: seq<Message>, kind: int)
    ensures AllCarried([m] + ms, kind) == Carried(m, kind) + AllCarried(ms, kind)
  {
    hide Carried;
    assert ([m] + ms)[1..] == ms;
  }

  // The descriptors still to come are split into this message's and the rest.
  lemma StepCarries(c: seq<Byte>, at: nat, got: seq<int>)
    requires HasMessage(c, at)
    ensures var n, k := Le64(c, at), RightsOf(Le32(c, at + 8), Le32(c, at + 12));
      var w := WordFds(c, at + HDR, at + n);
      && (k == 1 ==> got + From(c, at, SCM_RIGHTS) == (got + w) + From(c, at + Align(n, 8), SCM_RIGHTS))
      && (k != 1 ==> From(c, at, SCM_RIGHTS) == From(c, at + Align(n, 8), SCM_RIGHTS))
      && Left(c, at) == Left(c, at + Align(n, 8)) + (if k == 0 then multiset{} else multiset(w))
  {
    hide Le32, Align, From, WordFds, Le64;
    KindStep(c, at, SCM_RIGHTS);
    KindStep(c, at, SCM_PIDFD);
  }

  lemma NothingKept(live: multiset<int>)
    ensures KeptOpen(live, []) && Beyond(live, []) == live && Kept([]) == []
  {
  }

  ghost predicate KeptOpen(live: multiset<int>, got: seq<int>) {
    multiset(Kept(got)) <= live
  }

  // The open descriptors that are not kept.
  ghost function Beyond(live: multiset<int>, got: seq<int>): (m: multiset<int>) {
    live - multiset(Kept(got))
  }

  // One more: it is kept, or it is past the 253rd and may be closed; either way it is accounted for.
  lemma KeepOne(live: multiset<int>, got: seq<int>, x: int)
    requires KeptOpen(live, got) && x in Beyond(live, got)
    ensures x in live
    ensures |got| < FD_MAX ==> Kept(got + [x]) == Kept(got) + [x] && |Kept(got)| == |got|
    ensures |got| >= FD_MAX ==> Kept(got + [x]) == Kept(got) && |Kept(got)| == FD_MAX
    ensures |got| < FD_MAX ==> KeptOpen(live, got + [x]) && Beyond(live, got + [x]) == Beyond(live, got) - multiset{x}
    ensures |got| >= FD_MAX ==> KeptOpen(live - multiset{x}, got + [x])
                                && Beyond(live - multiset{x}, got + [x]) == Beyond(live, got) - multiset{x}
    ensures KeptOpen(live - multiset{x}, got) && Beyond(live - multiset{x}, got) == Beyond(live, got) - multiset{x}
  {
    KeptOne(got, x);
    hide Kept;
    QueueOne(live, Kept(got), x);
  }

  lemma KeptOne(got: seq<int>, x: int)
    ensures |got| < FD_MAX ==> Kept(got + [x]) == Kept(got) + [x] && |Kept(got)| == |got|
    ensures |got| >= FD_MAX ==> Kept(got + [x]) == Kept(got) && |Kept(got)| == FD_MAX
  {
  }

  // The descriptors in the words of c[lo..hi].
  function WordFds(c: seq<Byte>, lo: nat, hi: nat): (fds: seq<int>)
    requires lo <= hi <= |c|
  {
    NonNegative(Words(c[lo..hi]))
  }

  // One more word, as what has been taken and what is left to take see it.
  lemma WordFdsStep(c: seq<Byte>, off: nat, hi: nat, got: seq<int>, base: multiset<int>)
    requires off + 4 <= hi <= |c|
    ensures var x, all, rest := Int32(c, off), WordFds(c, off, hi), WordFds(c, off + 4, hi);
      && got + all == (if x >= 0 then got + [x] else got) + rest
      && (x >= 0 ==> x in base + multiset(all))
      && base + multiset(all) - (if x >= 0 then multiset{x} else multiset{}) == base + multiset(rest)
  {
    hide Le32;
    var s := c[off..hi];
    assert s[0..4] == c[off..off + 4];
    Le32Local(s, c, 0, off);
    assert s[4..] == c[off + 4..hi];
    assert Words(s) == [Int32(c, off)] + Words(c[off + 4..hi]);
    Snoc(got, Int32(c, off), WordFds(c, off + 4, hi));
  }

  lemma WordFdsEnd(c: seq<Byte>, off: nat, hi: nat)
    requires off <= hi <= |c| && hi < off + 4
    ensures WordFds(c, off, hi) == []
  {
  }

  lemma Snoc(a: seq<int>, x: int, b: seq<int>)
    ensures a + ([x] + b) == (a + [x]) + b
    ensures multiset([x] + b) == multiset{x} + multiset(b)
  {
  }
}
