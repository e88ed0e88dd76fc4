// The SASL exchange (D-Bus Specification, "Authentication Protocol"), client side: what the server's
// bytes decide, stated over its lines, and the reader that decides it over the framer's buffer.
module Auth {
  import opened Bytes
  import opened Framing
  import opened Kernel
  import opened FrameState
  import opened FdQueue
  import opened Framer

  const AUTH_OK := 0
  const AUTH_NEED_MORE := -1100
  const AUTH_REJECTED := -1101
  const AUTH_ERROR := -1102

  datatype Kind = Other | Data | Okay | Agree | Rejected | Refused

  // ---- lines ----

  predicate CrlfAt(s: seq<Byte>, i: nat) {
    i + 1 < |s| && s[i] == 13 && s[i + 1] == 10
  }

  // Where the first CRLF is, or |s| if there is none.
  function LineEnd(s: seq<Byte>): (i: nat)
    ensures i <= |s|
    ensures i < |s| ==> CrlfAt(s, i)
    ensures forall k | 0 <= k < i :: !CrlfAt(s, k)
    ensures i == |s| ==> forall k | 0 <= k < |s| :: !CrlfAt(s, k)
  {
    if s == [] then 0
    else if CrlfAt(s, 0) then 0
    else
      var j := LineEnd(s[1..]);
      assert forall k | 1 <= k < |s| :: CrlfAt(s, k) <==> CrlfAt(s[1..], k - 1);
      1 + j
  }

  // The complete lines of `s`, without their CRLFs.
  function Lines(s: seq<Byte>): (ls: seq<seq<Byte>>) {
    var i := LineEnd(s);
    if i == |s| then [] else [s[..i]] + Lines(s[i + 2..])
  }

  // How many bytes the first `n` lines and their CRLFs take.
  function Width(ls: seq<seq<Byte>>, n: nat): (w: nat)
    requires n <= |ls|
  {
    if n == 0 then 0 else |ls[0]| + 2 + Width(ls[1..], n - 1)
  }

  predicate IsHex(c: int) {
    48 <= c <= 57 || 97 <= c <= 102 || 65 <= c <= 70
  }

  predicate Starts(s: seq<Byte>, lit: seq<Byte>) {
    lit <= s
  }

  // "OK " and a server GUID of exactly 32 hex digits.
  predicate IsOkLine(s: seq<Byte>) {
    |s| == 35 && Starts(s, Ascii("OK ")) && forall i | 3 <= i < 35 :: IsHex(s[i])
  }

  function KindOf(s: seq<Byte>): (k: Kind) {
    if Starts(s, Ascii("DATA")) then Data
    else if Starts(s, Ascii("OK ")) then (if IsOkLine(s) then Okay else Refused)
    else if Starts(s, Ascii("AGREE_UNIX_FD")) then Agree
    else if Starts(s, Ascii("REJECTED")) then Rejected
    else if Starts(s, Ascii("ERROR")) then Refused
    else Other
  }

  // ---- what the lines decide ----

  // Line `n` is the first that decides, given whether an OK was seen before the first line.
  predicate Decides(ls: seq<seq<Byte>>, n: nat)
    requires n < |ls|
  {
    && KindOf(ls[n]) in {Agree, Rejected, Refused}
    && forall k | 0 <= k < n :: KindOf(ls[k]) in {Other, Data, Okay}
  }

  function Verdict(ls: seq<seq<Byte>>, n: nat, sawOk: bool): (r: int)
    requires n < |ls|
  {
    match KindOf(ls[n])
    case Rejected => AUTH_REJECTED
    case Agree => if sawOk || exists k :: 0 <= k < n && KindOf(ls[k]) == Okay then AUTH_OK else AUTH_ERROR
    case _ => AUTH_ERROR
  }

  // The decision on the bytes `s`, the bytes it consumes, and whether an OK has been seen by then.
  datatype Decision = Decision(code: int, used: nat, sawOk: bool)

  function Decide(s: seq<Byte>, sawOk: bool): (d: Decision)
    ensures d.used <= |s|
    ensures d.code in {AUTH_OK, AUTH_NEED_MORE, AUTH_REJECTED, AUTH_ERROR}
    ensures sawOk ==> d.sawOk
    decreases |s|
  {
    var i := LineEnd(s);
    if i == |s| then Decision(AUTH_NEED_MORE, 0, sawOk)
    else
      var k := KindOf(s[..i]);
      if k == Rejected then Decision(AUTH_REJECTED, i + 2, sawOk)
      else if k == Refused then Decision(AUTH_ERROR, i + 2, sawOk)
      else if k == Agree then Decision(if sawOk then AUTH_OK else AUTH_ERROR, i + 2, sawOk)
      else
        var d := Decide(s[i + 2..], sawOk || k == Okay);
        Decision(d.code, i + 2 + d.used, d.sawOk)
  }

  // The decision is the first deciding line's, and it uses up the lines up to that one and nothing
  // after; with no such line there is no decision. In particular it is OK exactly when a valid OK
  // line comes before the first AGREE_UNIX_FD and no refusal, bad OK or early AGREE before that.
  ghost predicate Settles(ls: seq<seq<Byte>>, n: nat, sawOk: bool, d: Decision) {
    n < |ls| && Decides(ls, n) && d.code == Verdict(ls, n, sawOk) && d.used == Width(ls, n + 1)
  }

  lemma {:induction false} DecideMeaning(s: seq<Byte>, sawOk: bool)
    ensures var d, ls := Decide(s, sawOk), Lines(s);
      && (d.code == AUTH_NEED_MORE ==>
            d.used == Width(ls, |ls|) && forall n | 0 <= n < |ls| :: KindOf(ls[n]) in {Other, Data, Okay})
      && (d.code != AUTH_NEED_MORE ==> exists n: nat :: Settles(ls, n, sawOk, d))
    decreases |s|
  {
    hide KindOf, Decide, LineEnd;
    DecideLine(s, sawOk);
    var i := LineEnd(s);
    if i < |s| {
      var ls, rest := Lines(s), Lines(s[i + 2..]);
      var saw := sawOk || KindOf(ls[0]) == Okay;
      assert ls == [s[..i]] + rest;
      if KindOf(ls[0]) in {Rejected, Refused, Agree} {
        assert Width(ls[1..], 0) == 0;
        assert Settles(ls, 0, sawOk, Decide(s, sawOk));
      } else {
        assert ls[1..] == rest;
        var d := Decide(s[i + 2..], saw);
        DecideMeaning(s[i + 2..], saw);
        if d.code != AUTH_NEED_MORE {
          var n: nat :| Settles(rest, n, saw, d);
          LaterLine(ls, n, sawOk);
          assert Settles(ls, n + 1, sawOk, Decide(s, sawOk));
        } else {
          forall n | 0 <= n < |ls|
            ensures KindOf(ls[n]) in {Other, Data, Okay}
          {
            if n > 0 {
              assert ls[n] == rest[n - 1];
            }
          }
        }
      }
    }
  }

  // A decision uses up at least its own line.
  lemma DecideUses(s: seq<Byte>, sawOk: bool)
    ensures Decide(s, sawOk).code != AUTH_NEED_MORE ==> Decide(s, sawOk).used >= 2
  {
    hide KindOf, LineEnd;
  }

  lemma LaterLine(ls: seq<seq<Byte>>, n: nat, sawOk: bool)
    requires n + 1 < |ls| && Decides(ls[1..], n) && KindOf(ls[0]) in {Other, Data, Okay}
    ensures Decides(ls, n + 1)
    ensures Verdict(ls, n + 1, sawOk) == Verdict(ls[1..], n, sawOk || KindOf(ls[0]) == Okay)
  {
    hide KindOf;
    assert forall k | 1 <= k <= n + 1 :: ls[k] == ls[1..][k - 1];
    if k :| 0 <= k < n && KindOf(ls[1..][k]) == Okay {
      assert KindOf(ls[k + 1]) == Okay;
    }
  }

  // Reading what is left after the lines used so far, with more bytes behind it, is reading it all:
  // however the bytes are split, the decision and the place it leaves the reader are the same.
  lemma {:induction false} DecideResumes(s: seq<Byte>, t: seq<Byte>, sawOk: bool)
    requires Decide(s, sawOk).code == AUTH_NEED_MORE
    ensures var d := Decide(s, sawOk);
      var e := Decide(s[d.used..] + t, d.sawOk);
      Decide(s + t, sawOk) == Decision(e.code, d.used + e.used, e.sawOk)
    decreases |s|
  {
    hide KindOf, Decide, LineEnd;
    var i := LineEnd(s);
    DecideLine(s, sawOk);
    if i < |s| {
      DecideLine(s + t, sawOk);
      LineEndOfPrefix(s, t);
      var saw := sawOk || KindOf(s[..i]) == Okay;
      var r := s[i + 2..];
      assert (s + t)[..i] == s[..i];
      assert (s + t)[i + 2..] == r + t;
      DecideResumes(r, t, saw);
      assert s[i + 2 + Decide(r, saw).used..] == r[Decide(r, saw).used..];
    } else {
      assert s[0..] == s;
    }
  }

  // A decision once made stands, whatever follows it.
  lemma {:induction false} DecideStands(s: seq<Byte>, t: seq<Byte>, sawOk: bool)
    requires Decide(s, sawOk).code != AUTH_NEED_MORE
    ensures Decide(s + t, sawOk) == Decide(s, sawOk)
    decreases |s|
  {
    hide KindOf, Decide, LineEnd;
    var i := LineEnd(s);
    DecideLine(s, sawOk);
    DecideLine(s + t, sawOk);
    LineEndOfPrefix(s, t);
    var k := KindOf(s[..i]);
    assert (s + t)[..i] == s[..i];
    assert (s + t)[i + 2..] == s[i + 2..] + t;
    if k !in {Rejected, Refused, Agree} {
      DecideStands(s[i + 2..], t, sawOk || k == Okay);
    }
  }

  lemma LineEndIs(s: seq<Byte>, i: nat)
    requires CrlfAt(s, i) && forall k | 0 <= k < i :: !CrlfAt(s, k)
    ensures LineEnd(s) == i
  {
  }

  // One line of a decision.
  lemma DecideLine(s: seq<Byte>, sawOk: bool)
    ensures var i := LineEnd(s);
      if i == |s| then Decide(s, sawOk) == Decision(AUTH_NEED_MORE, 0, sawOk)
      else
        var k := KindOf(s[..i]);
        if k == Rejected then Decide(s, sawOk) == Decision(AUTH_REJECTED, i + 2, sawOk)
        else if k == Refused then Decide(s, sawOk) == Decision(AUTH_ERROR, i + 2, sawOk)
        else if k == Agree then Decide(s, sawOk) == Decision(if sawOk then AUTH_OK else AUTH_ERROR, i + 2, sawOk)
        else
          var d := Decide(s[i + 2..], sawOk || k == Okay);
          Decide(s, sawOk) == Decision(d.code, i + 2 + d.used, d.sawOk)
  {
    hide KindOf;
  }

  lemma LineEndOfPrefix(s: seq<Byte>, t: seq<Byte>)
    requires LineEnd(s) < |s|
    ensures LineEnd(s + t) == LineEnd(s)
  {
    var i := LineEnd(s);
    assert forall k | 0 <= k <= i :: CrlfAt(s + t, k) <==> CrlfAt(s, k);
    LineEndIs(s + t, i);
  }

  // ---- the same, on the texts a server writes ----

  // Lines, each with its CRLF.
  function Joined(ls: seq<seq<Byte>>): (s: seq<Byte>) {
    if ls == [] then [] else ls[0] + [13, 10] + Joined(ls[1..])
  }

  predicate NoCr(s: seq<Byte>) {
    forall i | 0 <= i < |s| :: s[i] != '\r' as int
  }

  // Lines written one after another are read back, and so much is used of them.
  lemma {:induction false} LinesOfJoined(ls: seq<seq<Byte>>, tail: seq<Byte>)
    requires (forall l | l in ls :: NoCr(l)) && NoCr(tail)
    ensures Lines(Joined(ls) + tail) == ls && Width(ls, |ls|) == |Joined(ls)|
  {
    hide Lines, NoCr;
    if ls == [] {
      assert Joined(ls) + tail == tail;
      NoLine(tail);
    } else {
      var rest := Joined(ls[1..]) + tail;
      assert Joined(ls) + tail == ls[0] + [13, 10] + rest;
      OneLine(ls[0], rest);
      LinesOfJoined(ls[1..], tail);
    }
  }

  lemma NoLine(s: seq<Byte>)
    requires NoCr(s)
    ensures Lines(s) == []
  {
    assert forall i | 0 <= i < |s| :: !CrlfAt(s, i);
  }

  lemma OneLine(line: seq<Byte>, rest: seq<Byte>)
    requires NoCr(line)
    ensures var s := line + [13, 10] + rest;
      && LineEnd(s) == |line| && s[..|line|] == line && s[|line| + 2..] == rest
      && Lines(s) == [line] + Lines(rest)
  {
    hide LineEnd;
    var s := line + [13, 10] + rest;
    assert s[..|line|] == line && s[|line|] == 13 && s[|line| + 1] == 10;
    assert forall k | 0 <= k < |line| :: s[k] == line[k];
    LineEndIs(s, |line|);
  }

  // What each kind of line looks like.
  lemma Kinds(s: seq<Byte>)
    ensures KindOf(s) == Data <==> Ascii("DATA") <= s
    ensures KindOf(s) == Agree <==> Ascii("AGREE_UNIX_FD") <= s
    ensures KindOf(s) == Rejected <==> Ascii("REJECTED") <= s
    ensures KindOf(s) in {Okay, Refused} <==> Ascii("OK ") <= s || Ascii("ERROR") <= s
    ensures KindOf(s) == Okay <==> |s| == 35 && Ascii("OK ") <= s && forall i | 3 <= i < 35 :: HexDigit(s[i])
  {
    hide Ascii;
    Begins("DATA", s);
    Begins("OK ", s);
    Begins("AGREE_UNIX_FD", s);
    Begins("REJECTED", s);
    Begins("ERROR", s);
  }

  lemma Begins(lit: string, s: seq<Byte>)
    requires lit != [] && lit[0] as int < 128
    ensures Ascii(lit) <= s ==> s != [] && s[0] == lit[0] as int
  {
  }

  predicate HexDigit(c: int) {
    '0' as int <= c <= '9' as int || 'a' as int <= c <= 'f' as int || 'A' as int <= c <= 'F' as int
  }

  // "OK " and 32 hex digits, and then "AGREE_UNIX_FD", settle it at the 52nd byte, whatever follows.
  lemma Agreed(guid: seq<Byte>, rest: seq<Byte>)
    requires |guid| == 32 && forall i | 0 <= i < 32 :: HexDigit(guid[i])
    ensures Decide(Ascii("OK ") + guid + [13, 10] + Ascii("AGREE_UNIX_FD") + [13, 10] + rest, false)
         == Decision(0, 52, true)
  {
    hide KindOf, Decide, LineEnd, Lines, Ascii, NoCr;
    var first, second := Ascii("OK ") + guid, Ascii("AGREE_UNIX_FD");
    var s := first + [13, 10] + second + [13, 10] + rest;
    var t := second + [13, 10] + rest;
    assert s == first + [13, 10] + t;
    Greeting(guid);
    Agreement();
    OneLine(first, t);
    OneLine(second, rest);
    DecideLine(s, false);
    DecideLine(t, true);
  }

  lemma Greeting(guid: seq<Byte>)
    requires |guid| == 32 && forall i | 0 <= i < 32 :: HexDigit(guid[i])
    ensures NoCr(Ascii("OK ") + guid) && KindOf(Ascii("OK ") + guid) == Okay
  {
    hide KindOf;
    var line := Ascii("OK ") + guid;
    assert forall i | 0 <= i < 32 :: line[3 + i] == guid[i];
    Kinds(line);
  }

  lemma Agreement()
    ensures NoCr(Ascii("AGREE_UNIX_FD")) && KindOf(Ascii("AGREE_UNIX_FD")) == Agree
  {
    hide KindOf;
    Kinds(Ascii("AGREE_UNIX_FD"));
  }

  // Without an OK, agreement is an error; a refusal is one at once, and so is an OK with anything but 32 hex
  // digits behind it.
  lemma NotAgreed(line: seq<Byte>, rest: seq<Byte>, sawOk: bool)
    requires NoCr(line)
    ensures var d := Decide(line + [13, 10] + rest, sawOk);
      && (Ascii("REJECTED") <= line ==> d == Decision(-1101, |line| + 2, sawOk))
      && (Ascii("ERROR") <= line ==> d == Decision(-1102, |line| + 2, sawOk))
      && (Ascii("OK ") <= line && |line| != 35 ==> d == Decision(-1102, |line| + 2, sawOk))
      && (Ascii("AGREE_UNIX_FD") <= line ==> d == Decision(if sawOk then 0 else -1102, |line| + 2, sawOk))
  {
    hide Decide, LineEnd, Lines;
    OneLine(line, rest);
    DecideLine(line + [13, 10] + rest, sawOk);
    Kinds(line);
  }

  lemma EatenNone(f: Frame)
    requires f.pos <= |f.stream|
    ensures Eaten(f, 0) == f
  {
  }

  lemma EatenTwice(f: Frame, a: nat, b: nat)
    requires f.pos + a + b <= |f.stream|
    ensures Eaten(f, a).pos == f.pos + a && Eaten(f, a).stream == f.stream
    ensures Eaten(f, a + b).pos == f.pos + a + b && Eaten(f, a + b).stream == f.stream
    ensures Eaten(f, a + b).led == f.led && Eaten(f, a + b).came == f.came && Eaten(f, a + b).skip == f.skip
    ensures Eaten(Eaten(f, a), b) == Eaten(f, a + b)
  {
  }

  // `used` bytes have been read since `f`, none of which decided; `d` is the decision on all of them.
  ghost predicate Undecided(f: Frame, g: Frame, used: nat, d: Decision, sawOk: bool) {
    && f.pos + used <= |f.stream| && f.skip == 0 && f.came == [] && g == Eaten(f, used)
    && var e := Decide(f.stream[f.pos + used..], sawOk); d == Decision(e.code, used + e.used, e.sawOk)
  }

  lemma UndecidedYet(f: Frame, sawOk: bool)
    requires f.pos <= |f.stream| && f.skip == 0 && f.came == []
    ensures Undecided(f, f, 0, Decide(f.stream[f.pos..], sawOk), sawOk)
  {
    EatenNone(f);
  }

  // The next line, if it is whole, decides or is read past.
  lemma UndecidedLine(f: Frame, g: Frame, used: nat, d: Decision, sawOk: bool)
    requires Undecided(f, g, used, d, sawOk)
    ensures g.skip == 0 && g.came == [] && g.pos <= |g.stream| && used <= |f.stream|
    ensures var s := g.stream[g.pos..];
      var i := LineEnd(s);
      if i == |s| then d == Decision(AUTH_NEED_MORE, used, sawOk) && g == Eaten(f, used)
      else
        var k, h, n := KindOf(s[..i]), Eaten(g, i + 2), used + i + 2;
        && used < n <= |f.stream|
        && (k == Rejected ==> d == Decision(AUTH_REJECTED, n, sawOk) && h == Eaten(f, n))
        && (k == Refused ==> d == Decision(AUTH_ERROR, n, sawOk) && h == Eaten(f, n))
        && (k == Agree ==> d == Decision(if sawOk then AUTH_OK else AUTH_ERROR, n, sawOk) && h == Eaten(f, n))
        && (k !in {Rejected, Refused, Agree} ==> Undecided(f, h, n, d, sawOk || k == Okay))
  {
    hide KindOf, Decide, LineEnd, Eaten;
    EatenTwice(f, used, 0);
    var s := g.stream[g.pos..];
    var i := LineEnd(s);
    DecideLine(s, sawOk);
    if i < |s| {
      EatenTwice(f, used, i + 2);
      assert f.stream[f.pos + used + i + 2..] == s[i + 2..];
    }
  }

  // ---- the reader ----

  class Reader {
    var sawOk: bool
    var sawAgree: bool

    constructor ()
      ensures !sawOk && !sawAgree
    {
      sawOk, sawAgree := false, false;
    }

    method Reset()
      modifies this
      ensures !sawOk && !sawAgree
    {
      sawOk, sawAgree := false, false;
    }

    // Use up as many complete lines as the buffer holds. On a decision the cursor is just past the
    // deciding line's CRLF, where the binary stream begins.
    method DrainLines(fr: Framer) returns (r: int)
      requires fr.Valid() && fr.g.skip == 0 && fr.g.came == []
      modifies this, fr`off, fr`g
      ensures fr.Valid()
      ensures var d := Decide(old(fr.g.stream[fr.g.pos..]), old(sawOk));
        r == d.code && fr.g == Eaten(old(fr.g), d.used) && sawOk == d.sawOk
      ensures sawAgree == (old(sawAgree) || r == AUTH_OK)
    {
      hide Inv, KindOf, Outside, QueueOpen, Fds, Decide, LineEnd, Eaten, Undecided;
      ghost var f := fr.g;
      ghost var d := Decide(f.stream[f.pos..], sawOk);
      ghost var used: nat := 0;
      UndecidedYet(f, sawOk);
      var done := false;
      r := AUTH_NEED_MORE;
      while !done
        invariant fr.Valid()
        invariant !done ==> Undecided(f, fr.g, used, d, sawOk) && sawAgree == old(sawAgree)
        invariant done ==> d == Decision(r, used, sawOk) && fr.g == Eaten(f, used)
        invariant done ==> sawAgree == (old(sawAgree) || r == AUTH_OK)
        decreases !done, |f.stream| - used
      {
        UndecidedLine(f, fr.g, used, d, sawOk);
        ghost var s := fr.g.stream[fr.g.pos..];
        used := if LineEnd(s) == |s| then used else used + LineEnd(s) + 2;
        done, r := DrainLine(fr);
      }
    }

    // One line, if there is a whole one; says whether that settles it, and how.
    method DrainLine(fr: Framer) returns (done: bool, r: int)
      requires fr.Valid() && fr.g.skip == 0 && fr.g.came == []
      modifies this, fr`off, fr`g
      ensures fr.Valid()
      ensures var s := old(fr.g.stream[fr.g.pos..]);
        var i := LineEnd(s);
        if i == |s| then
          done && r == AUTH_NEED_MORE && fr.g == old(fr.g) && sawOk == old(sawOk) && sawAgree == old(sawAgree)
        else
          var k := KindOf(s[..i]);
          && fr.g == Eaten(old(fr.g), i + 2)
          && (done <==> k in {Rejected, Refused, Agree})
          && sawOk == (old(sawOk) || k == Okay)
          && (k == Rejected ==> r == AUTH_REJECTED)
          && (k == Refused ==> r == AUTH_ERROR)
          && (k == Agree ==> r == if old(sawOk) then AUTH_OK else AUTH_ERROR)
          && sawAgree == (old(sawAgree) || (k == Agree && old(sawOk)))
    {
      hide Inv, KindOf, Outside, QueueOpen, Fds, LineEnd, Eaten;
      var p := fr.Base();
      var have := fr.Have();
      if have <= 0 {
        return true, AUTH_NEED_MORE;
      }
      var at := FindCrlf(p, have);
      if at < 0 {
        return true, AUTH_NEED_MORE;
      }
      var kind := LineKind(p, at);
      fr.Consume(at + 2);
      if kind == Rejected {
        return true, AUTH_REJECTED;
      }
      if kind == Refused {
        return true, AUTH_ERROR;
      }
      if kind == Okay {
        sawOk := true;
      }
      if kind == Agree {
        if !sawOk {
          return true, AUTH_ERROR;
        }
        sawAgree := true;
        return true, AUTH_OK;
      }
      return false, AUTH_NEED_MORE;
    }

    method FindCrlf(p: seq<Byte>, len: int) returns (r: int)
      requires len == |p|
      ensures r == if LineEnd(p) == |p| then -1 else LineEnd(p)
    {
      var i := 0;
      while i + 1 < len
        invariant 0 <= i
        invariant forall k | 0 <= k < i :: !CrlfAt(p, k)
        invariant i <= |p|
      {
        if p[i] == 13 {
          if p[i + 1] == 10 {
            LineEndIs(p, i);
            return i;
          }
        }
        i := i + 1;
      }
      assert forall k: nat | k < |p| :: !CrlfAt(p, k);
      return -1;
    }

    method StartsWith(p: seq<Byte>, len: nat, lit: seq<Byte>) returns (ok: bool)
      requires len <= |p|
      ensures ok <==> Starts(p[..len], lit)
    {
      var n := |lit|;
      if len < n {
        return false;
      }
      var i := 0;
      while i < n
        invariant 0 <= i <= n
        invariant forall k | 0 <= k < i :: p[k] == lit[k]
      {
        if p[i] != lit[i] {
          assert p[..len][i] != lit[i];
          return false;
        }
        i := i + 1;
      }
      assert p[..len][..n] == lit;
      return true;
    }

    method IsOk(p: seq<Byte>, len: nat) returns (ok: bool)
      requires len <= |p|
      ensures ok <==> IsOkLine(p[..len])
    {
      if len != 35 {
        return false;
      }
      var starts := StartsWith(p, len, Ascii("OK "));
      if !starts {
        return false;
      }
      var i := 3;
      while i < 35
        invariant 3 <= i <= 35
        invariant forall k | 3 <= k < i :: IsHex(p[k])
      {
        if !IsHex(p[i]) {
          assert !IsHex(p[..len][i]);
          return false;
        }
        i := i + 1;
      }
      return true;
    }

    method LineKind(p: seq<Byte>, len: nat) returns (k: Kind)
      requires len <= |p|
      ensures k == KindOf(p[..len])
    {
      hide Ascii, Starts, IsOkLine;
      var s := StartsWith(p, len, Ascii("DATA"));
      if s {
        return Data;
      }
      s := StartsWith(p, len, Ascii("OK "));
      if s {
        var ok := IsOk(p, len);
        return if ok then Okay else Refused;
      }
      s := StartsWith(p, len, Ascii("AGREE_UNIX_FD"));
      if s {
        return Agree;
      }
      s := StartsWith(p, len, Ascii("REJECTED"));
      if s {
        return Rejected;
      }
      s := StartsWith(p, len, Ascii("ERROR"));
      if s {
        return Refused;
      }
      return Other;
    }
  }
}
