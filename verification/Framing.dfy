// What a byte stream means as a sequence of D-Bus messages, stated over the whole stream and with
// no buffer in sight. The framer (module Framer) is proved to compute this.
module Framing {
  import opened Bytes

  const HDR_SIZE := 16
  const CAP := 8192
  const MSG_MAX := 134217728

  const NEED_MORE := -1000
  const EOF := -1001
  const TRUNCATED := -1002
  const BAD_ENDIAN := -1003
  const BAD_PROTO := -1004
  const OVERFLOW := -1005
  const TOO_LONG := -1006

  const LITTLE: Byte := 108   // 'l'
  const BIG: Byte := 66       // 'B'

  // The on-wire length the header at the front of `p` declares, or a status code (all negative).
  function Total(p: seq<Byte>): (r: int)
    ensures r < 0 || HDR_SIZE <= r
    ensures |p| < HDR_SIZE <==> r == NEED_MORE
    ensures r < 0 ==> r in {NEED_MORE, BAD_ENDIAN, BAD_PROTO}
  {
    if |p| < HDR_SIZE then NEED_MORE
    else if p[0] != LITTLE && p[0] != BIG then BAD_ENDIAN
    else if p[3] != 1 then BAD_PROTO
    else if p[0] == LITTLE then Align(HDR_SIZE + Le32(p, 12), 8) + Le32(p, 4)
    else Align(HDR_SIZE + Be32(p, 12), 8) + Be32(p, 4)
  }

  // The first sixteen bytes decide.
  lemma TotalOfPrefix(p: seq<Byte>, t: seq<Byte>)
    requires |p| >= HDR_SIZE
    ensures Total(p + t) == Total(p)
  {
    assert forall i | 0 <= i < |p| :: (p + t)[i] == p[i];
  }

  // A header that declares nothing: which faults there are, and when.
  lemma TotalFaults(p: seq<Byte>)
    ensures Total(p) == -1000 <==> |p| < 16
    ensures Total(p) == -1003 <==> |p| >= 16 && p[0] !in {'l' as int, 'B' as int}
    ensures Total(p) == -1004 <==> |p| >= 16 && p[0] in {'l' as int, 'B' as int} && p[3] != 1
    ensures Total(p) >= 0 <==> |p| >= 16 && p[0] in {'l' as int, 'B' as int} && p[3] == 1
  {
  }

  // A little-endian message with its three header words in the other byte order, and marked so.
  function Swapped(m: seq<Byte>): (b: seq<Byte>)
    requires |m| >= 16
    ensures |b| == |m|
  {
    ['B' as int] + m[1..4]
    + [m[7], m[6], m[5], m[4]] + [m[11], m[10], m[9], m[8]] + [m[15], m[14], m[13], m[12]] + m[16..]
  }

  // It declares the same length.
  lemma SwappedTotal(m: seq<Byte>)
    requires |m| >= 16 && m[0] == 'l' as int
    ensures Total(Swapped(m)) == Total(m)
  {
    hide Align;
    var b := Swapped(m);
    assert b[0] == 66 && b[3] == m[3];
    assert b[4] == m[7] && b[5] == m[6] && b[6] == m[5] && b[7] == m[4];
    assert b[12] == m[15] && b[13] == m[14] && b[14] == m[13] && b[15] == m[12];
  }

  // The bytes a sender of either byte order writes: the lengths of the body and of the fields as words of
  // that order, and the body after the fields' padding to 8.
  function Word(big: bool, v: int): (s: seq<Byte>)
    ensures |s| == 4
  {
    if big then Be32Bytes(v) else Le32Bytes(v)
  }

  function Front(big: bool, kind: Byte, flags: Byte, blen: int, serial: int, flen: int): (s: seq<Byte>)
    ensures |s| == 16
  {
    [if big then 'B' as int else 'l' as int, kind, flags, 1] + Word(big, blen) + Word(big, serial) + Word(big, flen)
  }

  // What is declared is what was written.
  lemma DeclaredTotal(big: bool, kind: Byte, flags: Byte, serial: int,
                      fields: seq<Byte>, pad: seq<Byte>, body: seq<Byte>)
    requires |fields| <= U32_MAX && |body| <= U32_MAX && |pad| < 8 && (16 + |fields| + |pad|) % 8 == 0
    ensures var m := Front(big, kind, flags, |body|, serial, |fields|) + fields + pad + body;
      Total(m) == |m|
  {
    hide Word, Align, Le32, Be32;
    var front := Front(big, kind, flags, |body|, serial, |fields|);
    var m := front + fields + pad + body;
    assert m[..16] == front;
    assert m[0] == front[0] && m[3] == front[3] == 1;
    assert m[4..8] == front[4..8] == Word(big, |body|);
    assert m[12..16] == front[12..16] == Word(big, |fields|);
    WordReads(big, |body|, m, 4);
    WordReads(big, |fields|, m, 12);
    assert Align(16 + |fields|, 8) == 16 + |fields| + |pad|;
  }

  lemma WordReads(big: bool, v: U32, m: seq<Byte>, o: nat)
    requires o + 4 <= |m| && m[o..o + 4] == Word(big, v)
    ensures (if big then Be32(m, o) else Le32(m, o)) == v
  {
    if big {
      Be32RoundTrip(v, m, o);
    } else {
      Le32RoundTrip(v, m, o);
    }
  }

  function TotalAt(s: seq<Byte>, p: nat): (r: int)
    requires p <= |s|
    ensures r < 0 || HDR_SIZE <= r
    ensures |s| - p < HDR_SIZE <==> r == NEED_MORE
    ensures r < 0 ==> r in {NEED_MORE, BAD_ENDIAN, BAD_PROTO}
  {
    Total(s[p..])
  }

  lemma TotalAtStable(s: seq<Byte>, t: seq<Byte>, p: nat)
    requires p + HDR_SIZE <= |s|
    ensures TotalAt(s + t, p) == TotalAt(s, p)
  {
    assert (s + t)[p..] == s[p..] + t;
    TotalOfPrefix(s[p..], t);
  }

  // A message and the stream position of its first byte.
  datatype Item = Item(pos: nat, bytes: seq<Byte>)

  // The in-cap messages of stream `s` from position `p` on: over-cap messages are stepped over by
  // their declared length, and the first header no message can have ends the parse.
  function Messages(s: seq<Byte>, p: nat): (ms: seq<Item>)
    decreases |s| - p
  {
    if p + HDR_SIZE > |s| then []
    else
      var d := TotalAt(s, p);
      if d < 0 || d >= MSG_MAX then []
      else if d > CAP then Messages(s, p + d)
      else if p + d > |s| then []
      else [Item(p, s[p..p + d])] + Messages(s, p + d)
  }

  // What the framer must answer at position `p` of stream `s`, and the position of the message (or
  // of the stretch still to be discarded) the answer is about.
  datatype Verdict = Verdict(code: int, at: nat)

  function Answer(s: seq<Byte>, p: nat, eof: bool): (v: Verdict)
    decreases |s| - p
  {
    if p + HDR_SIZE > |s| then
      Verdict(if !eof then NEED_MORE else if p == |s| then EOF else TRUNCATED, p)
    else
      var d := TotalAt(s, p);
      if d < 0 then Verdict(d, p)
      else if d >= MSG_MAX then Verdict(TOO_LONG, p)
      else if d > CAP then Answer(s, p + d, eof)
      else if p + d > |s| then Verdict(if eof then TRUNCATED else NEED_MORE, p)
      else Verdict(d, p)
  }

  predicate IsFault(code: int) {
    code in {BAD_ENDIAN, BAD_PROTO, TOO_LONG}
  }

  // The head position `p` of `s` holds a whole message of `d` bytes, within the cap.
  predicate WholeAt(s: seq<Byte>, p: nat, d: int) {
    && p + HDR_SIZE <= |s| && TotalAt(s, p) == d && 0 < d <= CAP && p + d <= |s|
  }

  // A positive answer is the next in-cap message of the parse; any other answer means there is none
  // left in the bytes received.
  lemma {:induction false} AnswerIsNextMessage(s: seq<Byte>, p: nat, eof: bool)
    ensures var v := Answer(s, p, eof);
      && v.at >= p
      && (v.code > 0 ==>
            && WholeAt(s, v.at, v.code)
            && Messages(s, p) == [Item(v.at, s[v.at..v.at + v.code])] + Messages(s, v.at + v.code))
      && (v.code <= 0 ==> Messages(s, p) == [])
    decreases |s| - p
  {
    hide TotalAt;
    if p + HDR_SIZE <= |s| {
      var d := TotalAt(s, p);
      if CAP < d < MSG_MAX {
        AnswerIsNextMessage(s, p + d, eof);
      }
    }
  }

  // At end of file the answer is `eof` exactly at a message boundary and `truncated` inside a
  // message or a drain, unless the head is a fault, which keeps its own code; need_more is answered
  // exactly when neither a message, nor a fault, nor end of file stands in the way.
  lemma {:induction false} AnswerCodes(s: seq<Byte>, p: nat, eof: bool)
    ensures var v := Answer(s, p, eof);
      && (v.code > 0 || IsFault(v.code) || v.code in {NEED_MORE, EOF, TRUNCATED})
      && (v.code > 0 || IsFault(v.code) ==> v == Answer(s, p, !eof))
      && (v.code == NEED_MORE ==> !eof)
      && (v.code in {EOF, TRUNCATED} ==> eof)
      && (v.code <= 0 && !IsFault(v.code) && eof ==> (v.code == EOF <==> v.at == |s|))
    decreases |s| - p
  {
    if p + HDR_SIZE <= |s| {
      var d := TotalAt(s, p);
      if CAP < d < MSG_MAX {
        AnswerCodes(s, p + d, eof);
      }
    }
  }

  // The same by number: what each code says of the bytes at the position it is about.
  lemma {:induction false} CodesByNumber(s: seq<Byte>, p: nat, eof: bool)
    ensures var v := Answer(s, p, eof);
      var whole := v.at + 16 <= |s|;
      && (v.code in {-1000, -1001, -1002, -1003, -1004, -1006} || 16 <= v.code <= 8192)
      && (v.code == -1001 <==> eof && v.at == |s|)
      && (v.code == -1003 <==> whole && s[v.at] !in {'l' as int, 'B' as int})
      && (v.code == -1004 <==> whole && s[v.at] in {'l' as int, 'B' as int} && s[v.at + 3] != 1)
      && (v.code == -1006 <==> whole && TotalAt(s, v.at) >= 134217728)
      && (v.code > 0 <==> whole && 0 <= TotalAt(s, v.at) <= 8192 && v.at + TotalAt(s, v.at) <= |s|)
      && (v.code == -1000 ==> !eof)
      && (v.code == -1002 ==> eof)
    decreases |s| - p
  {
    if p + HDR_SIZE <= |s| {
      var d := TotalAt(s, p);
      TotalFaults(s[p..]);
      if CAP < d < MSG_MAX {
        CodesByNumber(s, p + d, eof);
      }
    }
  }

  // The first position a read may not pass: the end of the header, of the message whose header is
  // known, or of the stretch being discarded (`skip` bytes from `p`).
  function Stop(s: seq<Byte>, p: nat, skip: nat): (e: nat)
    requires p <= |s|
    ensures if skip > 0 then e == p + skip else p + HDR_SIZE <= e
  {
    if skip > 0 then p + skip
    else if p + HDR_SIZE > |s| then p + HDR_SIZE
    else
      var d := TotalAt(s, p);
      if 0 < d <= CAP then p + d else p + HDR_SIZE
  }

  // More bytes do not bring the end of the head message nearer.
  lemma StopGrows(s: seq<Byte>, b: seq<Byte>, p: nat, skip: nat)
    requires p <= |s|
    ensures Stop(s, p, skip) <= Stop(s + b, p, skip)
    ensures p + HDR_SIZE <= |s| ==> Stop(s, p, skip) == Stop(s + b, p, skip)
  {
    if p + HDR_SIZE <= |s| {
      TotalAtStable(s, b, p);
    }
  }

  // need_more means the unread bytes are a strict prefix of one unit, and that unit ends within the
  // cap: there is something to read, and room to read it without crossing a message boundary.
  lemma {:induction false} NeedMoreIsStrictPrefix(s: seq<Byte>, p: nat)
    requires Answer(s, p, false).code == NEED_MORE
    ensures var at := Answer(s, p, false).at;
      at <= |s| ==> |s| < Stop(s, at, 0) <= at + CAP
    decreases |s| - p
  {
    if p + HDR_SIZE <= |s| {
      var d := TotalAt(s, p);
      if CAP < d < MSG_MAX {
        NeedMoreIsStrictPrefix(s, p + d);
      }
    }
  }

  // Faults are sticky: nothing that arrives later, end of file included, changes the answer.
  lemma FaultsAreSticky(s: seq<Byte>, t: seq<Byte>, p: nat, eof: bool, eof2: bool)
    requires IsFault(Answer(s, p, eof).code)
    ensures var v := Answer(s, p, eof);
      Answer(s + t, v.at, eof2) == v
  {
    FaultAt(s, p, eof);
    var v := Answer(s, p, eof);
    TotalAtStable(s, t, v.at);
  }

  lemma {:induction false} FaultAt(s: seq<Byte>, p: nat, eof: bool)
    requires IsFault(Answer(s, p, eof).code)
    ensures var v := Answer(s, p, eof);
      && v.at + HDR_SIZE <= |s|
      && (TotalAt(s, v.at) == v.code || (TotalAt(s, v.at) >= MSG_MAX && v.code == TOO_LONG))
    decreases |s| - p
  {
    if p + HDR_SIZE <= |s| {
      var d := TotalAt(s, p);
      if CAP < d < MSG_MAX {
        FaultAt(s, p + d, eof);
      }
    }
  }

  // ---- the state of a parse in progress ----

  // Whatever arrives after `s`, the messages from `start` on are those in `done`, then those from
  // `resume` on.
  ghost predicate Parsed(s: seq<Byte>, start: nat, resume: nat, done: seq<Item>) {
    forall t: seq<Byte> :: Messages(s + t, start) == done + Messages(s + t, resume)
  }

  lemma ParsedStart(s: seq<Byte>, start: nat)
    ensures Parsed(s, start, start, [])
  {
  }

  lemma ParsedReceive(s: seq<Byte>, b: seq<Byte>, start: nat, resume: nat, done: seq<Item>)
    requires Parsed(s, start, resume, done)
    ensures Parsed(s + b, start, resume, done)
  {
    forall t: seq<Byte>
      ensures Messages(s + b + t, start) == done + Messages(s + b + t, resume)
    {
      assert s + b + t == s + (b + t);
    }
  }

  lemma ParsedMessage(s: seq<Byte>, start: nat, p: nat, d: nat, done: seq<Item>)
    requires Parsed(s, start, p, done)
    requires WholeAt(s, p, d)
    ensures Parsed(s, start, p + d, done + [Item(p, s[p..p + d])])
  {
    hide TotalAt;
    var done' := done + [Item(p, s[p..p + d])];
    forall t: seq<Byte>
      ensures Messages(s + t, start) == done' + Messages(s + t, p + d)
    {
      TotalAtStable(s, t, p);
      assert (s + t)[p..p + d] == s[p..p + d];
      assert done + ([Item(p, s[p..p + d])] + Messages(s + t, p + d)) == done' + Messages(s + t, p + d);
    }
  }

  lemma ParsedOverCap(s: seq<Byte>, start: nat, p: nat, done: seq<Item>)
    requires Parsed(s, start, p, done)
    requires p + HDR_SIZE <= |s| && CAP < TotalAt(s, p) < MSG_MAX
    ensures Parsed(s, start, p + TotalAt(s, p), done)
  {
    hide TotalAt;
    var q := p + TotalAt(s, p);
    forall t: seq<Byte>
      ensures Messages(s + t, start) == done + Messages(s + t, q)
    {
      TotalAtStable(s, t, p);
    }
  }

  // Once no further message is to be had, what has been yielded is exactly the parse of the stream.
  lemma ParsedComplete(s: seq<Byte>, start: nat, resume: nat, eof: bool, done: seq<Item>)
    requires Parsed(s, start, resume, done)
    requires Answer(s, resume, eof).code <= 0
    ensures Messages(s, start) == done
  {
    AnswerIsNextMessage(s, resume, eof);
    assert s + [] == s;
  }

  // ---- the parse against an independent description of the stream ----

  // One message as a sender lays it out: its header declares exactly its length.
  predicate Unit(u: seq<Byte>) {
    16 <= |u| < 134217728 && Total(u) == |u|
  }

  function Concat(us: seq<seq<Byte>>): (s: seq<Byte>) {
    if us == [] then [] else us[0] + Concat(us[1..])
  }

  // The in-cap ones among `us`, each with the position it starts at when `us` starts at `p`.
  function InCap(us: seq<seq<Byte>>, p: nat): (ms: seq<Item>) {
    if us == [] then []
    else if |us[0]| > 8192 then InCap(us[1..], p + |us[0]|)
    else [Item(p, us[0])] + InCap(us[1..], p + |us[0]|)
  }

  // A stream made of whole messages and a strict prefix of one more parses into exactly the in-cap
  // messages, wherever it starts: an over-cap message costs its own bytes and nothing else.
  lemma {:induction false} MessagesOfUnits(pre: seq<Byte>, us: seq<seq<Byte>>, rest: seq<Byte>, next: seq<Byte>)
    requires forall u | u in us :: Unit(u)
    requires Unit(next) && rest < next
    ensures Messages(pre + Concat(us) + rest, |pre|) == InCap(us, |pre|)
    decreases |us|
  {
    hide Total;
    var s, p := pre + Concat(us) + rest, |pre|;
    if us == [] {
      assert s[p..] == rest;
      if |rest| >= HDR_SIZE {
        TotalOfPrefix(rest, next[|rest|..]);
        assert next == rest + next[|rest|..];
      }
    } else {
      var u := us[0];
      assert u in us;
      assert s == (pre + u) + Concat(us[1..]) + rest;
      assert s[p..] == u + (Concat(us[1..]) + rest);
      TotalOfPrefix(u, Concat(us[1..]) + rest);
      assert s[p..p + |u|] == u;
      MessagesOfUnits(pre + u, us[1..], rest, next);
    }
  }

  // ---- big-endian messages ----

  // An in-cap big-endian message, read as little-endian, either has no header fields at all or
  // declares more of them than it has bytes.
  lemma BigEndianFieldsUnreadable(m: seq<Byte>)
    requires HDR_SIZE <= |m| <= CAP
    requires Total(m) == |m| && m[0] == BIG
    ensures Le32(m, 12) == 0 || HDR_SIZE + Le32(m, 12) > |m|
    ensures Le32(m, 12) == 0 <==> Be32(m, 12) == 0
  {
    var f := Be32(m, 12);
    assert f <= CAP;
    assert m[12] == 0 && m[13] == 0;
  }
}
