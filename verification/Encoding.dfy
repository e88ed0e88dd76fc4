// How a sender lays a message out, and that the layout reads back: the encoder's specification and
// the round trip with the decoder's (module Wire).
module Encoding {
  import opened Bytes
  import opened Framing
  import opened Wire

  const MARSHAL_CAP := 4096

  // A header field as a caller gives it; `sig` of a string field is 's' or 'o'.
  datatype FieldVal =
    | StrField(code: Byte, sig: Byte, str: seq<Byte>)
    | U32Field(code: Byte, num: int)
    | SigField(code: Byte, text: seq<Byte>)

  datatype BodyVal =
    | U32Val(num: int)
    | BoolVal(flag: bool)
    | StrVal(str: seq<Byte>)

  function Zeros(n: nat): (s: seq<Byte>)
    ensures |s| == n
    ensures forall i | 0 <= i < n :: s[i] == 0
  {
    seq(n, _ => 0)
  }

  // The padding from `at` to a multiple of `a`.
  function Pad(at: nat, a: nat): (s: seq<Byte>)
    requires a in {1, 2, 4, 8}
    ensures |s| == Align(at, a) - at
  {
    Zeros(Align(at, a) - at)
  }

  function SigOf(f: FieldVal): (t: Byte) {
    match f
    case StrField(_, sig, _) => sig
    case U32Field(_, _) => SIG_U
    case SigField(_, _) => SIG_G
  }

  function StrBytes(s: seq<Byte>): (r: seq<Byte>)
    ensures |r| == |s| + 5
  {
    Le32Bytes(|s|) + s + [0]
  }

  function SigBytes(text: seq<Byte>): (r: seq<Byte>)
    ensures |r| == |text| + 2
  {
    [|text| % 256] + text + [0]
  }

  function ValueBytes(f: FieldVal): (s: seq<Byte>)
  {
    match f
    case StrField(_, _, str) => StrBytes(str)
    case U32Field(_, num) => Le32Bytes(num)
    case SigField(_, text) => SigBytes(text)
  }

  // A field written at offset `at` of its message: padding to 8, its code and signature, its value.
  function FieldBytes(at: nat, f: FieldVal): (s: seq<Byte>)
    ensures |s| >= 4
  {
    Pad(at, 8) + [f.code, 1, SigOf(f), 0] + ValueBytes(f)
  }

  function FieldsBytes(at: nat, fs: seq<FieldVal>): (s: seq<Byte>)
    decreases |fs|
  {
    if fs == [] then []
    else
      var b := FieldBytes(at, fs[0]);
      b + FieldsBytes(at + |b|, fs[1..])
  }

  function ItemBytes(at: nat, b: BodyVal): (s: seq<Byte>) {
    Pad(at, 4) +
    match b
    case U32Val(num) => Le32Bytes(num)
    case BoolVal(flag) => Le32Bytes(if flag then 1 else 0)
    case StrVal(str) => StrBytes(str)
  }

  function BodyBytes(at: nat, bs: seq<BodyVal>): (s: seq<Byte>)
    decreases |bs|
  {
    if bs == [] then []
    else
      var b := ItemBytes(at, bs[0]);
      b + BodyBytes(at + |b|, bs[1..])
  }

  function Fixed(mtype: int, flags: int, serial: int, blen: int, flen: int): (s: seq<Byte>)
    ensures |s| == HDR_SIZE
  {
    [LITTLE, mtype % 256, flags % 256, 1] + Le32Bytes(blen) + Le32Bytes(serial) + Le32Bytes(flen)
  }

  // A whole message. The lengths in its header exclude the padding before the body.
  function Message(mtype: int, flags: int, serial: int, fs: seq<FieldVal>, bs: seq<BodyVal>): (s: seq<Byte>) {
    var f := FieldsBytes(HDR_SIZE, fs);
    var p := Pad(HDR_SIZE + |f|, 8);
    var b := BodyBytes(HDR_SIZE + |f| + |p|, bs);
    Fixed(mtype, flags, serial, |b|, |f|) + f + p + b
  }

  lemma Assoc(a: seq<Byte>, b: seq<Byte>, c: seq<Byte>)
    ensures a + (b + c) == (a + b) + c
  {
  }

  lemma {:induction false} FieldsSnoc(at: nat, fs: seq<FieldVal>, f: FieldVal)
    ensures FieldsBytes(at, fs + [f])
         == FieldsBytes(at, fs) + FieldBytes(at + |FieldsBytes(at, fs)|, f)
    decreases |fs|
  {
    hide FieldBytes, Align;
    if fs == [] {
      assert [f][1..] == [];
      assert FieldsBytes(at, [f]) == FieldBytes(at, f) + [];
    } else {
      assert (fs + [f])[1..] == fs[1..] + [f];
      var b, gs := FieldBytes(at, fs[0]), fs[1..];
      var rest := FieldsBytes(at + |b|, gs);
      var last := FieldBytes(at + |b| + |rest|, f);
      FieldsSnoc(at + |b|, gs, f);
      assert FieldsBytes(at + |b|, gs + [f]) == rest + last;
      assert FieldsBytes(at, fs) == b + rest;
      assert FieldsBytes(at, fs + [f]) == b + (rest + last) by {
        assert (fs + [f])[0] == fs[0];
      }
      Assoc(b, rest, last);
    }
  }

  lemma {:induction false} BodySnoc(at: nat, bs: seq<BodyVal>, b: BodyVal)
    ensures BodyBytes(at, bs + [b])
         == BodyBytes(at, bs) + ItemBytes(at + |BodyBytes(at, bs)|, b)
    decreases |bs|
  {
    hide ItemBytes, Align;
    if bs == [] {
      assert [b][1..] == [];
      assert BodyBytes(at, [b]) == ItemBytes(at, b) + [];
    } else {
      assert (bs + [b])[1..] == bs[1..] + [b];
      BodySnoc(at + |ItemBytes(at, bs[0])|, bs[1..], b);
    }
  }

  // ---- reading it back ----

  // Defined fields have their defined type, a string field is a string or a path, a signature fits
  // its length byte.
  predicate WellTyped(f: FieldVal) {
    && (FieldType(f.code) != 0 ==> SigOf(f) == FieldType(f.code))
    && (f.StrField? ==> f.sig in {SIG_S, SIG_O})
    && (f.SigField? ==> |f.text| <= 255)
    && (f.U32Field? ==> 0 <= f.num <= U32_MAX)
  }

  predicate InRange(b: BodyVal) {
    b.U32Val? ==> 0 <= b.num <= U32_MAX
  }

  // The value of a header field of a message; a string or a signature ends in a NUL.
  function Decoded(m: seq<Byte>, f: Field): (v: Option<FieldVal>)
    requires Sits(m, f)
  {
    if f.sig in {SIG_S, SIG_O} && m[f.next - 1] == 0 then Some(StrField(f.code, f.sig, m[f.vo + 4..f.next - 1]))
    else if f.sig == SIG_U then Some(U32Field(f.code, Le32(m, f.vo)))
    else if f.sig == SIG_G && m[f.next - 1] == 0 then Some(SigField(f.code, m[f.vo + 1..f.next - 1]))
    else None
  }

  // `s` occurs in `m` at `at`.
  predicate At(m: seq<Byte>, at: nat, s: seq<Byte>) {
    at + |s| <= |m| && m[at..at + |s|] == s
  }

  lemma AtSplit(m: seq<Byte>, at: nat, s: seq<Byte>, t: seq<Byte>)
    requires At(m, at, s + t)
    ensures At(m, at, s) && At(m, at + |s|, t)
  {
    assert m[at..at + |s| + |t|] == s + t;
    assert m[at..at + |s|] == m[at..at + |s| + |t|][..|s|];
    assert m[at + |s|..at + |s| + |t|] == m[at..at + |s| + |t|][|s|..];
  }

  lemma U32At(m: seq<Byte>, at: nat, v: U32)
    requires At(m, at, Le32Bytes(v))
    ensures Le32(m, at) == v
  {
    Le32RoundTrip(v, m, at);
  }

  lemma StrAt(m: seq<Byte>, at: nat, s: seq<Byte>)
    requires At(m, at, StrBytes(s)) && |s| <= U32_MAX
    ensures at + |s| + 5 <= |m| && Le32(m, at) == |s| && m[at + 4..at + 4 + |s|] == s && m[at + 4 + |s|] == 0
  {
    assert StrBytes(s) == Le32Bytes(|s|) + (s + [0]);
    AtSplit(m, at, Le32Bytes(|s|), s + [0]);
    AtSplit(m, at + 4, s, [0]);
    assert m[at + 4 + |s|..at + 4 + |s| + 1][0] == 0;
    U32At(m, at, |s|);
  }

  lemma Aligned(at: nat)
    ensures Align(Align(at, 8) + 4, 4) == Align(at, 8) + 4
  {
    var q := (at + 7) / 8;
    assert (8 * q + 7) / 4 == 2 * q + 1;
  }

  // Where a field was written, its code and signature, then its value, are read.
  lemma FieldParts(m: seq<Byte>, at: nat, f: FieldVal)
    requires At(m, at, FieldBytes(at, f))
    ensures var a := Align(at, 8);
      && a + 4 <= |m| && m[a] == f.code && m[a + 1] == 1 && m[a + 2] == SigOf(f) && m[a + 3] == 0
      && At(m, a + 4, ValueBytes(f))
      && Align(a + 4, 4) == a + 4
      && at + |FieldBytes(at, f)| == a + 4 + |ValueBytes(f)|
  {
    hide ValueBytes, FieldType, SigOf;
    Aligned(at);
    hide Align;
    var a := Align(at, 8);
    var hdr := [f.code, 1, SigOf(f), 0];
    assert FieldBytes(at, f) == Pad(at, 8) + (hdr + ValueBytes(f));
    AtSplit(m, at, Pad(at, 8), hdr + ValueBytes(f));
    AtSplit(m, a, hdr, ValueBytes(f));
    var h := m[a..a + 4];
    assert m[a] == h[0] && m[a + 1] == h[1] && m[a + 2] == h[2] && m[a + 3] == h[3];
  }

  ghost predicate FieldReadsAs(m: seq<Byte>, end: nat, at: nat, f: FieldVal)
    requires end <= |m|
  {
    var r := FieldAt(m, end, Align(at, 8));
    r.Some? && r.value.next == at + |FieldBytes(at, f)| && Decoded(m, r.value) == Some(f)
  }

  // One field, read where it was written, is the field that was written.
  lemma FieldReads(m: seq<Byte>, end: nat, at: nat, f: FieldVal)
    requires WellTyped(f) && At(m, at, FieldBytes(at, f)) && at + |FieldBytes(at, f)| <= end <= |m| <= U32_MAX
    ensures FieldReadsAs(m, end, at, f)
  {
    hide FieldReadsAs;
    if f.StrField? {
      StrFieldReads(m, end, at, f);
    } else if f.U32Field? {
      U32FieldReads(m, end, at, f);
    } else {
      SigFieldReads(m, end, at, f);
    }
  }

  lemma StrFieldReads(m: seq<Byte>, end: nat, at: nat, f: FieldVal)
    requires f.StrField? && WellTyped(f)
    requires At(m, at, FieldBytes(at, f)) && at + |FieldBytes(at, f)| <= end <= |m| <= U32_MAX
    ensures FieldReadsAs(m, end, at, f)
  {
    hide FieldType, Le32, FieldBytes, At, Align, FieldAt, StrBytes;
    FieldParts(m, at, f);
    var a := Align(at, 8);
    StrAt(m, a + 4, f.str);
    FieldAtStr(m, end, a, |f.str|);
  }

  lemma FieldAtStr(m: seq<Byte>, end: nat, a: nat, n: nat)
    requires a + 4 + n + 5 <= end <= |m| && m[a + 1] == 1 && m[a + 3] == 0 && m[a + 2] in {SIG_S, SIG_O}
    requires Align(a + 4, 4) == a + 4 && Le32(m, a + 4) == n
    requires FieldType(m[a]) != 0 ==> m[a + 2] == FieldType(m[a])
    ensures FieldAt(m, end, a) == Some(Field(m[a], m[a + 2], a + 4, a + 4 + n + 5))
  {
    hide FieldType, Le32, Align, BasicSize;
  }

  lemma U32FieldReads(m: seq<Byte>, end: nat, at: nat, f: FieldVal)
    requires f.U32Field? && WellTyped(f)
    requires At(m, at, FieldBytes(at, f)) && at + |FieldBytes(at, f)| <= end <= |m| <= U32_MAX
    ensures FieldReadsAs(m, end, at, f)
  {
    hide FieldType, Le32, FieldBytes, At, Align, Le32Bytes;
    FieldParts(m, at, f);
    var a := Align(at, 8);
    U32At(m, a + 4, f.num);
    assert FieldAt(m, end, a) == Some(Field(f.code, SIG_U, a + 4, a + 8));
  }

  lemma SigFieldReads(m: seq<Byte>, end: nat, at: nat, f: FieldVal)
    requires f.SigField? && WellTyped(f)
    requires At(m, at, FieldBytes(at, f)) && at + |FieldBytes(at, f)| <= end <= |m| <= U32_MAX
    ensures FieldReadsAs(m, end, at, f)
  {
    hide FieldType, Le32, FieldBytes, At, Align, FieldAt, Le32Bytes, SigBytes;
    FieldParts(m, at, f);
    var a := Align(at, 8);
    SigAt(m, a + 4, f.text);
    FieldAtSig(m, end, a, |f.text|);
  }

  lemma FieldAtSig(m: seq<Byte>, end: nat, a: nat, n: nat)
    requires a + 4 + n + 2 <= end <= |m| && m[a + 1] == 1 && m[a + 3] == 0 && m[a + 2] == SIG_G && m[a + 4] == n
    requires FieldType(m[a]) != 0 ==> m[a + 2] == FieldType(m[a])
    ensures FieldAt(m, end, a) == Some(Field(m[a], SIG_G, a + 4, a + 4 + n + 2))
  {
    hide FieldType, Le32, Align, BasicSize;
  }

  lemma SigAt(m: seq<Byte>, at: nat, text: seq<Byte>)
    requires |text| <= 255 && At(m, at, SigBytes(text))
    ensures at + |text| + 2 <= |m| && m[at] == |text| && m[at + 1..at + 1 + |text|] == text
      && m[at + 1 + |text|] == 0
  {
    assert SigBytes(text) == [|text|] + (text + [0]);
    AtSplit(m, at, [|text|], text + [0]);
    AtSplit(m, at + 1, text, [0]);
    assert m[at..at + 1][0] == |text|;
    assert m[at + 1 + |text|..at + 2 + |text|][0] == 0;
  }

  // The fields `ws` of `m` are `fs`: as many, in the same order, with the same values.
  ghost predicate Agree(m: seq<Byte>, ws: seq<Field>, fs: seq<FieldVal>) {
    |ws| == |fs| && forall i | 0 <= i < |fs| :: Sits(m, ws[i]) && Decoded(m, ws[i]) == Some(fs[i])
  }

  lemma AgreeCons(m: seq<Byte>, w: Field, ws: seq<Field>, f: FieldVal, fs: seq<FieldVal>)
    requires Sits(m, w) && Decoded(m, w) == Some(f) && Agree(m, ws, fs)
    ensures Agree(m, [w] + ws, [f] + fs)
  {
    hide Sits, Decoded;
  }

  // Every field array reads back whole.
  lemma {:induction false} FieldsRead(m: seq<Byte>, at: nat, fs: seq<FieldVal>)
    requires forall f | f in fs :: WellTyped(f)
    requires At(m, at, FieldsBytes(at, fs)) && |m| <= U32_MAX
    ensures at + |FieldsBytes(at, fs)| <= |m|
    ensures var w := Fields(m, at + |FieldsBytes(at, fs)|, at); w.ok && Agree(m, w.fields, fs)
    decreases |fs|
  {
    hide FieldAt, FieldBytes, Decoded, WellTyped, FieldType, Align, At, Agree, Sits, Fields, FieldReadsAs;
    var end := at + |FieldsBytes(at, fs)|;
    AtInside(m, at, FieldsBytes(at, fs));
    if fs == [] {
      AgreeNone(m);
      FieldsEnd(m, at);
    } else {
      var b := FieldBytes(at, fs[0]);
      AtSplit(m, at, b, FieldsBytes(at + |b|, fs[1..]));
      assert fs[0] in fs;
      FieldReads(m, end, at, fs[0]);
      FieldsRead(m, at + |b|, fs[1..]);
      var w := FieldsHead(m, end, at, fs[0]);
      AgreeCons(m, w, Fields(m, end, at + |b|).fields, fs[0], fs[1..]);
      assert [fs[0]] + fs[1..] == fs;
    }
  }

  lemma FieldsEnd(m: seq<Byte>, at: nat)
    requires at <= |m|
    ensures Fields(m, at, at) == Walk([], true)
  {
    hide FieldAt;
  }

  // The first field of an array that starts with the encoding of `f`.
  lemma FieldsHead(m: seq<Byte>, end: nat, at: nat, f: FieldVal) returns (w: Field)
    requires end <= |m| && FieldReadsAs(m, end, at, f)
    ensures Sits(m, w) && Decoded(m, w) == Some(f)
    ensures var rest := Fields(m, end, at + |FieldBytes(at, f)|);
      Fields(m, end, at) == Walk([w] + rest.fields, rest.ok)
  {
    hide FieldAt, FieldBytes, Decoded, Sits;
    w := FieldAt(m, end, Align(at, 8)).value;
  }

  lemma AgreeNone(m: seq<Byte>)
    ensures Agree(m, [], [])
  {
  }

  lemma AtInside(m: seq<Byte>, at: nat, s: seq<Byte>)
    requires At(m, at, s)
    ensures at + |s| <= |m|
  {
  }

  // ---- the body ----

  // Read one value of the kind of `b` and compare.
  ghost predicate ReadsAs(m: seq<Byte>, c: Cursor, b: BodyVal, d: Cursor)
    requires c.end <= |m|
  {
    match b
    case U32Val(num) => ReadU32(m, c) == (num, d)
    case BoolVal(flag) => ReadBool(m, c) == (if flag then 1 else 0, d)
    case StrVal(str) => ReadStr(m, c).0 == |str| && ReadStr(m, c).2 == d
                        && m[ReadStr(m, c).1..ReadStr(m, c).1 + |str|] == str
  }

  // Reading values of these kinds one after another from `c` gives these values and ends at `d`.
  ghost predicate ReadsAll(m: seq<Byte>, c: Cursor, bs: seq<BodyVal>, d: Cursor)
    requires c.end <= |m|
    decreases |bs|
  {
    if bs == [] then c == d
    else exists e: Cursor :: e.end == c.end && ReadsAs(m, c, bs[0], e) && ReadsAll(m, e, bs[1..], d)
  }

  lemma ItemReads(m: seq<Byte>, at: nat, b: BodyVal, end: nat)
    requires InRange(b) && At(m, at, ItemBytes(at, b)) && at + |ItemBytes(at, b)| <= end <= |m| <= U32_MAX
    ensures ReadsAs(m, Cursor(at, end), b, Cursor(at + |ItemBytes(at, b)|, end))
  {
    hide Le32;
    var v := ItemBytes(at, b)[|Pad(at, 4)|..];
    assert ItemBytes(at, b) == Pad(at, 4) + v;
    AtSplit(m, at, Pad(at, 4), v);
    match b
    case U32Val(num) =>
      assert v == Le32Bytes(num);
      U32At(m, Align(at, 4), num);
    case BoolVal(flag) =>
      assert v == Le32Bytes(if flag then 1 else 0);
      U32At(m, Align(at, 4), if flag then 1 else 0);
    case StrVal(str) =>
      assert v == StrBytes(str);
      StrAt(m, Align(at, 4), str);
  }

  lemma {:induction false} BodyReads(m: seq<Byte>, at: nat, bs: seq<BodyVal>, end: nat)
    requires forall b | b in bs :: InRange(b)
    requires At(m, at, BodyBytes(at, bs)) && end == at + |BodyBytes(at, bs)| && |m| <= U32_MAX
    ensures ReadsAll(m, Cursor(at, end), bs, Cursor(end, end))
    decreases |bs|
  {
    hide ItemBytes, ReadsAs;
    if bs != [] {
      var b := ItemBytes(at, bs[0]);
      AtSplit(m, at, b, BodyBytes(at + |b|, bs[1..]));
      assert bs[0] in bs;
      ItemReads(m, at, bs[0], end);
      BodyReads(m, at + |b|, bs[1..], end);
      var e := Cursor(at + |b|, end);
      assert e.end == end && ReadsAs(m, Cursor(at, end), bs[0], e);
    }
  }

  // ---- the round trip ----

  lemma MessageParts(mtype: int, flags: int, serial: int, fs: seq<FieldVal>, bs: seq<BodyVal>)
    requires |Message(mtype, flags, serial, fs, bs)| <= U32_MAX
    ensures var m := Message(mtype, flags, serial, fs, bs);
      var f := FieldsBytes(HDR_SIZE, fs);
      var o := Align(HDR_SIZE + |f|, 8);
      && |m| == o + |BodyBytes(o, bs)|
      && m[0] == LITTLE && m[1] == mtype % 256 && m[2] == flags % 256 && m[3] == 1
      && Le32(m, 4) == |m| - o && Le32(m, 8) == serial % 0x1_0000_0000 && Le32(m, 12) == |f|
      && At(m, HDR_SIZE, f) && At(m, o, BodyBytes(o, bs))
  {
    hide FieldsBytes, BodyBytes, Le32, Le32Bytes, Align, Pad;
    var m := Message(mtype, flags, serial, fs, bs);
    var f := FieldsBytes(HDR_SIZE, fs);
    var o := Align(HDR_SIZE + |f|, 8);
    var b := BodyBytes(o, bs);
    var h := Fixed(mtype, flags, serial, |b|, |f|);
    assert m[..HDR_SIZE] == h;
    assert m[4..8] == h[4..8] == Le32Bytes(|b|);
    assert m[8..12] == h[8..12] == Le32Bytes(serial);
    assert m[12..16] == h[12..16] == Le32Bytes(|f|);
    Le32RoundTrip(|b|, m, 4);
    Le32RoundTrip(serial, m, 8);
    Le32RoundTrip(|f|, m, 12);
  }

  // The framer reads the length of the encoding off its header; the decoder finds every field, with
  // its value, in any order; the body reads back in order, with nothing left over.
  lemma RoundTrip(mtype: int, flags: int, serial: int, fs: seq<FieldVal>, bs: seq<BodyVal>)
    requires (forall f | f in fs :: WellTyped(f)) && (forall b | b in bs :: InRange(b))
    requires |Message(mtype, flags, serial, fs, bs)| <= U32_MAX
    ensures var m := Message(mtype, flags, serial, fs, bs);
      && Total(m) == |m|
      && m[1] == mtype % 256
      && Le32(m, 8) == serial % 0x1_0000_0000
      && Header(m).ok && Agree(m, Header(m).fields, fs)
      && ReadsAll(m, BodyCursor(m, |m|), bs, Cursor(|m|, |m|))
  {
    hide FieldsBytes, BodyBytes, Le32, Message, Fields, Agree, ReadsAll;
    var m := Message(mtype, flags, serial, fs, bs);
    MessageParts(mtype, flags, serial, fs, bs);
    FieldsRead(m, HDR_SIZE, fs);
    BodyReads(m, Align(HDR_SIZE + |FieldsBytes(HDR_SIZE, fs)|, 8), bs, |m|);
  }

  // What the decoder asks of a field's value.
  predicate Proper(f: FieldVal) {
    && f.code != 0
    && (f.StrField? ==> NoNul(f.str) && (f.sig == SIG_O ==> IsPath(f.str)))
    && (f.SigField? ==> NoNul(f.text))
  }

  predicate NoneTwice(fs: seq<FieldVal>) {
    forall i, j | 0 <= i < j < |fs| :: FieldType(fs[i].code) != 0 ==> fs[i].code != fs[j].code
  }

  // The decoder accepts the encoding of exactly the headers whose values are proper and whose defined
  // codes are distinct.
  lemma EncodedIsValid(mtype: int, flags: int, serial: int, fs: seq<FieldVal>, bs: seq<BodyVal>)
    requires (forall f | f in fs :: WellTyped(f)) && (forall b | b in bs :: InRange(b))
    requires |Message(mtype, flags, serial, fs, bs)| <= U32_MAX
    ensures ValidHeader(Message(mtype, flags, serial, fs, bs)) <==> (forall f | f in fs :: Proper(f)) && NoneTwice(fs)
  {
    hide Message, Header, Decoded, Sits, FieldType, Proper, FieldOk, ReadsAll, BodyCursor, Total;
    var m := Message(mtype, flags, serial, fs, bs);
    RoundTrip(mtype, flags, serial, fs, bs);
    HeaderInBounds(m);
    var ws := Header(m).fields;
    forall i | 0 <= i < |fs|
      ensures FieldOk(m, ws[i]) <==> Proper(fs[i])
      ensures ws[i].code == fs[i].code
    {
      DecodedProper(m, ws[i], fs[i]);
    }
    assert (forall f | f in ws :: FieldOk(m, f)) <==> (forall i | 0 <= i < |ws| :: FieldOk(m, ws[i]));
    assert (forall f | f in fs :: Proper(f)) <==> (forall i | 0 <= i < |fs| :: Proper(fs[i]));
  }

  lemma DecodedProper(m: seq<Byte>, w: Field, f: FieldVal)
    requires Sits(m, w) && Decoded(m, w) == Some(f)
    ensures w.code == f.code && (FieldOk(m, w) <==> Proper(f))
  {
    hide NoNul, IsPath, Le32;
  }

  // With no code given twice, each field is found by its code.
  lemma FindsEachField(m: seq<Byte>, w: Walk, fs: seq<FieldVal>, i: nat)
    requires Agree(m, w.fields, fs)
    requires forall j, k | 0 <= j < k < |fs| :: fs[j].code != fs[k].code
    requires i < |fs|
    ensures Lookup(w, fs[i].code) == w.fields[i].vo
    decreases i
  {
    hide Le32, Sits, FieldType;
    if i > 0 {
      var w' := Walk(w.fields[1..], w.ok);
      assert fs[0].code == w.fields[0].code;
      FindsEachField(m, w', fs[1..], i - 1);
    }
  }
}
