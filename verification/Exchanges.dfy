// What the messages on either side of a call mean, as a reader of their bytes sees them: which encoded
// message answers a call, what a TakeDevice asks for and what its reply hands out, and what name Hello gives.
// Codes, types and texts are written out as the D-Bus Specification and logind's interface have them.
module Exchanges {
  import opened Bytes
  import opened Framing
  import opened Wire
  import opened Encoding
  import opened Replies

  // A message that can be encoded, with no field twice.
  ghost predicate Encodable(kind: int, flags: int, sn: int, fs: seq<FieldVal>, bs: seq<BodyVal>) {
    && (forall f | f in fs :: WellTyped(f)) && (forall b | b in bs :: InRange(b))
    && |Message(kind, flags, sn, fs, bs)| <= U32_MAX
    && forall j, k | 0 <= j < k < |fs| :: fs[j].code != fs[k].code
  }

  // ---- fields by code ----

  // The header read back, field by field.
  ghost predicate ReadBack(m: seq<Byte>, fs: seq<FieldVal>) {
    && Header(m).ok && Agree(m, Header(m).fields, fs)
    && (forall f | f in fs :: WellTyped(f))
    && forall j, k | 0 <= j < k < |fs| :: fs[j].code != fs[k].code
  }

  lemma EncodedReadsBack(kind: int, flags: int, sn: int, fs: seq<FieldVal>, bs: seq<BodyVal>)
    requires Encodable(kind, flags, sn, fs, bs)
    ensures var m := Message(kind, flags, sn, fs, bs);
      && |m| >= 16 && m[1] == kind % 256 && Total(m) == |m| && Le32(m, 8) == sn % 0x1_0000_0000
      && ReadBack(m, fs) && ReadsAll(m, BodyCursor(m, |m|), bs, Cursor(|m|, |m|))
  {
    hide Message, Header, Agree, ReadsAll, BodyCursor, WellTyped, InRange, Total;
    RoundTrip(kind, flags, sn, fs, bs);
    TotalFaults(Message(kind, flags, sn, fs, bs));
  }

  lemma CodeOf(m: seq<Byte>, fs: seq<FieldVal>, i: nat)
    requires ReadBack(m, fs) && i < |fs|
    ensures Sits(m, Header(m).fields[i]) && Decoded(m, Header(m).fields[i]) == Some(fs[i])
    ensures Lookup(Header(m), fs[i].code) == Header(m).fields[i].vo > 16
  {
    hide Header, Sits, Decoded, Lookup, WellTyped;
    FindsEachField(m, Header(m), fs, i);
    HeaderPastFront(m);
    assert Header(m).fields[i] in Header(m).fields;
  }

  lemma NoCode(m: seq<Byte>, fs: seq<FieldVal>, code: int)
    requires ReadBack(m, fs) && forall f | f in fs :: f.code != code
    ensures Lookup(Header(m), code) == NOT_FOUND
  {
    hide Header, Sits, WellTyped;
    LookupInWalk(Header(m), code);
    if Lookup(Header(m), code) >= 0 {
      var w :| w in Header(m).fields && w.code == code;
      var i :| 0 <= i < |Header(m).fields| && Header(m).fields[i] == w;
      DecodedCode(m, w, fs[i]);
    }
  }

  lemma DecodedCode(m: seq<Byte>, w: Field, f: FieldVal)
    requires Sits(m, w) && Decoded(m, w) == Some(f)
    ensures w.code == f.code
  {
    hide Sits, Le32;
  }

  // A u32 field is found by its code, with its value, and not when it is not there.
  lemma U32Found(m: seq<Byte>, fs: seq<FieldVal>, code: Byte)
    requires ReadBack(m, fs) && FieldType(code) == 'u' as int
    ensures forall n: U32 :: U32Of(m, code) == Some(n) <==> U32Field(code, n) in fs
    ensures U32Of(m, code) == None <==> forall f | f in fs :: f.code != code
  {
    hide Header, ReadBack, Lookup;
    if i :| 0 <= i < |fs| && fs[i].code == code {
      CodeOf(m, fs, i);
      U32Here(m, fs, i);
      OnlyOne(m, fs, i);
    } else {
      NoCode(m, fs, code);
    }
  }

  lemma U32Here(m: seq<Byte>, fs: seq<FieldVal>, i: nat)
    requires ReadBack(m, fs) && i < |fs| && FieldType(fs[i].code) == 'u' as int
    ensures fs[i].U32Field? && U32Of(m, fs[i].code) == Some(fs[i].num)
  {
    hide Header, Lookup, Le32;
    CodeOf(m, fs, i);
    assert fs[i] in fs;
  }

  // No other field has the code.
  lemma OnlyOne(m: seq<Byte>, fs: seq<FieldVal>, i: nat)
    requires ReadBack(m, fs) && i < |fs|
    ensures forall f | f in fs :: f.code == fs[i].code ==> f == fs[i]
  {
    hide Header, Agree, WellTyped;
    forall f | f in fs
      ensures f.code == fs[i].code ==> f == fs[i]
    {
      var j :| 0 <= j < |fs| && fs[j] == f;
    }
  }

  // And so is a string or path field, and a signature.
  lemma StrFound(m: seq<Byte>, fs: seq<FieldVal>, code: Byte)
    requires ReadBack(m, fs) && FieldType(code) in {'s' as int, 'o' as int}
    ensures forall s :: StrOf(m, code) == Some(s) <==> StrField(code, FieldType(code), s) in fs
    ensures Lookup(Header(m), code) == NOT_FOUND <==> forall f | f in fs :: f.code != code
  {
    hide Header, ReadBack, Lookup;
    if i :| 0 <= i < |fs| && fs[i].code == code {
      CodeOf(m, fs, i);
      StrHere(m, fs, i);
      OnlyOne(m, fs, i);
    } else {
      NoCode(m, fs, code);
    }
  }

  lemma StrHere(m: seq<Byte>, fs: seq<FieldVal>, i: nat)
    requires ReadBack(m, fs) && i < |fs| && FieldType(fs[i].code) in {'s' as int, 'o' as int}
    ensures fs[i].StrField? && fs[i].sig == FieldType(fs[i].code) && StrOf(m, fs[i].code) == Some(fs[i].str)
  {
    hide Header, Lookup, Le32;
    CodeOf(m, fs, i);
    assert fs[i] in fs;
  }

  lemma SigFound(m: seq<Byte>, fs: seq<FieldVal>)
    requires ReadBack(m, fs)
    ensures forall s :: SigTextOf(m, 8) == Some(s) <==> SigField(8, s) in fs
  {
    hide Header, ReadBack, Lookup;
    if i :| 0 <= i < |fs| && fs[i].code == 8 {
      CodeOf(m, fs, i);
      SigHere(m, fs, i);
      OnlyOne(m, fs, i);
    } else {
      NoCode(m, fs, 8);
    }
  }

  lemma SigHere(m: seq<Byte>, fs: seq<FieldVal>, i: nat)
    requires ReadBack(m, fs) && i < |fs| && fs[i].code == 8
    ensures fs[i].SigField? && SigTextOf(m, 8) == Some(fs[i].text)
  {
    hide Header, Lookup, Le32;
    CodeOf(m, fs, i);
    assert fs[i] in fs;
  }

  // ---- which message answers ----

  // A message answers a call exactly when its fields are all proper, it is a method return or an error, it
  // names the call's serial, it came after the call began, and it is addressed to us or to nobody.
  lemma EncodedAnswers(kind: Byte, flags: int, sn: int, fs: seq<FieldVal>, bs: seq<BodyVal>,
                       pos: nat, serial: U32, watermark: nat, uniq: seq<Byte>)
    requires Encodable(kind, flags, sn, fs, bs)
    ensures Answers(Item(pos, Message(kind, flags, sn, fs, bs)), serial, watermark, uniq)
        <==> && (forall f | f in fs :: Proper(f))
             && kind in {2, 3}
             && U32Field(5, serial) in fs
             && pos >= watermark
             && (uniq == [] || (forall f | f in fs :: f.code != 6) || StrField(6, 's' as int, uniq) in fs)
  {
    hide Message, Header, Lookup, Proper, ValidHeader, ReadBack, ReadsAll, WellTyped, InRange, Agree, U32Of, StrOf;
    var m := Message(kind, flags, sn, fs, bs);
    EncodedReadsBack(kind, flags, sn, fs, bs);
    EncodedIsValid(kind, flags, sn, fs, bs);
    U32Found(m, fs, 5);
    StrFound(m, fs, 6);
  }

  // The text an error reply's errno is read from.
  lemma EncodedErrorName(kind: int, flags: int, sn: int, fs: seq<FieldVal>, bs: seq<BodyVal>)
    requires Encodable(kind, flags, sn, fs, bs)
    ensures var m := Message(kind, flags, sn, fs, bs);
      forall name :: StrOf(m, 4) == Some(name) <==> StrField(4, 's' as int, name) in fs
  {
    hide Message, ReadBack, ReadsAll;
    EncodedReadsBack(kind, flags, sn, fs, bs);
    StrFound(Message(kind, flags, sn, fs, bs), fs, 4);
  }

  // ---- bodies ----

  lemma BodyOfTwo(m: seq<Byte>, c: Cursor, a: BodyVal, b: BodyVal, d: Cursor)
    requires c.end <= |m| && ReadsAll(m, c, [a, b], d)
    ensures exists e: Cursor :: e.end == c.end && ReadsAs(m, c, a, e) && ReadsAs(m, e, b, d)
  {
    hide ReadsAs;
    var e: Cursor :| e.end == c.end && ReadsAs(m, c, a, e) && ReadsAll(m, e, [a, b][1..], d);
    assert [a, b][1..] == [b];
    var g: Cursor :| g.end == e.end && ReadsAs(m, e, b, g) && ReadsAll(m, g, [b][1..], d);
    assert [b][1..] == [];
  }

  // ---- TakeDevice ----

  // The message asks logind for a device of a session: what any reader of its bytes finds in it.
  ghost predicate AsksForDevice(m: seq<Byte>, path: seq<Byte>, major: int, minor: int, serial: int) {
    && |m| >= 16 && Total(m) == |m| && m[1] == 1 && Le32(m, 8) == serial
    && StrOf(m, 1) == Some(path)
    && StrOf(m, 2) == Some(Ascii("org.freedesktop.login1.Session"))
    && StrOf(m, 3) == Some(Ascii("TakeDevice"))
    && StrOf(m, 6) == Some(Ascii("org.freedesktop.login1"))
    && SigTextOf(m, 8) == Some(Ascii("uu"))
    && var (first, c) := ReadU32(m, BodyCursor(m, |m|));
    && first == major
    && var (second, d) := ReadU32(m, c);
    && second == minor && d.at == d.end == |m|
  }

  // The request as it is encoded.
  function TakeDeviceFields(path: seq<Byte>): (fs: seq<FieldVal>) {
    [StrField(1, 'o' as int, path), StrField(3, 's' as int, Ascii("TakeDevice")),
     StrField(2, 's' as int, Ascii("org.freedesktop.login1.Session")),
     StrField(6, 's' as int, Ascii("org.freedesktop.login1")), SigField(8, Ascii("uu"))]
  }

  function TakeDeviceRequest(path: seq<Byte>, major: int, minor: int, serial: int): (m: seq<Byte>) {
    Message(1, 0, serial, TakeDeviceFields(path), [U32Val(major), U32Val(minor)])
  }

  lemma EncodedAsks(path: seq<Byte>, major: U32, minor: U32, serial: U32)
    requires |TakeDeviceRequest(path, major, minor, serial)| <= U32_MAX
    ensures AsksForDevice(TakeDeviceRequest(path, major, minor, serial), path, major, minor, serial)
  {
    hide Message, Ascii, ReadsAll, ReadBack, StrOf, SigTextOf, BodyCursor, ReadU32, Total;
    var fs, bs := TakeDeviceFields(path), [U32Val(major), U32Val(minor)];
    var m := Message(1, 0, serial, fs, bs);
    assert Encodable(1, 0, serial, fs, bs);
    EncodedReadsBack(1, 0, serial, fs, bs);
    StrHere(m, fs, 0);
    StrHere(m, fs, 1);
    StrHere(m, fs, 2);
    StrHere(m, fs, 3);
    SigHere(m, fs, 4);
    TwoWords(m, BodyCursor(m, |m|), major, minor);
  }

  lemma TwoWords(m: seq<Byte>, c: Cursor, a: int, b: int)
    requires c.end <= |m| && ReadsAll(m, c, [U32Val(a), U32Val(b)], Cursor(|m|, |m|))
    ensures var (first, d) := ReadU32(m, c);
      && first == a && d.end <= |m|
      && var (second, e) := ReadU32(m, d);
      && second == b && e.at == e.end == |m|
  {
    hide ReadU32;
    BodyOfTwo(m, c, U32Val(a), U32Val(b), Cursor(|m|, |m|));
  }

  // A reply's body of an index and a flag is read as that index and that flag.
  lemma EncodedHb(kind: int, flags: int, sn: int, fs: seq<FieldVal>, index: U32, inactive: bool)
    requires Encodable(kind, flags, sn, fs, [U32Val(index), BoolVal(inactive)])
    ensures var m := Message(kind, flags, sn, fs, [U32Val(index), BoolVal(inactive)]);
      |m| >= 16 && HbBody(m) == (index, if inactive then 1 else 0)
  {
    hide Message, ReadsAll, ReadBack, BodyCursor, ReadU32, Total, WellTyped;
    var bs := [U32Val(index), BoolVal(inactive)];
    var m := Message(kind, flags, sn, fs, bs);
    EncodedReadsBack(kind, flags, sn, fs, bs);
    BodyOfTwo(m, BodyCursor(m, |m|), bs[0], bs[1], Cursor(|m|, |m|));
  }

  // Such a reply is accepted exactly when its signature is `hb`, it declares as many descriptors as arrived, none
  // when it does not say, and none was dropped.
  lemma EncodedTakeReply(kind: int, flags: int, sn: int, fs: seq<FieldVal>, index: U32, inactive: bool,
                         arrived: nat, lost: bool)
    requires Encodable(kind, flags, sn, fs, [U32Val(index), BoolVal(inactive)])
    ensures var m := Message(kind, flags, sn, fs, [U32Val(index), BoolVal(inactive)]);
      && |m| >= 16
      && (TakeReplyOk(m, Ascii("hb"), arrived, lost)
          <==> && SigField(8, ['h' as int, 'b' as int]) in fs && !lost
               && if arrived == 0 then (forall f | f in fs :: f.code == 9 ==> f == U32Field(9, 0))
                  else U32Field(9, arrived) in fs)
  {
    hide Message, ReadBack, ReadsAll, BodyCursor, ReadU32, Total, HbBody, SigTextOf, U32Of, WellTyped;
    var m := Message(kind, flags, sn, fs, [U32Val(index), BoolVal(inactive)]);
    EncodedReadsBack(kind, flags, sn, fs, [U32Val(index), BoolVal(inactive)]);
    EncodedHb(kind, flags, sn, fs, index, inactive);
    SigFound(m, fs);
    U32Found(m, fs, 9);
    assert Ascii("hb") == ['h' as int, 'b' as int];
    if i :| 0 <= i < |fs| && fs[i].code == 9 {
      OnlyOne(m, fs, i);
      U32Here(m, fs, i);
    }
  }

  // ---- Hello ----

  // The message asks the bus for a name.
  ghost predicate AsksForName(m: seq<Byte>, serial: int) {
    && |m| >= 16 && Total(m) == |m| && m[1] == 1 && Le32(m, 8) == serial
    && StrOf(m, 1) == Some(Ascii("/org/freedesktop/DBus"))
    && StrOf(m, 2) == Some(Ascii("org.freedesktop.DBus"))
    && StrOf(m, 3) == Some(Ascii("Hello"))
    && StrOf(m, 6) == Some(Ascii("org.freedesktop.DBus"))
    && BodyCursor(m, |m|) == Cursor(|m|, |m|)
  }

  function HelloFields(): (fs: seq<FieldVal>) {
    [StrField(1, 'o' as int, Ascii("/org/freedesktop/DBus")), StrField(3, 's' as int, Ascii("Hello")),
     StrField(2, 's' as int, Ascii("org.freedesktop.DBus")), StrField(6, 's' as int, Ascii("org.freedesktop.DBus"))]
  }

  function HelloRequest(serial: int): (m: seq<Byte>) {
    Message(1, 0, serial, HelloFields(), [])
  }

  lemma EncodedHello(serial: U32)
    requires |HelloRequest(serial)| <= U32_MAX
    ensures AsksForName(HelloRequest(serial), serial)
  {
    hide Message, Ascii, ReadBack, StrOf, BodyCursor, Total;
    var fs := HelloFields();
    var m := Message(1, 0, serial, fs, []);
    assert Encodable(1, 0, serial, fs, []);
    EncodedReadsBack(1, 0, serial, fs, []);
    StrHere(m, fs, 0);
    StrHere(m, fs, 1);
    StrHere(m, fs, 2);
    StrHere(m, fs, 3);
  }

  // A reply's string body is read as that string.
  lemma EncodedString(kind: int, flags: int, sn: int, fs: seq<FieldVal>, text: seq<Byte>)
    requires Encodable(kind, flags, sn, fs, [StrVal(text)])
    ensures var m := Message(kind, flags, sn, fs, [StrVal(text)]);
      && |m| >= 16
      && var (n, ptr, _) := ReadStr(m, BodyCursor(m, |m|));
      && n == |text| && ptr + n <= |m| && m[ptr..ptr + n] == text
  {
    hide Message, ReadBack, BodyCursor, Total, WellTyped;
    var m := Message(kind, flags, sn, fs, [StrVal(text)]);
    EncodedReadsBack(kind, flags, sn, fs, [StrVal(text)]);
    OneString(m, BodyCursor(m, |m|), text);
  }

  lemma OneString(m: seq<Byte>, c: Cursor, text: seq<Byte>)
    requires c.end <= |m| && ReadsAll(m, c, [StrVal(text)], Cursor(|m|, |m|))
    ensures var (n, ptr, _) := ReadStr(m, c); n == |text| && ptr + n <= |m| && m[ptr..ptr + n] == text
  {
    hide ReadStr;
    var bs := [StrVal(text)];
    var e: Cursor :| e.end == c.end && ReadsAs(m, c, bs[0], e) && ReadsAll(m, e, bs[1..], Cursor(|m|, |m|));
  }

  // A word is a boolean only when it is 0 or 1.
  lemma BoolWords(m: seq<Byte>, at: nat, end: nat)
    requires at % 4 == 0 && at + 4 <= end <= |m|
    ensures ReadBool(m, Cursor(at, end)).0 == if Le32(m, at) in {0, 1} then Le32(m, at) else -1201
  {
    hide Le32;
  }
}
