// The requests against the bytes of a captured session: what the encoder's specification gives for Hello and
// for TakeDevice, byte for byte, and what is decided on the server's captured SASL answer.
module Captures {
  import opened Bytes
  import opened Framing
  import opened Wire
  import opened Encoding
  import opened Exchanges
  import opened Auth

  // A short string field written at `at`: `pad` zeros, its code and type, its length in one byte and three zeros,
  // its text and a zero.
  lemma StrFieldBytes(at: nat, pad: nat, code: Byte, sig: Byte, text: seq<Byte>)
    requires |text| < 256 && pad < 8 && (at + pad) % 8 == 0
    ensures FieldBytes(at, StrField(code, sig, text)) == Zeros(pad) + [code, 1, sig, 0, |text|, 0, 0, 0] + text + [0]
  {
    assert Align(at, 8) == at + pad;
    ByteOrder(|text|);
    assert [code, 1, sig, 0] + ([|text|, 0, 0, 0] + text + [0]) == [code, 1, sig, 0, |text|, 0, 0, 0] + text + [0];
  }

  lemma SigFieldBytes(at: nat, pad: nat, text: seq<Byte>)
    requires |text| < 256 && pad < 8 && (at + pad) % 8 == 0
    ensures FieldBytes(at, SigField(8, text)) == Zeros(pad) + [8, 1, 'g' as int, 0, |text|] + text + [0]
  {
    assert Align(at, 8) == at + pad;
    assert [8, 1, 'g' as int, 0] + ([|text|] + text + [0]) == [8, 1, 'g' as int, 0, |text|] + text + [0];
  }

  // One field in front of others.
  lemma FieldsCons(at: nat, f: FieldVal, fs: seq<FieldVal>, b: seq<Byte>, next: nat, rest: seq<Byte>)
    requires FieldBytes(at, f) == b && next == at + |b| && FieldsBytes(next, fs) == rest
    ensures FieldsBytes(at, [f] + fs) == b + rest
  {
    hide FieldBytes, Align;
    assert ([f] + fs)[1..] == fs;
  }

  lemma LastField(at: nat, f: FieldVal, b: seq<Byte>)
    requires FieldBytes(at, f) == b
    ensures FieldsBytes(at, [f]) == b
  {
    hide FieldBytes, Align;
    assert [f][1..] == [] && b + [] == b;
  }

  lemma ZerosOf()
    ensures Zeros(0) == [] && Zeros(1) == [0] && Zeros(2) == [0, 0] && Zeros(3) == [0, 0, 0]
    ensures Zeros(4) == [0, 0, 0, 0] && Zeros(5) == [0, 0, 0, 0, 0]
  {
  }

  // ---- Hello ----

  const PATH := [1, 1, 'o' as int, 0, 21, 0, 0, 0] + Ascii("/org/freedesktop/DBus") + [0]
  const MEMBER := [0, 0] + [3, 1, 's' as int, 0, 5, 0, 0, 0] + Ascii("Hello") + [0]
  const INTERFACE := [0, 0] + [2, 1, 's' as int, 0, 20, 0, 0, 0] + Ascii("org.freedesktop.DBus") + [0]
  const DESTINATION := [0, 0, 0] + [6, 1, 's' as int, 0, 20, 0, 0, 0] + Ascii("org.freedesktop.DBus") + [0]

  lemma HelloFieldsBytes()
    ensures FieldsBytes(16, HelloFields()) == PATH + (MEMBER + (INTERFACE + DESTINATION))
  {
    hide FieldBytes, Ascii, Zeros, FieldsBytes;
    ZerosOf();
    var path, member, bus := Ascii("/org/freedesktop/DBus"), Ascii("Hello"), Ascii("org.freedesktop.DBus");
    var fs := HelloFields();
    StrFieldBytes(16, 0, 1, 'o' as int, path);
    StrFieldBytes(46, 2, 3, 's' as int, member);
    StrFieldBytes(62, 2, 2, 's' as int, bus);
    StrFieldBytes(93, 3, 6, 's' as int, bus);
    LastField(93, fs[3], DESTINATION);
    FieldsCons(62, fs[2], [fs[3]], INTERFACE, 93, DESTINATION);
    assert fs[2..] == [fs[2]] + [fs[3]];
    FieldsCons(46, fs[1], fs[2..], MEMBER, 62, INTERFACE + DESTINATION);
    assert fs[1..] == [fs[1]] + fs[2..];
    FieldsCons(16, fs[0], fs[1..], PATH, 46, MEMBER + (INTERFACE + DESTINATION));
    assert fs == [fs[0]] + fs[1..];
  }

  // The first message of the session: 128 bytes, the length of the fields being 109 without the last padding.
  lemma CapturedHello()
    ensures HelloRequest(1)
         == ['l' as int, 1, 0, 1, 0, 0, 0, 0, 1, 0, 0, 0, 109, 0, 0, 0]
            + (PATH + (MEMBER + (INTERFACE + DESTINATION))) + [0, 0, 0]
    ensures |HelloRequest(1)| == 128
  {
    hide Ascii, Zeros, FieldsBytes;
    ZerosOf();
    HelloFieldsBytes();
    ByteOrder(0);
    ByteOrder(1);
    ByteOrder(109);
  }

  // ---- TakeDevice ----

  const SESSION := [1, 1, 'o' as int, 0, 35, 0, 0, 0] + Ascii("/org/freedesktop/login1/session/_32") + [0]
  const TAKE := [0, 0, 0, 0] + [3, 1, 's' as int, 0, 10, 0, 0, 0] + Ascii("TakeDevice") + [0]
  const OF_SESSION := [0, 0, 0, 0, 0] + [2, 1, 's' as int, 0, 30, 0, 0, 0]
                      + Ascii("org.freedesktop.login1.Session") + [0]
  const TO_LOGIND := [0] + [6, 1, 's' as int, 0, 22, 0, 0, 0] + Ascii("org.freedesktop.login1") + [0]
  const TWO_WORDS := [0] + [8, 1, 'g' as int, 0, 2] + Ascii("uu") + [0]

  lemma TakeFieldsBytes()
    ensures FieldsBytes(16, TakeDeviceFields(Ascii("/org/freedesktop/login1/session/_32")))
         == SESSION + (TAKE + (OF_SESSION + (TO_LOGIND + TWO_WORDS)))
  {
    hide FieldBytes, Ascii, Zeros, FieldsBytes;
    ZerosOf();
    var fs := TakeDeviceFields(Ascii("/org/freedesktop/login1/session/_32"));
    StrFieldBytes(16, 0, 1, 'o' as int, fs[0].str);
    StrFieldBytes(60, 4, 3, 's' as int, fs[1].str);
    StrFieldBytes(83, 5, 2, 's' as int, fs[2].str);
    StrFieldBytes(127, 1, 6, 's' as int, fs[3].str);
    SigFieldBytes(159, 1, fs[4].text);
    LastField(159, fs[4], TWO_WORDS);
    FieldsCons(127, fs[3], [fs[4]], TO_LOGIND, 159, TWO_WORDS);
    assert fs[3..] == [fs[3]] + [fs[4]];
    FieldsCons(83, fs[2], fs[3..], OF_SESSION, 127, TO_LOGIND + TWO_WORDS);
    assert fs[2..] == [fs[2]] + fs[3..];
    FieldsCons(60, fs[1], fs[2..], TAKE, 83, OF_SESSION + (TO_LOGIND + TWO_WORDS));
    assert fs[1..] == [fs[1]] + fs[2..];
    FieldsCons(16, fs[0], fs[1..], SESSION, 60, TAKE + (OF_SESSION + (TO_LOGIND + TWO_WORDS)));
    assert fs == [fs[0]] + fs[1..];
  }

  // The request for device 226:1 with serial 4: 176 bytes, the last eight being the two numbers, in that order.
  lemma CapturedTakeDevice()
    ensures var m := TakeDeviceRequest(Ascii("/org/freedesktop/login1/session/_32"), 226, 1, 4);
      && m == ['l' as int, 1, 0, 1, 8, 0, 0, 0, 4, 0, 0, 0, 152, 0, 0, 0]
              + (SESSION + (TAKE + (OF_SESSION + (TO_LOGIND + TWO_WORDS)))) + [226, 0, 0, 0, 1, 0, 0, 0]
      && |m| == 176
  {
    hide Ascii, Zeros, FieldsBytes, BodyBytes;
    ZerosOf();
    TakeFieldsBytes();
    WordsBytes(168, 226, 1);
    ByteOrder(8);
    ByteOrder(4);
    ByteOrder(152);
  }

  // Two words, one after the other.
  lemma WordsBytes(at: nat, a: Byte, b: Byte)
    requires at % 4 == 0
    ensures BodyBytes(at, [U32Val(a), U32Val(b)]) == [a, 0, 0, 0, b, 0, 0, 0]
  {
    ByteOrder(a);
    ByteOrder(b);
    assert ItemBytes(at, U32Val(a)) == [a, 0, 0, 0] && ItemBytes(at + 4, U32Val(b)) == [b, 0, 0, 0];
    assert [U32Val(a), U32Val(b)][1..] == [U32Val(b)] && [U32Val(b)][1..] == [];
    assert BodyBytes(at + 4, [U32Val(b)]) == [b, 0, 0, 0] + BodyBytes(at + 8, []);
  }

  // ---- the server's SASL answer ----

  // DATA, OK with its 32 digits, and the agreement: 58 bytes, all used, and decided on.
  lemma CapturedAnswer()
    ensures Decide(Ascii("DATA") + [13, 10] + (Ascii("OK ") + Ascii("0d2fd0e6568e7bb893d923844c184483") + [13, 10]
                   + Ascii("AGREE_UNIX_FD") + [13, 10] + []), false) == Decision(0, 58, true)
  {
    hide Decide, KindOf, LineEnd, Lines;
    var guid, first := Ascii("0d2fd0e6568e7bb893d923844c184483"), Ascii("DATA");
    var rest := Ascii("OK ") + guid + [13, 10] + Ascii("AGREE_UNIX_FD") + [13, 10] + [];
    Agreed(guid, []);
    Kinds(first);
    OneLine(first, rest);
    DecideLine(first + [13, 10] + rest, false);
  }
}
