// Which message answers a call: the rule the reply loop applies, on the message alone.
module Replies {
  import opened Bytes
  import opened Framing
  import opened Wire

  // The value of a field of type `u`, and of a string field.
  function U32Of(m: seq<Byte>, code: int): (v: Option<U32>) {
    var o := Lookup(Header(m), code);
    if o > 0 && o + 4 <= |m| then Some(Le32(m, o)) else None
  }

  function StrOf(m: seq<Byte>, code: int): (v: Option<seq<Byte>>) {
    var o := Lookup(Header(m), code);
    if o >= 0 && o + 4 <= |m| && o + 4 + Le32(m, o) + 1 <= |m| then Some(m[o + 4..o + 4 + Le32(m, o)]) else None
  }

  // Addressed to `uniq`, or to nobody. Before we have a name, anything is.
  predicate AddressedTo(m: seq<Byte>, uniq: seq<Byte>) {
    uniq == [] || Lookup(Header(m), F_DESTINATION) == NOT_FOUND || StrOf(m, F_DESTINATION) == Some(uniq)
  }

  // The message answers the request with this serial: its whole header is valid, it says so, it is a
  // return or an error, it is addressed to us or to nobody, and its first byte arrived after
  // everything received before the request was sent.
  ghost predicate Answers(i: Item, serial: int, watermark: nat, uniq: seq<Byte>) {
    && HDR_SIZE <= |i.bytes|
    && ValidHeader(i.bytes)
    && U32Of(i.bytes, F_REPLY_SERIAL) == Some(serial)
    && i.pos >= watermark
    && AddressedTo(i.bytes, uniq)
    && i.bytes[1] in {TYPE_RETURN, TYPE_ERROR}
  }

  ghost predicate NoneAnswer(ms: seq<Item>, serial: int, watermark: nat, uniq: seq<Byte>) {
    forall i | i in ms :: !Answers(i, serial, watermark, uniq)
  }

  // Message `k` of `ms` is the first from `from` on that answers.
  ghost predicate FirstAnswer(ms: seq<Item>, from: nat, k: int, serial: int, watermark: nat, uniq: seq<Byte>) {
    && from <= k < |ms| && Answers(ms[k], serial, watermark, uniq)
    && NoneAnswer(ms[from..k], serial, watermark, uniq)
  }

  // No big-endian message is ever taken for a reply, whatever it says in its own byte order.
  lemma BigEndianNeverAnswers(i: Item, serial: int, watermark: nat, uniq: seq<Byte>)
    requires HDR_SIZE <= |i.bytes| <= CAP && Total(i.bytes) == |i.bytes| && i.bytes[0] == BIG
    ensures !Answers(i, serial, watermark, uniq)
  {
    hide Total, Le32, Be32;
    var m := i.bytes;
    BigEndianFieldsUnreadable(m);
    if Le32(m, 12) == 0 {
      assert Fields(m, HDR_SIZE, HDR_SIZE).fields == [];
      assert Lookup(Header(m), F_REPLY_SERIAL) == NOT_FOUND;
    }
  }

  // In an accepted header, REPLY_SERIAL and UNIX_FDS are read inside the message.
  lemma U32Inside(m: seq<Byte>, code: int)
    requires ValidHeader(m) && FieldType(code) == SIG_U
    ensures var o := Lookup(Header(m), code); o < 0 || (0 < o && o + 4 <= |m|)
  {
    hide Header, Le32, FieldOk;
    LookupInWalk(Header(m), code);
    HeaderInBounds(m);
    HeaderPastFront(m);
    var o := Lookup(Header(m), code);
    if o >= 0 {
      var f :| f in Header(m).fields && f.code == code && f.vo == o;
      assert Sits(m, f);
    }
  }

  lemma HeaderPastFront(m: seq<Byte>)
    ensures forall f | f in Header(m).fields :: HDR_SIZE < f.vo
  {
    hide Fields;
    if |m| >= HDR_SIZE && HDR_SIZE + Le32(m, 12) <= |m| {
      FieldsInBounds(m, HDR_SIZE + Le32(m, 12), HDR_SIZE);
    }
  }

  lemma FoundPastFront(m: seq<Byte>, code: int)
    ensures Lookup(Header(m), code) < 0 || Lookup(Header(m), code) > HDR_SIZE
  {
    hide Header;
    LookupInWalk(Header(m), code);
    HeaderPastFront(m);
  }

  // ---- TakeDevice's reply ----

  // The text of a signature field.
  function SigTextOf(m: seq<Byte>, code: int): (v: Option<seq<Byte>>) {
    var o := Lookup(Header(m), code);
    if o >= 0 && o + 1 <= |m| && o + 1 + m[o] + 1 <= |m| then Some(m[o + 1..o + 1 + m[o]]) else None
  }

  // How many descriptors the message says it carries.
  function DeclaredFds(m: seq<Byte>): (n: nat) {
    match U32Of(m, F_UNIX_FDS)
    case Some(n) => n
    case None => 0
  }

  // The body `hb` as the decoder's cursor reads it: an index into the descriptors, and a flag.
  function HbBody(m: seq<Byte>): (r: (int, int))
    requires |m| >= HDR_SIZE
  {
    var (idx, c) := ReadU32(m, BodyCursor(m, |m|));
    (idx, ReadBool(m, c).0)
  }

  // The reply is a (hb), and it carries exactly the descriptors it says, all of which arrived.
  ghost predicate TakeReplyOk(m: seq<Byte>, hb: seq<Byte>, arrived: nat, lost: bool)
    requires |m| >= HDR_SIZE
  {
    && SigTextOf(m, F_SIGNATURE) == Some(hb)
    && DeclaredFds(m) == arrived
    && !lost
    && HbBody(m).0 >= 0 && HbBody(m).1 >= 0
  }
}
