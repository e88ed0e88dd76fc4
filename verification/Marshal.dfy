// The encoder: a write cursor over one fixed buffer, and a poison flag that, once set, stays set
// until the next message. The ghost fields are the message being built, whatever its length.
module Marshal {
  import opened Bytes
  import opened Framing
  import opened Wire
  import opened Encoding

  datatype Stage = InFields | InBody | Finished

  class Marshaller {
    const buf: array<Byte>
    var at: nat
    var fend: nat
    var bad: bool

    ghost var kind: (int, int, int)     // type, flags, serial
    ghost var fields: seq<FieldVal>
    ghost var values: seq<BodyVal>
    ghost var stage: Stage
    ghost var want: seq<Byte>           // everything written so far, as if there were room for it
    ghost var spoilt: bool              // a negative length, or a signature longer than 255

    // The cursor and the bytes before it are what has been written, unless it did not fit.
    ghost predicate Raw()
      reads this, buf
    {
      && buf.Length == MARSHAL_CAP
      && at <= MARSHAL_CAP
      && (bad <==> spoilt || |want| > MARSHAL_CAP)
      && (!bad ==> at == |want| && buf[..at] == want)
    }

    ghost predicate Valid()
      reads this, buf
    {
      && Raw()
      && (!spoilt && stage == InFields ==> want == Draft(kind, fields) && values == [])
      && (!spoilt && stage == InBody ==>
            want == Filled(kind, fields, values) && (!bad ==> fend == HDR_SIZE + |FieldsBytes(HDR_SIZE, fields)|))
      && (!spoilt && stage == Finished ==> want == Built())
    }

    // The message the calls since `Begin` describe.
    ghost function Built(): (m: seq<Byte>)
      reads this
    {
      Message(kind.0, kind.1, kind.2, fields, values)
    }

    constructor ()
      ensures Valid() && fresh(buf)
    {
      buf := new Byte[MARSHAL_CAP](_ => 0);
      at, fend, bad := 0, 0, true;
      kind, fields, values, stage, want, spoilt := (0, 0, 0), [], [], InFields, [], true;
    }

    // Is there room for `n` more bytes? If not, the message is poisoned.
    method Room(n: int) returns (ok: bool)
      modifies this`bad
      ensures ok <==> !old(bad) && n >= 0 && at + n <= 4096
      ensures bad == !ok
    {
      if bad {
        return false;
      }
      if n < 0 {
        bad := true;
        return false;
      }
      if at + n > MARSHAL_CAP {
        bad := true;
        return false;
      }
      return true;
    }

    method PadTo(a: nat)
      requires Raw() && a in {1, 2, 4, 8}
      modifies this`at, this`bad, this`want, buf
      ensures Raw() && want == old(want) + Pad(|old(want)|, a)
    {
      hide Align;
      ghost var w, p := want, Pad(|want|, a);
      var to := Align(at, a);
      var room := Room(to - at);
      want := want + p;
      if !room {
        return;
      }
      while at < to
        invariant |w| <= at <= to == |want|
        invariant buf[..at] == want[..at]
        modifies this`at, buf
      {
        buf[at] := 0;
        assert want[at] == p[at - |w|] == 0;
        at := at + 1;
        assert want[..at] == want[..at - 1] + [want[at - 1]];
      }
      assert want[..at] == want;
    }

    method PutByte(v: int)
      requires Raw()
      modifies this`at, this`bad, this`want, buf
      ensures Raw() && want == old(want) + [v % 256]
    {
      var room := Room(1);
      want := want + [v % 256];
      if !room {
        return;
      }
      buf[at] := v % 256;
      at := at + 1;
    }

    method PutU32(v: int)
      requires Raw()
      modifies this`at, this`bad, this`want, buf
      ensures Raw() && want == old(want) + Le32Bytes(v)
    {
      ghost var b := Le32Bytes(v);
      var room := Room(4);
      want := want + b;
      if !room {
        return;
      }
      buf[at] := v % 256;
      buf[at + 1] := v / 256 % 256;
      buf[at + 2] := v / 65536 % 256;
      buf[at + 3] := v / 16777216 % 256;
      at := at + 4;
    }

    method PutBytes(p: seq<Byte>, n: int)
      requires Raw() && n <= |p|
      modifies this`at, this`bad, this`want, this`spoilt, buf
      ensures Raw() && spoilt == (old(spoilt) || n < 0)
      ensures want == old(want) + (if n < 0 then [] else p[..n])
    {
      var room := Room(n);
      spoilt := spoilt || n < 0;
      want := want + if n < 0 then [] else p[..n];
      if !room {
        return;
      }
      var i := 0;
      while i < n
        invariant 0 <= i <= n
        invariant buf[..at] == old(buf[..at])
        invariant buf[at..at + i] == p[..i]
        modifies buf
      {
        buf[at + i] := p[i];
        assert buf[at..at + i + 1] == buf[at..at + i] + [p[i]];
        i := i + 1;
      }
      at := at + n;
      assert buf[..at] == old(buf[..at]) + p[..n];
    }

    // ---- the public operations, in the order a message is built ----

    method Begin(mtype: int, flags: int, serial: int)
      requires buf.Length == MARSHAL_CAP
      modifies this, buf
      ensures Valid() && stage == InFields && !bad && !spoilt
      ensures kind == (mtype, flags, serial) && fields == [] && values == []
    {
      hide Le32Bytes, Draft, Filled, Message;
      bad, at, want, spoilt := false, 0, [], false;
      PutFront(mtype, flags);
      PutU32(0);
      PutU32(serial);
      PutU32(0);
      fend := 0;
      kind, fields, values, stage := (mtype, flags, serial), [], [], InFields;
      DraftStart(kind);
    }

    method PutFront(mtype: int, flags: int)
      requires Raw() && want == []
      modifies this`at, this`bad, this`want, buf
      ensures Raw() && want == [LITTLE, mtype % 256, flags % 256, 1]
      ensures !old(bad) ==> !bad
    {
      PutByte(LITTLE);
      PutByte(mtype);
      PutByte(flags);
      PutByte(1);
    }

    // A length-prefixed, NUL-terminated string.
    method PutStr(str: seq<Byte>, len: int)
      requires Raw() && len <= |str|
      modifies this`at, this`bad, this`want, this`spoilt, buf
      ensures Raw() && spoilt == (old(spoilt) || len < 0)
      ensures len >= 0 ==> want == old(want) + StrBytes(str[..len])
    {
      hide Le32Bytes;
      PutU32(len);
      PutBytes(str, len);
      PutByte(0);
    }

    // What every field starts with: its code and its one-byte signature, NUL-terminated.
    method PutHead(code: int, sigch: int)
      requires Raw()
      modifies this`at, this`bad, this`want, buf
      ensures Raw() && want == old(want) + Pad(|old(want)|, 8) + [code % 256, 1, sigch % 256, 0]
    {
      PadTo(8);
      PutByte(code);
      PutByte(1);
      PutByte(sigch);
      PutByte(0);
    }

    // A string-shaped field: `len` bytes at `str`.
    method AddStr(code: int, sigch: int, str: seq<Byte>, len: int)
      requires Valid() && stage == InFields && len <= |str|
      modifies this`at, this`bad, this`want, this`spoilt, this`fields, buf
      ensures Valid() && spoilt == (old(spoilt) || len < 0)
      ensures fields == old(fields) + (if len < 0 then [] else [StrField(code % 256, sigch % 256, str[..len])])
    {
      hide Draft, Filled, Message, Align, Pad, Le32Bytes, StrBytes;
      ghost var w := want;
      PutHead(code, sigch);
      PadTo(4);
      PutStr(str, len);
      if len >= 0 {
        ghost var f := StrField(code % 256, sigch % 256, str[..len]);
        AlignedValue(|w|);
        assert want == w + FieldBytes(|w|, f);
        DraftSnoc(kind, fields, f);
        fields := fields + [f];
      }
    }

    method AddU32(code: int, val: int)
      requires Valid() && stage == InFields
      modifies this`at, this`bad, this`want, this`fields, buf
      ensures Valid() && fields == old(fields) + [U32Field(code % 256, val)]
    {
      hide Draft, Filled, Message, Align, Pad, Le32Bytes, StrBytes;
      ghost var w := want;
      PutHead(code, SIG_U);
      PadTo(4);
      PutU32(val);
      ghost var f := U32Field(code % 256, val);
      AlignedValue(|w|);
      assert want == w + FieldBytes(|w|, f);
      DraftSnoc(kind, fields, f);
      fields := fields + [f];
    }

    // A signature field: its length is one byte, so a longer one poisons the message.
    method AddSig(code: int, sig: seq<Byte>, len: int)
      requires Valid() && stage == InFields && len <= |sig|
      modifies this`at, this`bad, this`want, this`spoilt, this`fields, buf
      ensures Valid() && spoilt == (old(spoilt) || len < 0 || len > 255)
      ensures fields == old(fields) + (if 0 <= len <= 255 then [SigField(code % 256, sig[..len])] else [])
    {
      hide Draft, Filled, Message, Align, Pad, Le32Bytes, StrBytes, FieldsBytes, BodyBytes;
      if len > 255 {
        bad := true;
        spoilt := true;
        return;
      }
      ghost var w := want;
      PutHead(code, SIG_G);
      PutByte(len);
      PutBytes(sig, len);
      PutByte(0);
      if len >= 0 {
        ghost var f := SigField(code % 256, sig[..len]);
        assert want == w + FieldBytes(|w|, f);
        DraftSnoc(kind, fields, f);
        fields := fields + [f];
      }
    }

    // Overwrite four bytes of the header, which the buffer has whether or not the message fits.
    method Backfill(o: nat, v: int)
      requires Raw() && o in {4, 12} && (!spoilt ==> HDR_SIZE <= |want|)
      modifies this`want, buf
      ensures Raw()
      ensures want == if spoilt then old(want) else old(want)[..o] + Le32Bytes(v) + old(want)[o + 4..]
    {
      buf[o] := v % 256;
      buf[o + 1] := v / 256 % 256;
      buf[o + 2] := v / 65536 % 256;
      buf[o + 3] := v / 16777216 % 256;
      if !spoilt {
        want := want[..o] + Le32Bytes(v) + want[o + 4..];
        if !bad {
          assert buf[..at] == old(buf[..at])[..o] + Le32Bytes(v) + old(buf[..at])[o + 4..];
        }
      }
    }

    method EndFields()
      requires Valid() && stage == InFields
      modifies this`at, this`bad, this`fend, this`want, this`stage, buf
      ensures Valid() && stage == InBody
    {
      hide Message, Align, FieldsBytes, BodyBytes, Pad, Filled, Le32Bytes;
      fend := at;
      var flen := at - HDR_SIZE;
      ghost var f := FieldsBytes(HDR_SIZE, fields);
      Backfill(12, flen);
      if !spoilt && bad {
        want := Fixed(kind.0, kind.1, kind.2, 0, |f|) + f;
      }
      ghost var w := want;
      assert !spoilt ==> w == Fixed(kind.0, kind.1, kind.2, 0, |f|) + f;
      PadTo(8);
      stage := InBody;
      if !spoilt {
        FilledStart(kind, fields);
      }
    }

    method BodyU32(v: int)
      requires Valid() && stage == InBody
      modifies this`at, this`bad, this`want, this`values, buf
      ensures Valid() && values == old(values) + [U32Val(v)]
    {
      hide Message, Align, FieldsBytes, BodyBytes, Pad, Filled, Le32Bytes;
      ghost var w, b := want, U32Val(v);
      PadTo(4);
      PutU32(v);
      assert want == w + ItemBytes(|w|, b);
      FilledSnoc(kind, fields, values, b);
      values := values + [b];
    }

    method BodyBool(v: int)
      requires Valid() && stage == InBody
      modifies this`at, this`bad, this`want, this`values, buf
      ensures Valid() && values == old(values) + [BoolVal(v != 0)]
    {
      hide Message, Align, FieldsBytes, BodyBytes, Pad, Filled, Le32Bytes;
      var b := 0;
      if v != 0 {
        b := 1;
      }
      ghost var w, x := want, BoolVal(v != 0);
      PadTo(4);
      PutU32(b);
      assert want == w + ItemBytes(|w|, x);
      FilledSnoc(kind, fields, values, x);
      values := values + [x];
    }

    method BodyStr(str: seq<Byte>, len: int)
      requires Valid() && stage == InBody && len <= |str|
      modifies this`at, this`bad, this`want, this`spoilt, this`values, buf
      ensures Valid() && spoilt == (old(spoilt) || len < 0)
      ensures values == old(values) + (if len < 0 then [] else [StrVal(str[..len])])
    {
      hide Message, Align, FieldsBytes, BodyBytes, Pad, Filled, Le32Bytes;
      ghost var w := want;
      PadTo(4);
      PutStr(str, len);
      if len >= 0 {
        ghost var b := StrVal(str[..len]);
        assert want == w + ItemBytes(|w|, b);
        FilledSnoc(kind, fields, values, b);
        values := values + [b];
      }
    }

    // The total length; the buffer holds exactly the message described, unless it is poisoned, and
    // with lengths in range it is poisoned exactly when the message does not fit.
    method Finish() returns (total: int)
      requires Valid() && stage == InBody
      modifies this`want, this`stage, buf
      ensures Valid() && stage == Finished && total == at <= MARSHAL_CAP
      ensures !bad ==> total == |Built()| && buf[..total] == Built()
      ensures !spoilt ==> (bad <==> |Built()| > 4096)
      ensures spoilt ==> bad
    {
      hide Align, FieldsBytes, BodyBytes, Pad, Le32Bytes, Message, Filled, Draft;
      FinishedFrom(kind, fields, values);
      var bodyStart := Align(fend, 8);
      var blen := at - bodyStart;
      if blen < 0 {
        blen := 0;
      }
      Backfill(4, blen);
      if !spoilt && bad {
        want := Built();
      }
      stage := Finished;
      assert !spoilt ==> want == Built();
      return at;
    }
  }

  // With the length of the body filled in, the message is done.
  lemma FinishedFrom(kind: (int, int, int), fs: seq<FieldVal>, bs: seq<BodyVal>)
    ensures var w, start := Filled(kind, fs, bs), Align(HDR_SIZE + |FieldsBytes(HDR_SIZE, fs)|, 8);
      && HDR_SIZE <= start <= |w|
      && Message(kind.0, kind.1, kind.2, fs, bs) == w[..4] + Le32Bytes(|w| - start) + w[8..]
  {
    hide Align, FieldsBytes, BodyBytes, Le32Bytes;
    var f := FieldsBytes(HDR_SIZE, fs);
    var rest := f + Pad(HDR_SIZE + |f|, 8) + BodyBytes(Align(HDR_SIZE + |f|, 8), bs);
    var w := Filled(kind, fs, bs);
    assert w == Fixed(kind.0, kind.1, kind.2, 0, |f|) + rest;
  }

  lemma AlignedValue(at: nat)
    ensures Pad(Align(at, 8) + 4, 4) == []
  {
    Aligned(at);
    hide Align;
  }

  lemma DraftStart(kind: (int, int, int))
    ensures [LITTLE, kind.0 % 256, kind.1 % 256, 1] + Le32Bytes(0) + Le32Bytes(kind.2) + Le32Bytes(0)
         == Draft(kind, [])
  {
    hide Le32Bytes;
  }

  lemma DraftSnoc(kind: (int, int, int), fs: seq<FieldVal>, f: FieldVal)
    ensures Draft(kind, fs + [f]) == Draft(kind, fs) + FieldBytes(|Draft(kind, fs)|, f)
  {
    hide FieldsBytes, FieldBytes;
    FieldsSnoc(HDR_SIZE, fs, f);
  }

  lemma FilledStart(kind: (int, int, int), fs: seq<FieldVal>)
    ensures var f := FieldsBytes(HDR_SIZE, fs);
      Filled(kind, fs, []) == Fixed(kind.0, kind.1, kind.2, 0, |f|) + f + Pad(HDR_SIZE + |f|, 8)
  {
    hide FieldsBytes, Pad;
  }

  lemma FilledSnoc(kind: (int, int, int), fs: seq<FieldVal>, bs: seq<BodyVal>, b: BodyVal)
    ensures Filled(kind, fs, bs + [b]) == Filled(kind, fs, bs) + ItemBytes(|Filled(kind, fs, bs)|, b)
  {
    hide FieldsBytes, Pad, ItemBytes, BodyBytes;
    var f := FieldsBytes(HDR_SIZE, fs);
    BodySnoc(HDR_SIZE + |f| + |Pad(HDR_SIZE + |f|, 8)|, bs, b);
  }

  // The header with its lengths still zero, and the fields written so far.
  ghost function Draft(kind: (int, int, int), fs: seq<FieldVal>): (s: seq<Byte>) {
    Fixed(kind.0, kind.1, kind.2, 0, 0) + FieldsBytes(HDR_SIZE, fs)
  }

  // The same with the field length filled in, padded, and the body values written so far.
  ghost function Filled(kind: (int, int, int), fs: seq<FieldVal>, bs: seq<BodyVal>): (s: seq<Byte>) {
    var f := FieldsBytes(HDR_SIZE, fs);
    var p := Pad(HDR_SIZE + |f|, 8);
    Fixed(kind.0, kind.1, kind.2, 0, |f|) + f + p + BodyBytes(HDR_SIZE + |f| + |p|, bs)
  }
}
