// The decoder: walks over a message's bytes under a limit, and a cursor over its body. `p` is the
// memory from the message's first byte on; every result is a function of its first `limit` bytes.
module Unmarshal {
  import opened Bytes
  import opened Framing
  import opened Wire

  class Unmarshaller {
    var limit: nat      // the current message's extent; 0 until it is declared
    var body: seq<Byte> // the message whose body is being read
    var at: nat
    var end: nat

    constructor ()
      ensures limit == 0 && body == [] && at == 0 && end == 0
    {
      limit, body, at, end := 0, [], 0, 0;
    }

    method SetLimit(total: int) returns (r: int)
      modifies this`limit
      ensures limit == if total <= 0 then 0 else total
      ensures r == if total <= 0 then -22 else 0
    {
      if total <= 0 {
        limit := 0;
        return -22;
      }
      limit := total;
      return 0;
    }

    // The value offset of the first field with this code, and its signature byte.
    method FindField(p: seq<Byte>, code: int) returns (r: int, sig: int)
      requires limit <= |p|
      ensures r == Lookup(Header(p[..limit]), code)
      ensures r >= 0 ==> exists f :: f in Header(p[..limit]).fields && f.code == code && f.vo == r && f.sig == sig
    {
      hide FieldAt, Align, Sits, FieldType, Le32;
      ghost var m := p[..limit];
      sig := 0;
      if limit < HDR_SIZE {
        return MALFORMED, 0;
      }
      Le32Local(p, m, 12, 0);
      var fend := HDR_SIZE + Le32(p, 12);
      if fend > limit {
        return MALFORMED, 0;
      }
      var pos := HDR_SIZE;
      while pos < fend
        invariant Lookup(Fields(m, fend, pos), code) == Lookup(Header(m), code)
        invariant forall f | f in Fields(m, fend, pos).fields :: f in Header(m).fields
        decreases fend - pos
      {
        ghost var w := Fields(m, fend, pos);
        pos := Align(pos, 8);
        if pos >= fend {
          return NOT_FOUND, 0;
        }
        var f := FieldHere(p, fend, pos);
        if f == None {
          return MALFORMED, 0;
        }
        assert f.value.next > pos;   // so the walk always makes progress
        assert w.fields[0] == f.value && w.fields[1..] == Fields(m, fend, f.value.next).fields;
        if f.value.code == code {
          assert f.value in w.fields;
          return f.value.vo, f.value.sig;
        }
        pos := f.value.next;
      }
      return NOT_FOUND, 0;
    }

    // One (yv) struct of the field array: its code and signature, and where its value is.
    method FieldHere(p: seq<Byte>, fend: nat, pos: nat) returns (f: Option<Field>)
      requires fend <= limit <= |p|
      ensures f == FieldAt(p[..limit], fend, pos)
    {
      hide Sits, Le32, Align, BasicSize, FieldType;
      ghost var m := p[..limit];
      if pos + 4 > fend {
        return None;
      }
      var c, siglen, sig0 := p[pos], p[pos + 1], p[pos + 2];
      if siglen != 1 || p[pos + 3] != 0 {
        return None;
      }
      var want := FieldType(c);
      if want != 0 && sig0 != want {
        return None;
      }
      var vo := pos + 4;
      var nxt := 0;
      if sig0 == SIG_S || sig0 == SIG_O {
        vo := Align(vo, 4);
        if vo + 4 > fend {
          return None;
        }
        Le32Local(p, m, vo, 0);
        var n := Le32(p, vo);
        nxt := vo + 4 + n + 1;
        if nxt > fend {
          return None;
        }
      }
      if sig0 == SIG_G {
        if vo + 1 > fend {
          return None;
        }
        nxt := vo + 1 + p[vo] + 1;
        if nxt > fend {
          return None;
        }
      }
      if nxt == 0 {
        var sz := BasicSize(sig0);
        if sz == 0 {
          return None;
        }
        vo := Align(vo, sz);
        nxt := vo + sz;
        if nxt > fend {
          return None;
        }
      }
      return Some(Field(c, sig0, vo, nxt));
    }

    // Are the first `n` bytes an object path?
    method PathOk(p: seq<Byte>, n: int) returns (ok: bool)
      requires n <= |p|
      ensures ok <==> n >= 0 && IsPath(p[..n])
    {
      if n <= 0 || p[0] != 47 {
        return false;
      }
      ghost var s := p[..n];
      if n == 1 {
        return true;
      }
      if p[n - 1] == 47 {
        return false;
      }
      var prevSlash := true;
      var i := 1;
      while i < n
        invariant 1 <= i <= n
        invariant prevSlash <==> s[i - 1] == 47
        invariant forall k | 0 <= k < i :: s[k] == 47 || IsWord(s[k])
        invariant forall k | 0 < k < i :: s[k] == 47 ==> s[k - 1] != 47
      {
        var c := p[i];
        assert c == s[i];
        if c == 47 {
          if prevSlash {
            return false;
          }
          prevSlash := true;
        } else {
          if !IsWord(c) {
            return false;
          }
          prevSlash := false;
        }
        i := i + 1;
      }
      return true;
    }

    // Is none of [p, p + n) NUL?
    method HasNoNul(p: seq<Byte>, n: nat) returns (ok: bool)
      requires n <= |p|
      ensures ok <==> NoNul(p[..n])
    {
      var i := 0;
      while i < n
        invariant 0 <= i <= n
        invariant forall k | 0 <= k < i :: p[k] != 0
      {
        if p[i] == 0 {
          assert p[..n][i] == 0;
          return false;
        }
        i := i + 1;
      }
      return true;
    }

    // The whole field array, before anything is read from it.
    method Validate(p: seq<Byte>) returns (r: int)
      requires limit <= |p|
      ensures r in {0, MALFORMED}
      ensures r == 0 <==> ValidHeader(p[..limit])
    {
      hide FieldAt, Align, FieldType, Le32, IsPath, NoNul, FieldOk, Distinct, Sits;
      ghost var m := p[..limit];
      if limit < HDR_SIZE {
        return MALFORMED;
      }
      Le32Local(p, m, 12, 0);
      var fend := HDR_SIZE + Le32(p, 12);
      if fend > limit {
        return MALFORMED;
      }
      AcceptsMeaning(m, fend, HDR_SIZE, {});
      var seen: set<Byte> := {};   // the source's bit mask of defined codes
      var pos := HDR_SIZE;
      while pos < fend
        invariant Accepts(m, fend, pos, seen) == Accepts(m, fend, HDR_SIZE, {})
        decreases fend - pos
      {
        pos := Align(pos, 8);
        if pos >= fend {
          return 0;
        }
        var f := FieldHere(p, fend, pos);
        if f == None {
          return MALFORMED;
        }
        var ok := FieldHolds(p, f.value);
        if !ok {
          return MALFORMED;
        }
        var c := f.value.code;
        if FieldType(c) != 0 {
          if c in seen {
            return MALFORMED;
          }
          seen := seen + {c};
        }
        pos := f.value.next;
      }
      return 0;
    }

    // What validation asks of one field beyond its being walkable.
    method FieldHolds(p: seq<Byte>, f: Field) returns (ok: bool)
      requires limit <= |p| && Sits(p[..limit], f)
      ensures ok <==> FieldOk(p[..limit], f)
    {
      hide Le32, IsPath, NoNul;
      ghost var m := p[..limit];
      if f.code == 0 {
        return false;
      }
      if f.sig == SIG_S || f.sig == SIG_O {
        if p[f.next - 1] != 0 {
          return false;
        }
        var n := f.next - 1 - (f.vo + 4);
        assert m[f.vo + 4..f.next - 1] == p[f.vo + 4..][..n];
        var clean := HasNoNul(p[f.vo + 4..], n);
        if !clean {
          return false;
        }
        if f.sig == SIG_O {
          var path := PathOk(p[f.vo + 4..], n);
          if !path {
            return false;
          }
        }
      }
      if f.sig == SIG_G {
        if p[f.next - 1] != 0 {
          return false;
        }
        var n := f.next - 1 - (f.vo + 1);
        assert m[f.vo + 1..f.next - 1] == p[f.vo + 1..][..n];
        var clean := HasNoNul(p[f.vo + 1..], n);
        if !clean {
          return false;
        }
      }
      return true;
    }

    // A string or path value: its length, and where its bytes are.
    method StrAt(p: seq<Byte>, off: int) returns (n: int, ptr: nat)
      requires limit <= |p|
      ensures n == MALFORMED || (n >= 0 && ptr + n + 1 <= limit)
      ensures n != MALFORMED <==> 0 <= off && off + 4 <= limit && off + 4 + Le32(p[..limit], off) + 1 <= limit
      ensures n != MALFORMED ==> n == Le32(p[..limit], off) && ptr == off + 4
    {
      ptr := 0;
      if off < 0 || limit <= 0 || off + 4 > limit {
        return MALFORMED, 0;
      }
      Le32Local(p, p[..limit], off, 0);
      n := Le32(p, off);
      if off + 4 + n + 1 > limit {
        return MALFORMED, 0;
      }
      return n, off + 4;
    }

    // A signature value: one length byte, and where its bytes are.
    method SigAt(p: seq<Byte>, off: int) returns (n: int, ptr: nat)
      requires limit <= |p|
      ensures n == MALFORMED || (n >= 0 && ptr + n + 1 <= limit)
      ensures n != MALFORMED <==> 0 <= off && off + 1 <= limit && off + 1 + p[off] + 1 <= limit
      ensures n != MALFORMED ==> n == p[off] && ptr == off + 1
    {
      ptr := 0;
      if off < 0 || limit <= 0 || off + 1 > limit {
        return MALFORMED, 0;
      }
      n := p[off];
      if off + 1 + n + 1 > limit {
        return MALFORMED, 0;
      }
      return n, off + 1;
    }

    // ---- the body cursor ----

    ghost predicate BodyInside()
      reads this
    {
      end <= |body|
    }

    function Cur(): (c: Cursor)
      reads this
    {
      Cursor(at, end)
    }

    method BodyBegin(p: seq<Byte>)
      requires HDR_SIZE <= |p| && limit <= |p|
      modifies this`body, this`at, this`end
      ensures BodyInside() && body == p && Cur() == BodyCursor(p, limit)
    {
      body := p;
      at := BodyOff(p);
      end := at + Le32(p, 4);
      if limit <= 0 {
        at, end := 0, 0;
        return;
      }
      if end > limit {
        end := limit;
      }
      if at > limit {
        at := limit;
      }
    }

    function Remaining(): (n: int)
      reads this
    {
      end - at
    }

    method NextU32() returns (v: int)
      requires BodyInside()
      modifies this`at
      ensures BodyInside() && (v, Cur()) == ReadU32(body, old(Cur()))
    {
      at := Align(at, 4);
      if at + 4 > end {
        return MALFORMED;
      }
      v := Le32(body, at);
      at := at + 4;
    }

    method NextBool() returns (v: int)
      requires BodyInside()
      modifies this`at
      ensures BodyInside() && (v, Cur()) == ReadBool(body, old(Cur()))
    {
      v := NextU32();
      if v == MALFORMED {
        return v;
      }
      if v > 1 {
        return MALFORMED;
      }
    }

    method NextStr() returns (n: int, ptr: nat)
      requires BodyInside()
      modifies this`at
      ensures BodyInside() && (n, ptr, Cur()) == ReadStr(body, old(Cur()))
    {
      at := Align(at, 4);
      if at + 4 > end {
        return MALFORMED, 0;
      }
      n := Le32(body, at);
      if at + 4 + n + 1 > end {
        return MALFORMED, 0;
      }
      ptr := at + 4;
      at := at + 4 + n + 1;
    }
  }
}
