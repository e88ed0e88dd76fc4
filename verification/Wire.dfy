// The D-Bus message layout (D-Bus Specification, "Message Format" and "Valid Object Paths"): what a
// message's header fields and body are, as functions of its bytes, and how a sender lays them out.
module Wire {
  import opened Bytes
  import opened Framing

  datatype Option<T> = None | Some(value: T)

  const NOT_FOUND := -1200
  const MALFORMED := -1201

  const TYPE_CALL := 1
  const TYPE_RETURN := 2
  const TYPE_ERROR := 3

  const F_PATH := 1
  const F_INTERFACE := 2
  const F_MEMBER := 3
  const F_ERROR_NAME := 4
  const F_REPLY_SERIAL := 5
  const F_DESTINATION := 6
  const F_SENDER := 7
  const F_SIGNATURE := 8
  const F_UNIX_FDS := 9

  const SIG_S: Byte := 115
  const SIG_O: Byte := 111
  const SIG_U: Byte := 117
  const SIG_G: Byte := 103

  // How many bytes a value of type `t` takes, and is aligned to; 0 unless that is the same for all of them.
  function BasicSize(t: int): (n: nat)
    ensures n in {0, 1, 2, 4, 8}
  {
    if t == 121 then 1
    else if t in {110, 113} then 2
    else if t in {98, 105, 117, 104} then 4
    else if t in {120, 116, 100} then 8
    else 0
  }

  // The type required of each defined header field, 0 for a code that is not defined.
  function FieldType(code: int): (t: Byte) {
    if code == F_PATH then SIG_O
    else if code in {F_INTERFACE, F_MEMBER, F_ERROR_NAME, F_DESTINATION, F_SENDER} then SIG_S
    else if code in {F_REPLY_SERIAL, F_UNIX_FDS} then SIG_U
    else if code == F_SIGNATURE then SIG_G
    else 0
  }

  // The same by letter: y; n q; b i u h; x t d. Strings, signatures and containers have no one size.
  lemma SizesByLetter(t: int)
    ensures BasicSize(t) == 1 <==> t == 'y' as int
    ensures BasicSize(t) == 2 <==> t in {'n' as int, 'q' as int}
    ensures BasicSize(t) == 4 <==> t in {'b' as int, 'i' as int, 'u' as int, 'h' as int}
    ensures BasicSize(t) == 8 <==> t in {'x' as int, 't' as int, 'd' as int}
  {
  }

  // PATH is a path; INTERFACE, MEMBER, ERROR_NAME, DESTINATION and SENDER are strings; REPLY_SERIAL and
  // UNIX_FDS are words; SIGNATURE is one.
  lemma TypesByCode(code: int)
    ensures FieldType(code) == 'o' as int <==> code == 1
    ensures FieldType(code) == 's' as int <==> code in {2, 3, 4, 6, 7}
    ensures FieldType(code) == 'u' as int <==> code in {5, 9}
    ensures FieldType(code) == 'g' as int <==> code == 8
    ensures FieldType(code) == 0 <==> !(1 <= code <= 9)
  {
  }

  // ---- the header-field array ----

  // A field: its code, its one-byte signature, where its value is and where the field ends.
  datatype Field = Field(code: Byte, sig: Byte, vo: nat, next: nat)

  // The field lies inside the message, and its own length says where it ends.
  predicate Sits(m: seq<Byte>, f: Field) {
    && f.vo < f.next <= |m|
    && (f.sig in {SIG_S, SIG_O} ==> f.vo + 5 <= f.next == f.vo + 4 + Le32(m, f.vo) + 1)
    && (f.sig == SIG_G ==> f.vo + 2 <= f.next == f.vo + 1 + m[f.vo] + 1)
    && (f.sig == SIG_U ==> f.next == f.vo + 4)
  }

  // The field whose struct starts at `a`, if it is one that can be walked inside [0, end).
  function FieldAt(m: seq<Byte>, end: nat, a: nat): (r: Option<Field>)
    requires end <= |m|
    ensures r.Some? ==> a + 4 <= r.value.vo < r.value.next <= end && Sits(m, r.value)
    ensures r.Some? && FieldType(r.value.code) != 0 ==> r.value.sig == FieldType(r.value.code)
  {
    if a + 4 > end || m[a + 1] != 1 || m[a + 3] != 0 then None
    else
      var code, sig := m[a], m[a + 2];
      if FieldType(code) != 0 && sig != FieldType(code) then None
      else if sig == SIG_S || sig == SIG_O then
        var vo := Align(a + 4, 4);
        if vo + 4 > end || vo + 4 + Le32(m, vo) + 1 > end then None
        else Some(Field(code, sig, vo, vo + 4 + Le32(m, vo) + 1))
      else if sig == SIG_G then
        if a + 5 > end || a + 5 + m[a + 4] + 1 > end then None
        else Some(Field(code, sig, a + 4, a + 5 + m[a + 4] + 1))
      else
        var sz := BasicSize(sig);
        if sz == 0 then None
        else
          var vo := Align(a + 4, sz);
          if vo + sz > end then None else Some(Field(code, sig, vo, vo + sz))
  }

  // A field with a code that is not defined may have any type of one size; its value is at the next multiple of
  // that size, and it is stepped over whole. One of a container type cannot be.
  lemma UnknownField(m: seq<Byte>, end: nat, a: nat)
    requires a + 4 <= end <= |m| && a % 8 == 0 && m[a + 1] == 1 && m[a + 3] == 0 && !(1 <= m[a] <= 9)
    ensures var t := m[a + 2];
      && (t == 'y' as int && a + 5 <= end ==> FieldAt(m, end, a) == Some(Field(m[a], t, a + 4, a + 5)))
      && (t in {'n' as int, 'q' as int} && a + 6 <= end ==> FieldAt(m, end, a) == Some(Field(m[a], t, a + 4, a + 6)))
      && (t in {'b' as int, 'i' as int, 'u' as int, 'h' as int} && a + 8 <= end ==>
            FieldAt(m, end, a) == Some(Field(m[a], t, a + 4, a + 8)))
      && (t in {'x' as int, 't' as int, 'd' as int} && a + 16 <= end ==>
            FieldAt(m, end, a) == Some(Field(m[a], t, a + 8, a + 16)))
      && (t in {'a' as int, '(' as int, '{' as int, 'v' as int} ==> FieldAt(m, end, a) == None)
  {
    hide Sits;
  }

  // The fields from `at` up to the end of the array, or up to the first that cannot be walked.
  datatype Walk = Walk(fields: seq<Field>, ok: bool)

  function Fields(m: seq<Byte>, end: nat, at: nat): (w: Walk)
    requires end <= |m|
    decreases end - at
  {
    if Align(at, 8) >= end then Walk([], true)
    else
      match FieldAt(m, end, Align(at, 8))
      case None => Walk([], false)
      case Some(f) =>
        var w := Fields(m, end, f.next);
        Walk([f] + w.fields, w.ok)
  }

  // The header fields of the message `m`.
  function Header(m: seq<Byte>): (w: Walk)
  {
    if |m| < HDR_SIZE || HDR_SIZE + Le32(m, 12) > |m| then Walk([], false)
    else Fields(m, HDR_SIZE + Le32(m, 12), HDR_SIZE)
  }

  // Where the value of the first field with this code is.
  function Lookup(w: Walk, code: int): (r: int)
    ensures r >= 0 || r in {NOT_FOUND, MALFORMED}
    decreases w.fields
  {
    if w.fields == [] then (if w.ok then NOT_FOUND else MALFORMED)
    else if w.fields[0].code == code then w.fields[0].vo
    else Lookup(Walk(w.fields[1..], w.ok), code)
  }

  // ---- validity ----

  predicate NoNul(s: seq<Byte>) {
    forall i | 0 <= i < |s| :: s[i] != 0
  }

  predicate IsWord(c: int) {
    65 <= c <= 90 || 97 <= c <= 122 || 48 <= c <= 57 || c == 95
  }

  // "/", or segments of [A-Za-z0-9_] each after a single "/": no empty segment, no trailing "/".
  predicate IsPath(s: seq<Byte>) {
    && |s| > 0 && s[0] == 47
    && (forall i | 0 <= i < |s| :: s[i] == 47 || IsWord(s[i]))
    && (forall i | 0 < i < |s| :: s[i] == 47 ==> s[i - 1] != 47)
    && (|s| > 1 ==> s[|s| - 1] != 47)
  }

  // Segments, each after a slash.
  function Rooted(segs: seq<seq<Byte>>): (s: seq<Byte>) {
    if segs == [] then [] else ['/' as int] + segs[0] + Rooted(segs[1..])
  }

  // At least one letter, digit or underscore.
  predicate Segment(w: seq<Byte>) {
    && w != []
    && forall i | 0 <= i < |w| ::
         || 'A' as int <= w[i] <= 'Z' as int || 'a' as int <= w[i] <= 'z' as int
         || '0' as int <= w[i] <= '9' as int || w[i] == '_' as int
  }

  // A path is the root, or segments each after a slash.
  lemma PathIsSegments(s: seq<Byte>)
    ensures IsPath(s) <==>
      || s == ['/' as int]
      || exists segs :: segs != [] && (forall w | w in segs :: Segment(w)) && s == Rooted(segs)
  {
    if IsPath(s) && |s| > 1 {
      var _ := Segments(s);
    }
    if segs :| segs != [] && (forall w | w in segs :: Segment(w)) && s == Rooted(segs) {
      RootedIsPath(segs);
    }
  }

  function Segments(s: seq<Byte>): (segs: seq<seq<Byte>>)
    requires IsPath(s) && |s| > 1
    ensures segs != [] && (forall w | w in segs :: Segment(w)) && s == Rooted(segs)
    decreases |s|
  {
    hide IsPath, Segment;
    var k := SlashFrom(s, 1);
    PathParts(s, k);
    var w, t := s[1..k], s[k..];
    if t == [] then
      assert Rooted([w]) == ['/' as int] + w + Rooted([]);
      [w]
    else
      var rest := Segments(t);
      assert ([w] + rest)[1..] == rest;
      [w] + rest
  }

  // The first slash from `i` on, or the end.
  function SlashFrom(s: seq<Byte>, i: nat): (k: nat)
    requires i <= |s|
    ensures i <= k <= |s| && (k < |s| ==> s[k] == 47) && forall j | i <= j < k :: s[j] != 47
    decreases |s| - i
  {
    if i == |s| || s[i] == 47 then i else SlashFrom(s, i + 1)
  }

  lemma PathParts(s: seq<Byte>, k: nat)
    requires IsPath(s) && |s| > 1
    requires 1 <= k <= |s| && (k < |s| ==> s[k] == 47) && forall j | 1 <= j < k :: s[j] != 47
    ensures k > 1 && Segment(s[1..k]) && s == ['/' as int] + s[1..k] + s[k..]
    ensures k < |s| ==> IsPath(s[k..]) && |s[k..]| > 1
  {
    assert s[1] != 47;
    if k < |s| {
      var t := s[k..];
      assert forall i | 0 <= i < |t| :: t[i] == s[k + i];
    }
  }

  // One more segment in front.
  lemma PathCons(w: seq<Byte>, t: seq<Byte>)
    requires Segment(w) && (t == [] || (IsPath(t) && |t| > 1))
    ensures IsPath(['/' as int] + w + t)
  {
    var s := ['/' as int] + w + t;
    assert forall i | 0 < i < |s| :: s[i] == if i <= |w| then w[i - 1] else t[i - 1 - |w|];
    assert forall i | 0 <= i < |w| :: IsWord(w[i]);
    forall i | 0 < i < |s| && s[i] == 47
      ensures s[i - 1] != 47
    {
      if i - 1 - |w| > 0 {
        assert t[i - 1 - |w|] == 47;
      }
    }
  }

  lemma {:induction false} RootedIsPath(segs: seq<seq<Byte>>)
    requires segs != [] && forall w | w in segs :: Segment(w)
    ensures IsPath(Rooted(segs)) && |Rooted(segs)| > 1
    decreases |segs|
  {
    hide IsPath;
    if |segs| > 1 {
      RootedIsPath(segs[1..]);
    }
    PathCons(segs[0], Rooted(segs[1..]));
  }

  // A field with the INVALID code never is; a string, path or signature is NUL-terminated with no
  // NUL inside; a path is an object path.
  predicate FieldOk(m: seq<Byte>, f: Field)
    requires Sits(m, f)
  {
    && f.code != 0
    && (f.sig in {SIG_S, SIG_O} ==> m[f.next - 1] == 0 && NoNul(m[f.vo + 4..f.next - 1]))
    && (f.sig == SIG_G ==> m[f.next - 1] == 0 && NoNul(m[f.vo + 1..f.next - 1]))
    && (f.sig == SIG_O ==> IsPath(m[f.vo + 4..f.next - 1]))
  }

  predicate InBounds(m: seq<Byte>, fs: seq<Field>) {
    forall f | f in fs :: Sits(m, f) && (FieldType(f.code) != 0 ==> f.sig == FieldType(f.code))
  }

  // No defined field twice.
  predicate Distinct(fs: seq<Field>) {
    forall i, j | 0 <= i < j < |fs| :: FieldType(fs[i].code) != 0 ==> fs[i].code != fs[j].code
  }

  lemma {:induction false} FieldsInBounds(m: seq<Byte>, end: nat, at: nat)
    requires end <= |m|
    ensures InBounds(m, Fields(m, end, at).fields)
    ensures forall f | f in Fields(m, end, at).fields :: at < f.vo && f.next <= end
    decreases end - at
  {
    hide BasicSize, FieldType, Le32, Sits;
    if Align(at, 8) < end {
      match FieldAt(m, end, Align(at, 8))
      case None =>
      case Some(f) =>
        FieldsInBounds(m, end, f.next);
    }
  }

  lemma HeaderInBounds(m: seq<Byte>)
    ensures InBounds(m, Header(m).fields)
  {
    if |m| >= HDR_SIZE && HDR_SIZE + Le32(m, 12) <= |m| {
      FieldsInBounds(m, HDR_SIZE + Le32(m, 12), HDR_SIZE);
    }
  }

  // What it takes for the whole header to be accepted.
  ghost predicate ValidHeader(m: seq<Byte>) {
    HeaderInBounds(m);
    var w := Header(m);
    && w.ok
    && (forall f | f in w.fields :: FieldOk(m, f))
    && Distinct(w.fields)
  }

  // A header that is accepted is never malformed for anyone who looks something up in it.
  lemma {:induction false} LookupInWalk(w: Walk, code: int)
    ensures Lookup(w, code) >= 0 ==> exists f :: f in w.fields && f.code == code && f.vo == Lookup(w, code)
    ensures Lookup(w, code) < 0 ==> forall f | f in w.fields :: f.code != code
    ensures w.ok ==> Lookup(w, code) != MALFORMED
    decreases w.fields
  {
    if w.fields != [] {
      if w.fields[0].code == code {
        assert w.fields[0] in w.fields;
      } else {
        LookupInWalk(Walk(w.fields[1..], w.ok), code);
        assert forall f | f in w.fields :: f == w.fields[0] || f in w.fields[1..];
      }
    }
  }

  // And what is found is the first field with the code.
  lemma {:induction false} LookupIsFirst(w: Walk, code: int, i: nat)
    requires i < |w.fields| && w.fields[i].code == code && forall j | 0 <= j < i :: w.fields[j].code != code
    ensures Lookup(w, code) == w.fields[i].vo
    decreases i
  {
    if i > 0 {
      LookupIsFirst(Walk(w.fields[1..], w.ok), code, i - 1);
    }
  }

  // `validate` subsumes `find_field`: for any code at all the lookup is not malformed, a defined
  // code occurs at most once, and a string found is in bounds, NUL-free and NUL-terminated.
  lemma ValidHeaderLookups(m: seq<Byte>, code: int)
    requires ValidHeader(m)
    ensures Lookup(Header(m), code) != MALFORMED
    ensures FieldType(code) != 0 ==>
              forall i, j | 0 <= i < j < |Header(m).fields| ::
                !(Header(m).fields[i].code == code && Header(m).fields[j].code == code)
    ensures Lookup(Header(m), code) >= 0 && FieldType(code) in {SIG_S, SIG_O} ==>
              var vo := Lookup(Header(m), code);
              && vo + 4 <= |m|
              && var n := Le32(m, vo);
              && vo + 4 + n + 1 <= |m| && m[vo + 4 + n] == 0 && NoNul(m[vo + 4..vo + 4 + n])
  {
    hide Header, Le32, IsPath;
    LookupInWalk(Header(m), code);
    HeaderInBounds(m);
    var vo := Lookup(Header(m), code);
    if vo >= 0 && FieldType(code) in {SIG_S, SIG_O} {
      var f :| f in Header(m).fields && f.code == code && f.vo == vo;
      assert FieldOk(m, f);
    }
  }

  // ---- the same, decided in one pass ----

  predicate Accepts(m: seq<Byte>, end: nat, at: nat, seen: set<Byte>)
    requires end <= |m|
    decreases end - at
  {
    if Align(at, 8) >= end then true
    else
      match FieldAt(m, end, Align(at, 8))
      case None => false
      case Some(f) =>
        && FieldOk(m, f)
        && (FieldType(f.code) != 0 ==> f.code !in seen)
        && Accepts(m, end, f.next, if FieldType(f.code) != 0 then seen + {f.code} else seen)
  }

  lemma {:induction false} AcceptsMeaning(m: seq<Byte>, end: nat, at: nat, seen: set<Byte>)
    requires end <= |m|
    ensures InBounds(m, Fields(m, end, at).fields)
    ensures Accepts(m, end, at, seen) <==>
              var w := Fields(m, end, at);
              && w.ok
              && (forall f | f in w.fields :: FieldOk(m, f))
              && Distinct(w.fields)
              && (forall f | f in w.fields :: FieldType(f.code) != 0 ==> f.code !in seen)
    decreases end - at
  {
    hide BasicSize, FieldType, Le32, FieldOk, Sits;
    FieldsInBounds(m, end, at);
    if Align(at, 8) < end {
      match FieldAt(m, end, Align(at, 8))
      case None =>
      case Some(f) =>
        var seen' := if FieldType(f.code) != 0 then seen + {f.code} else seen;
        AcceptsMeaning(m, end, f.next, seen');
        ConsDistinct(f, Fields(m, end, f.next).fields);
        var fs := Fields(m, end, at).fields;
        assert fs[0] == f && fs[1..] == Fields(m, end, f.next).fields;
        assert forall h | h in fs :: h == f || h in fs[1..];
    }
  }

  lemma ConsDistinct(f: Field, fs: seq<Field>)
    ensures Distinct([f] + fs) <==>
              Distinct(fs) && (FieldType(f.code) != 0 ==> forall h | h in fs :: h.code != f.code)
  {
    hide FieldType;
    var gs := [f] + fs;
    if Distinct(gs) {
      forall i, j | 0 <= i < j < |fs|
        ensures FieldType(fs[i].code) != 0 ==> fs[i].code != fs[j].code
      {
        assert gs[i + 1] == fs[i] && gs[j + 1] == fs[j];
      }
      forall h | h in fs
        ensures FieldType(f.code) != 0 ==> h.code != f.code
      {
        var i :| 0 <= i < |fs| && fs[i] == h;
        assert gs[0] == f && gs[i + 1] == h;
      }
    }
  }

  // ---- the body ----

  // A read position and the end of the body.
  datatype Cursor = Cursor(at: nat, end: nat)

  function BodyOff(m: seq<Byte>): (n: nat)
    requires |m| >= HDR_SIZE
  {
    Align(HDR_SIZE + Le32(m, 12), 8)
  }

  // Clamped to the message's true extent, which is `limit`; empty when there is none.
  function BodyCursor(m: seq<Byte>, limit: nat): (c: Cursor)
    requires |m| >= HDR_SIZE
    ensures c.at <= limit && c.end <= limit
  {
    if limit == 0 then Cursor(0, 0)
    else
      var at := BodyOff(m);
      var end := at + Le32(m, 4);
      Cursor(if at > limit then limit else at, if end > limit then limit else end)
  }

  // The value read, or MALFORMED, and the cursor after it.
  function ReadU32(m: seq<Byte>, c: Cursor): (r: (int, Cursor))
    requires c.end <= |m|
    ensures r.0 == MALFORMED || 0 <= r.0 <= U32_MAX
    ensures r.1.end == c.end
  {
    var at := Align(c.at, 4);
    if at + 4 > c.end then (MALFORMED, Cursor(at, c.end))
    else (Le32(m, at), Cursor(at + 4, c.end))
  }

  function ReadBool(m: seq<Byte>, c: Cursor): (r: (int, Cursor))
    requires c.end <= |m|
    ensures r.0 in {MALFORMED, 0, 1}
    ensures r.1.end == c.end
  {
    var (v, d) := ReadU32(m, c);
    (if v > 1 then MALFORMED else v, d)
  }

  // The length, where the bytes are, and the cursor after the terminator.
  function ReadStr(m: seq<Byte>, c: Cursor): (r: (int, nat, Cursor))
    requires c.end <= |m|
    ensures r.0 == MALFORMED || (r.0 >= 0 && r.1 + r.0 + 1 <= c.end)
    ensures r.2.end == c.end
  {
    var at := Align(c.at, 4);
    if at + 4 > c.end || at + 4 + Le32(m, at) + 1 > c.end then (MALFORMED, 0, Cursor(at, c.end))
    else (Le32(m, at), at + 4, Cursor(at + 4 + Le32(m, at) + 1, c.end))
  }
}
