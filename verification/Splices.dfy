// What is done to C source before it is scanned: line ends are made one kind, and splices removed.
module Splices {
  import opened Scan

  // CRLF and lone CR become LF.
  function Unix(s: string): (r: string) {
    if s == "" then ""
    else if s[0] == '\r' then "\n" + Unix(s[if |s| > 1 && s[1] == '\n' then 2 else 1..])
    else [s[0]] + Unix(s[1..])
  }

  predicate IsSpace(c: char) {
    c == ' ' || c == '\t' || c == '\U{0C}' || c == '\U{0B}'
  }

  function SkipSpaces(s: string, i: nat): (j: nat)
    requires i <= |s|
    ensures i <= j <= |s|
    ensures forall k | i <= k < j :: IsSpace(s[k])
    decreases |s| - i
  {
    if i < |s| && IsSpace(s[i]) then SkipSpaces(s, i + 1) else i
  }

  // How long the backslash-newline splice at the front of `s` is, blanks between allowed; 0 for none.
  function SpliceLength(s: string): (n: nat)
    ensures n <= |s|
    ensures n > 0 ==> 2 <= n && s[0] == '\\' && s[n - 1] == '\n' && forall k | 1 <= k < n - 1 :: IsSpace(s[k])
  {
    if s == "" || s[0] != '\\' then 0
    else
      var j := SkipSpaces(s, 1);
      if j < |s| && s[j] == '\n' then j + 1 else 0
  }

  function Breaks(n: nat): (s: string)
    ensures |s| == n
  {
    seq(n, _ => '\n')
  }

  // Without the splices; the newlines they took out come again behind the newline that ends their line.
  function Spliced(s: string, pending: nat): (r: string)
    decreases |s|
  {
    if s == "" then Breaks(pending)
    else
      var n := SpliceLength(s);
      if n > 0 then Spliced(s[n..], pending + 1)
      else if s[0] == '\n' then "\n" + Breaks(pending) + Spliced(s[1..], 0)
      else [s[0]] + Spliced(s[1..], pending)
  }

  function Normalized(s: string): (r: string) {
    Spliced(Unix(s), 0)
  }

  // ---- line ends and splices, written out ----

  // Two texts are made one kind apart, unless a CRLF lies across their border.
  lemma {:induction false} UnixAppend(a: string, b: string)
    requires !(a != "" && a[|a| - 1] == '\r' && b != "" && b[0] == '\n')
    ensures Unix(a + b) == Unix(a) + Unix(b)
    decreases |a|
  {
    if a == "" {
      assert a + b == b;
    } else {
      var n := if a[0] == '\r' && |a| > 1 && a[1] == '\n' then 2 else 1;
      assert (a + b)[0] == a[0] && (a + b)[n..] == a[n..] + b;
      assert a[0] == '\r' ==> (n == 2 <==> |a + b| > 1 && (a + b)[1] == '\n');
      UnixAppend(a[n..], b);
    }
  }

  // A CRLF, a lone CR and a lone LF each end a line, and a text without a CR is left alone.
  lemma UnixEnds(a: string, b: string)
    ensures Unix(a + "\r\n" + b) == Unix(a) + "\n" + Unix(b)
    ensures !(b != "" && b[0] == '\n') ==> Unix(a + "\r" + b) == Unix(a) + "\n" + Unix(b)
    ensures !(a != "" && a[|a| - 1] == '\r') ==> Unix(a + "\n" + b) == Unix(a) + "\n" + Unix(b)
  {
    hide Unix;
    OneEnd();
    UnixAppend(a, "\r\n");
    UnixAppend(a + "\r\n", b);
    UnixAppend(a, "\r");
    if !(b != "" && b[0] == '\n') {
      UnixAppend(a + "\r", b);
    }
    if !(a != "" && a[|a| - 1] == '\r') {
      UnixAppend(a, "\n");
      UnixAppend(a + "\n", b);
    }
  }

  lemma OneEnd()
    ensures Unix("\r\n") == Unix("\r") == Unix("\n") == "\n"
  {
    assert "\r\n"[2..] == "" && "\r"[1..] == "" && "\n"[1..] == "";
  }

  lemma {:induction false} UnixSame(s: string)
    requires '\r' !in s
    ensures Unix(s) == s
    decreases |s|
  {
    if s != "" {
      assert s[0] in s && forall c | c in s[1..] :: c in s;
      UnixSame(s[1..]);
    }
  }

  // A text up to its first newline or splice stands as it is.
  lemma {:induction false} PlainStands(a: string, rest: string, pending: nat)
    requires forall c | c in a :: c !in "\\\n"
    ensures Spliced(a + rest, pending) == a + Spliced(rest, pending)
    decreases |a|
  {
    if a == "" {
      assert a + rest == rest;
    } else {
      assert a[0] in a && forall c | c in a[1..] :: c in a;
      assert (a + rest)[0] == a[0] && (a + rest)[1..] == a[1..] + rest;
      PlainStands(a[1..], rest, pending);
      assert [a[0]] + (a[1..] + Spliced(rest, pending)) == a + Spliced(rest, pending);
    }
  }

  // A backslash, spaces, tabs, form feeds and vertical tabs, and a newline join two lines; the newline comes back
  // at the end of the joined line; and any other backslash stays.
  lemma JoinsLines(a: string, blanks: string, b: string, pending: nat)
    requires (forall c | c in a :: c !in "\\\n") && forall c | c in blanks :: c in " \t\U{0C}\U{0B}"
    ensures Spliced(a + ("\\" + blanks + "\n" + b), pending) == a + Spliced(b, pending + 1)
    ensures Spliced(a + ("\n" + b), pending) == a + ("\n" + Breaks(pending) + Spliced(b, 0))
  {
    hide Spliced;
    PlainStands(a, "\\" + blanks + "\n" + b, pending);
    PlainStands(a, "\n" + b, pending);
    SpliceThere(blanks, b);
    SplicedCases("\\" + blanks + "\n" + b, pending);
    NewlineStands(b, pending);
  }

  lemma NewlineStands(b: string, pending: nat)
    ensures Spliced("\n" + b, pending) == "\n" + Breaks(pending) + Spliced(b, 0)
  {
    assert ("\n" + b)[0] == '\n' && ("\n" + b)[1..] == b;
    NoSplice("\n" + b);
  }

  lemma SpliceThere(blanks: string, b: string)
    requires forall c | c in blanks :: c in " \t\U{0C}\U{0B}"
    ensures var s := "\\" + blanks + "\n" + b; SpliceLength(s) == |blanks| + 2 && s[|blanks| + 2..] == b
  {
    var s := "\\" + blanks + "\n" + b;
    assert s[0] == '\\' && s[|blanks| + 1] == '\n' && s[|blanks| + 2..] == b;
    forall k | 1 <= k < |blanks| + 1
      ensures IsSpace(s[k])
    {
      assert s[k] == blanks[k - 1] && blanks[k - 1] in blanks;
    }
    var j := SkipSpaces(s, 1);
    SkipsAll(s, 1);
  }

  // The blanks end at the first character that is none.
  lemma SkipsAll(s: string, i: nat)
    requires i <= |s|
    ensures SkipSpaces(s, i) < |s| ==> !IsSpace(s[SkipSpaces(s, i)])
    decreases |s| - i
  {
  }

  lemma BackslashStays(c: char, b: string, pending: nat)
    requires c !in " \t\U{0C}\U{0B}\n"
    ensures Spliced("\\" + [c] + b, pending) == "\\" + Spliced([c] + b, pending)
  {
    var s := "\\" + [c] + b;
    assert s[0] == '\\' && s[1] == c && s[1..] == [c] + b;
    assert SkipSpaces(s, 1) == 1;
  }

  lemma {:induction false} NewlinesAppend(a: string, b: string)
    ensures Newlines(a + b) == Newlines(a) + Newlines(b)
    decreases |a|
  {
    if a == "" {
      assert a + b == b;
    } else {
      assert (a + b)[1..] == a[1..] + b;
      NewlinesAppend(a[1..], b);
    }
  }

  lemma {:induction false} NewlinesOfBreaks(n: nat)
    ensures Newlines(Breaks(n)) == n
    decreases n
  {
    if n > 0 {
      assert Breaks(n)[1..] == Breaks(n - 1);
      NewlinesOfBreaks(n - 1);
    }
  }

  lemma {:induction false} NoNewlines(s: string)
    requires forall k | 0 <= k < |s| :: s[k] != '\n'
    ensures Newlines(s) == 0
    decreases |s|
  {
    if s != "" {
      NoNewlines(s[1..]);
    }
  }

  // A splice holds one newline.
  lemma SpliceHasOne(s: string)
    requires SpliceLength(s) > 0
    ensures Newlines(s) == 1 + Newlines(s[SpliceLength(s)..])
  {
    var n := SpliceLength(s);
    assert s == s[..n - 1] + (['\n'] + s[n..]);
    NewlinesAppend(s[..n - 1], ['\n'] + s[n..]);
    NoNewlines(s[..n - 1]);
    assert (['\n'] + s[n..])[1..] == s[n..];
  }

  // No newline is lost and none is added.
  lemma {:induction false} SplicedKeepsNewlines(s: string, pending: nat)
    ensures Newlines(Spliced(s, pending)) == Newlines(s) + pending
    decreases |s|
  {
    hide SpliceLength;
    if s == "" {
      NewlinesOfBreaks(pending);
    } else {
      var n := SpliceLength(s);
      if n > 0 {
        SpliceHasOne(s);
        SplicedKeepsNewlines(s[n..], pending + 1);
      } else if s[0] == '\n' {
        SplicedKeepsNewlines(s[1..], 0);
        NewlinesAppend("\n" + Breaks(pending), Spliced(s[1..], 0));
        NewlinesAppend("\n", Breaks(pending));
        NewlinesOfBreaks(pending);
      } else {
        SplicedKeepsNewlines(s[1..], pending);
        NewlinesAppend([s[0]], Spliced(s[1..], pending));
      }
    }
  }

  // `a` ends with a newline that no splice removes.
  predicate EndsLine(a: string)
    decreases |a|
  {
    a != "" &&
    var n := SpliceLength(a);
    if n > 0 then EndsLine(a[n..]) else a == "\n" || EndsLine(a[1..])
  }

  // So a line keeps its number: what comes after a real newline is normalised on its own, and as many
  // newlines come before it as before.
  lemma {:induction false} LinesAreIndependent(a: string, b: string, pending: nat)
    requires EndsLine(a)
    ensures Spliced(a + b, pending) == Spliced(a, pending) + Spliced(b, 0)
    ensures Newlines(Spliced(a, pending)) == Newlines(a) + pending
    decreases |a|
  {
    hide SpliceLength;
    SplicedKeepsNewlines(a, pending);
    SpliceOfPrefix(a, b);
    var n := SpliceLength(a);
    if n > 0 {
      assert (a + b)[n..] == a[n..] + b;
      LinesAreIndependent(a[n..], b, pending + 1);
    } else {
      assert (a + b)[1..] == a[1..] + b;
      if a == "\n" {
        assert a[1..] == "" && "" + b == b;
        assert Spliced("", 0) == Breaks(0) == "";
        assert "\n" + Breaks(pending) + "" == "\n" + Breaks(pending);
      } else if a[0] == '\n' {
        LinesAreIndependent(a[1..], b, 0);
      } else {
        LinesAreIndependent(a[1..], b, pending);
      }
    }
  }

  lemma SpliceOfPrefix(a: string, b: string)
    requires EndsLine(a)
    ensures SpliceLength(a + b) == SpliceLength(a)
  {
    if a[0] == '\\' {
      NewlineAhead(a);
      SkipOfPrefix(a, b, 1);
    }
  }

  lemma {:induction false} NewlineAhead(a: string)
    requires EndsLine(a)
    ensures a[|a| - 1] == '\n'
    decreases |a|
  {
    hide SpliceLength;
    var n := SpliceLength(a);
    if n > 0 {
      NewlineAhead(a[n..]);
    } else if a != "\n" {
      NewlineAhead(a[1..]);
    }
  }

  lemma {:induction false} SkipOfPrefix(a: string, b: string, i: nat)
    requires i < |a| && a[|a| - 1] == '\n'
    ensures SkipSpaces(a + b, i) == SkipSpaces(a, i) < |a|
    decreases |a| - i
  {
    if IsSpace(a[i]) {
      SkipOfPrefix(a, b, i + 1);
    }
  }

  method NormalizeC(source: string) returns (r: string)
    ensures r == Normalized(source)
  {
    hide SpliceLength, Spliced, Breaks;
    var src := Unix(source);
    var out := "";
    var pending := 0;
    var i := 0;
    ghost var goal := Spliced(src, 0);
    assert src[0..] == src && out + goal == goal;
    while i < |src|
      invariant 0 <= i <= |src|
      invariant out + Spliced(src[i..], pending) == goal
    {
      ghost var rest := src[i..];
      SplicedCases(rest, pending);
      var c := src[i];
      var spliced := 0;
      if c == '\\' {
        spliced := SpliceAt(src, i);
      } else {
        NoSplice(rest);
      }
      if spliced > 0 {
        pending := pending + 1;
        assert rest[spliced..] == src[i + spliced..];
        i := i + spliced;
        continue;
      }
      assert rest[1..] == src[i + 1..];
      out := out + [c];
      if c == '\n' && pending > 0 {
        out := out + Breaks(pending);
        pending := 0;
      }
      i := i + 1;
    }
    SplicedEnd(pending);
    assert src[i..] == "";
    out := out + Breaks(pending);
    return out;
  }

  // One step of the splicing.
  lemma SplicedCases(s: string, pending: nat)
    requires s != ""
    ensures SpliceLength(s) > 0 ==> Spliced(s, pending) == Spliced(s[SpliceLength(s)..], pending + 1)
    ensures SpliceLength(s) == 0 && s[0] == '\n' ==>
              forall out: string :: out + Spliced(s, pending) == out + ['\n'] + Breaks(pending) + Spliced(s[1..], 0)
    ensures SpliceLength(s) == 0 && (s[0] != '\n' || pending == 0) ==>
              forall out: string :: out + Spliced(s, pending) == out + [s[0]] + Spliced(s[1..], pending)
  {
    hide SpliceLength;
    if SpliceLength(s) == 0 && s[0] == '\n' && pending == 0 {
      assert "\n" + Breaks(0) + Spliced(s[1..], 0) == [s[0]] + Spliced(s[1..], 0);
    }
  }

  lemma SplicedEnd(pending: nat)
    ensures Spliced("", pending) == Breaks(pending)
  {
  }

  lemma NoSplice(s: string)
    requires s != "" && s[0] != '\\'
    ensures SpliceLength(s) == 0
  {
  }

  // The inner loop: past the blanks after a backslash, to a newline or not.
  method SpliceAt(src: string, i: nat) returns (n: nat)
    requires i < |src| && src[i] == '\\'
    ensures n == SpliceLength(src[i..])
  {
    ghost var rest := src[i..];
    var j := i + 1;
    while j < |src| && IsSpace(src[j])
      invariant i + 1 <= j <= |src|
      invariant SkipSpaces(rest, 1) == SkipSpaces(rest, j - i)
    {
      assert rest[j - i] == src[j];
      j := j + 1;
    }
    assert j < |src| ==> rest[j - i] == src[j];
    if j < |src| && src[j] == '\n' {
      return j + 1 - i;
    }
    return 0;
  }
}
