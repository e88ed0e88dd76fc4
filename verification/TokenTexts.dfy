// What the tokens make of whole texts: a comment, a literal or a directive at the front, and then code. The
// code is kept as it is, whatever stood in front of it.
module TokenTexts {
  import opened Scan
  import opened Tokens

  // Text with nothing in it that begins a token of more than one character.
  predicate Ordinary(s: string) {
    forall c | c in s :: c !in "#/'\""
  }

  // The reading is not past the line it is in.
  predicate Inside(s: State, n: nat) {
    s.at <= n && (s.line.Some? ==> s.at < s.line.value <= n)
  }

  lemma OrdinaryStep(src: string, lang: Lang, ab: Alphabet, s: State, t: Tok)
    requires StepOk(src, lang, ab, s, t) && Inside(s, |src|) && Ordinary(src[s.at..])
    ensures t.start == s.at < |src| && t.end == s.at + 1 && t.kind == Code && Inside(After(t), |src|)
  {
    hide HasWord, Separator, HeaderAt;
    NoStepAtEnd(src, lang, ab, s, t);
    NoneBegins(src, lang, ab, s);
  }

  lemma NoneBegins(src: string, lang: Lang, ab: Alphabet, s: State)
    requires s.at < |src| && Ordinary(src[s.at..])
    ensures BranchOf(src, lang, ab, s) == Plain
  {
    hide HasWord, Separator, HeaderAt, IncludeAt, Ordinary;
    NotSpecial(src, s.at, s.at);
    if IncludeAt(src, s.at) {
      QuoteAhead(src, s.at);
      NotSpecial(src, s.at, s.at + 8);
    }
    if h :| HeaderAt(src, s.at, h) {
      HashAhead(src, s.at, h);
      NotSpecial(src, s.at, SkipBlanks(src, s.at));
    }
    NoSlash(src, s.at);
  }

  lemma NotSpecial(src: string, i: nat, k: nat)
    requires i <= k < |src| && Ordinary(src[i..])
    ensures src[k] !in "#/'\""
  {
    assert src[i..][k - i] == src[k];
  }

  lemma QuoteAhead(src: string, i: nat)
    requires IncludeAt(src, i)
    ensures i + 8 < |src| && src[i + 8] == '"'
  {
    assert src[i + 8] == src[i..i + 9][8] == "include \""[8];
  }

  lemma HashAhead(src: string, i: nat, h: nat)
    requires HeaderAt(src, i, h)
    ensures i <= SkipBlanks(src, i) < |src| && src[SkipBlanks(src, i)] == '#'
  {
  }

  lemma NoSlash(src: string, i: nat)
    requires i < |src| && src[i] != '/'
    ensures !HasWord(src, "//", i, |src|) && !HasWord(src, "/*", i, |src|)
  {
  }

  // From any state on, such text is kept as it is.
  lemma {:induction false} OrdinaryKept(src: string, lang: Lang, ab: Alphabet, keep: bool,
                                        states: seq<State>, toks: seq<Tok>, k: nat)
    requires Lexed(src, lang, ab, states, toks) && k <= |toks|
    requires Inside(states[k], |src|) && Ordinary(src[states[k].at..])
    ensures Text(src, toks, keep) == Text(src, toks[..k], keep) + src[states[k].at..]
    decreases |toks| - k
  {
    hide StepOk, Inside, Ordinary, Rendered;
    var at := states[k].at;
    if k < |toks| {
      OrdinaryStep(src, lang, ab, states[k], toks[k]);
      OrdinaryLess(src, at);
      OrdinaryKept(src, lang, ab, keep, states, toks, k + 1);
      assert toks[..k + 1][..k] == toks[..k];
      CodeKept(src, toks[k], keep);
      assert src[at..] == src[at..at + 1] + src[at + 1..];
    } else {
      assert toks[..k] == toks;
    }
  }

  lemma OrdinaryLess(src: string, i: nat)
    requires i < |src| && Ordinary(src[i..])
    ensures Ordinary(src[i + 1..])
  {
    assert src[i..] == [src[i]] + src[i + 1..];
  }

  lemma CodeKept(src: string, t: Tok, keep: bool)
    requires t.kind == Code && t.start < t.end <= |src|
    ensures Rendered(src, t, keep) == src[t.start..t.end]
  {
  }

  // A text whose first token is `t`, with nothing but code behind it.
  lemma FirstThenCode(src: string, lang: Lang, ab: Alphabet, keep: bool, states: seq<State>, toks: seq<Tok>)
    requires Lexed(src, lang, ab, states, toks) && toks != []
    requires Inside(After(toks[0]), |src|) && Ordinary(src[After(toks[0]).at..])
    ensures Text(src, toks, keep) == Rendered(src, toks[0], keep) + src[After(toks[0]).at..]
  {
    hide StepOk, Inside, Ordinary, Rendered;
    OrdinaryKept(src, lang, ab, keep, states, toks, 1);
    assert toks[..1][..0] == [] && toks[..1][0] == toks[0];
  }

  // ---- texts of C ----

  // A block comment is blanked to its first closer, and what follows that is code.
  lemma BlockComment(x: string, b: string, ab: Alphabet, keep: bool, states: seq<State>, toks: seq<Tok>)
    requires var src := "/*" + x + "*/" + b;
      && Lexed(src, C, ab, states, toks) && Ordinary(b)
      && forall k | 2 <= k < 2 + |x| :: !HasWord(src, "*/", k, |src|)
    ensures Text("/*" + x + "*/" + b, toks, keep) == Blank("/*" + x + "*/") + b
  {
    hide Blank, Ordinary, Text, Lexed;
    var src, e := "/*" + x + "*/" + b, |x| + 4;
    assert src[..e] == "/*" + x + "*/" && src[e..] == b && src[0..2] == "/*";
    assert src[e - 2] == '*' && src[e - 1] == '/';
    assert src[e - 2..e] == "*/";
    FindsFirst(src, "*/", 2, e - 2);
    CommentToken(src, e, ab, keep, states, toks);
  }

  lemma CommentToken(src: string, e: nat, ab: Alphabet, keep: bool, states: seq<State>, toks: seq<Tok>)
    requires Lexed(src, C, ab, states, toks) && HasWord(src, "/*", 0, |src|) && 2 <= e <= |src| && Ordinary(src[e..])
    requires FindWord(src, "*/", 2) == Some(e - 2)
    ensures Text(src, toks, keep) == Blank(src[..e]) + src[e..]
  {
    hide Blank, Ordinary, Text, Lexed, FindWord;
    FirstToken(src, C, ab, states, toks);
    assert src[0] == src[0..2][0] == '/' && src[1] == src[0..2][1] == '*';
    NoHeader(src, 0);
    assert BranchOf(src, C, ab, states[0]) == Slash;
    assert toks[0].end == e && toks[0].kind == Blanked;
    assert src[0..e] == src[..e];
    FirstThenCode(src, C, ab, keep, states, toks);
  }

  lemma FindsFirst(src: string, w: string, i: nat, j: nat)
    requires i <= j && HasWord(src, w, j, |src|) && forall k | i <= k < j :: !HasWord(src, w, k, |src|)
    ensures FindWord(src, w, i) == Some(j)
  {
    var f := FindWord(src, w, i);
    assert f.Some? ==> HasWord(src, w, f.value, |src|);
  }

  lemma FirstToken(src: string, lang: Lang, ab: Alphabet, states: seq<State>, toks: seq<Tok>)
    requires Lexed(src, lang, ab, states, toks) && src != ""
    ensures toks != [] && states != [] && states[0] == State(0, true, None) && StepOk(src, lang, ab, states[0], toks[0])
  {
  }

  // A line comment is blanked to the end of its line, and the next line is code.
  lemma LineComment(x: string, b: string, ab: Alphabet, keep: bool, states: seq<State>, toks: seq<Tok>)
    requires Lexed("//" + x + "\n" + b, C, ab, states, toks) && '\n' !in x && Ordinary(b)
    ensures Text("//" + x + "\n" + b, toks, keep) == Blank("//" + x) + "\n" + b
  {
    hide Blank, Ordinary, Text, Lexed, Find;
    var line := "//" + x;
    assert (line + "\n" + b)[0..2] == "//";
    LineOf(line, b);
    LineToken(line + "\n" + b, |line|, ab, keep, states, toks);
    assert Blank(line) + ("\n" + b) == Blank(line) + "\n" + b;
  }

  lemma LineToken(src: string, e: nat, ab: Alphabet, keep: bool, states: seq<State>, toks: seq<Tok>)
    requires Lexed(src, C, ab, states, toks) && HasWord(src, "//", 0, |src|) && Find(src, '\n', 0, |src|) == e
    requires Ordinary(src[e..])
    ensures Text(src, toks, keep) == Blank(src[..e]) + src[e..]
  {
    hide Blank, Ordinary, Text, Lexed, Find;
    FirstToken(src, C, ab, states, toks);
    assert src[0] == src[0..2][0] == '/';
    NoHeader(src, 0);
    assert BranchOf(src, C, ab, states[0]) == Slash;
    assert toks[0].end == e && toks[0].kind == Blanked;
    assert src[0..e] == src[..e];
    FirstThenCode(src, C, ab, keep, states, toks);
  }

  // The name of an included header is kept or blanked, and what follows its bracket is code.
  lemma HeaderName(name: string, b: string, ab: Alphabet, keep: bool, states: seq<State>, toks: seq<Tok>)
    requires Lexed("#include <" + name + ">" + b, C, ab, states, toks)
    requires (forall c | c in name :: c !in ">\n") && Ordinary(b)
    ensures Text("#include <" + name + ">" + b, toks, keep)
         == "#include <" + (if keep then name else Blank(name)) + ">" + b
  {
    hide Blank, Ordinary, Text, Lexed, Find, HeaderAt;
    var src, k := "#include <" + name + ">" + b, 10 + |name|;
    HeaderParts(name, b);
    HeaderToken(src, k, ab, keep, states, toks);
    assert ("#include <" + (if keep then name else Blank(name)) + ">") + b
        == "#include <" + (if keep then name else Blank(name)) + ">" + b;
  }

  lemma HeaderParts(name: string, b: string)
    requires forall c | c in name :: c !in ">\n"
    ensures var src, k := "#include <" + name + ">" + b, 10 + |name|;
      && |src| > k && src[..10] == "#include <" && src[10..k] == name && src[k] == '>' && src[k + 1..] == b
      && HeaderAt(src, 0, 10) && (forall i | 10 <= i < k :: src[i] !in ">\n")
  {
    var src, k := "#include <" + name + ">" + b, 10 + |name|;
    assert src[..10] == "#include <" && src[10..k] == name && src[k] == '>' && src[k + 1..] == b;
    assert forall i | 10 <= i < k :: src[i] == name[i - 10] && name[i - 10] in name;
    assert src[0] == '#' && src[1..8] == "include" && src[1] == 'i' && src[8] == ' ' && src[9] == '<';
    assert HasWord(src, HEADER_WORDS[0], 1, |src|);
    assert SkipBlanks(src, 9) == 9 && SkipBlanks(src, 8) == 9;
    assert HeaderWord(src, 1, 0, 10);
  }

  lemma HeaderToken(src: string, k: nat, ab: Alphabet, keep: bool, states: seq<State>, toks: seq<Tok>)
    requires Lexed(src, C, ab, states, toks) && |src| > k >= 10 && src[..10] == "#include <" && src[k] == '>'
    requires HeaderAt(src, 0, 10) && (forall i | 10 <= i < k :: src[i] !in ">\n") && Ordinary(src[k + 1..])
    ensures Text(src, toks, keep)
         == "#include <" + (if keep then src[10..k] else Blank(src[10..k])) + ">" + src[k + 1..]
  {
    hide Blank, Ordinary, Text, Lexed, HeaderAt, Find;
    FirstToken(src, C, ab, states, toks);
    assert BranchOf(src, C, ab, states[0]) == Head;
    HeaderAtOnce(src, 0, 10, toks[0].kind.name);
    var eol := Find(src, '\n', 0, |src|);
    assert forall i | 0 <= i < 10 :: src[i] == src[..10][i] != '\n';
    assert src[k] != '\n' && eol > k;
    FindsChar(src, '>', 10, eol, k);
    assert toks[0].end == k + 1 && toks[0].kind == Header(10, k);
    assert src[0..10] == "#include <" && src[k..k + 1] == ">";
    FirstThenCode(src, C, ab, keep, states, toks);
  }

  // A quote between two digits of a number is code, and opens nothing.
  lemma SeparatedNumber(d: char, e: char, b: string, ab: Alphabet, keep: bool, states: seq<State>, toks: seq<Tok>)
    requires Lexed([d, '\'', e] + b, C, ab, states, toks)
    requires ab.digit([d]) && ab.alnum(d) && ab.alnum(e) && d !in " \t#/'\"" && Ordinary([e] + b)
    ensures Text([d, '\'', e] + b, toks, keep) == [d, '\'', e] + b
  {
    hide Ordinary, Text, Lexed, Separator;
    var src := [d, '\'', e] + b;
    assert src[2..] == [e] + b && src[..2] == [d, '\''];
    InNumber(src, ab);
    FirstToken(src, C, ab, states, toks);
    NoHeader(src, 0);
    NoSlash(src, 0);
    assert BranchOf(src, C, ab, states[0]) == Plain;
    SecondToken(src, C, ab, keep, states, toks);
    NoHeader(src, 1);
    NoSlash(src, 1);
    assert BranchOf(src, C, ab, states[1]) == Plain;
    OrdinaryKept(src, C, ab, keep, states, toks, 2);
    assert src == [d] + ['\''] + src[2..];
  }

  lemma InNumber(src: string, ab: Alphabet)
    requires |src| > 2 && src[1] == '\'' && ab.digit([src[0]]) && ab.alnum(src[0]) && ab.alnum(src[2])
    ensures Separator(src, 1, ab)
  {
    assert NumberFrom(src, 0, 1, ab) && DigitFirst(src, 0, 1, ab);
  }

  // The second token of a text whose first is one character of code.
  lemma SecondToken(src: string, lang: Lang, ab: Alphabet, keep: bool, states: seq<State>, toks: seq<Tok>)
    requires Lexed(src, lang, ab, states, toks) && |src| > 1 && toks != []
    requires toks[0].start == 0 && toks[0].end == 1 && toks[0].kind == Code && toks[0].line == None
    ensures |toks| > 1 && |states| > 2 && states[1].at == 1 && states[1].line == None
    ensures StepOk(src, lang, ab, states[1], toks[1]) && states[2] == After(toks[1])
    ensures Text(src, toks[..2], keep) == [src[0]] + Rendered(src, toks[1], keep)
  {
    hide StepOk, Rendered;
    CodeKept(src, toks[0], keep);
    if |toks| > 1 {
      assert toks[..2][..1] == [toks[0]] && [toks[0]][..0] == [];
      assert Text(src, [toks[0]], keep) == Text(src, [], keep) + Rendered(src, toks[0], keep);
    }
  }

  // A raw string keeps its quotes alone, whatever is in it: quotes, backslashes and newlines do not end it.
  lemma RawText(x: string, b: string, ab: Alphabet, states: seq<State>, toks: seq<Tok>)
    requires var src := "R\"(" + x + ")\"" + b;
      && Lexed(src, C, ab, states, toks) && Ordinary(b)
      && forall k | 3 <= k < 3 + |x| :: !HasWord(src, ")\"", k, |src|)
    ensures Text("R\"(" + x + ")\"" + b, toks, false) == "R\"" + Blank("(" + x + ")") + "\"" + b
  {
    hide Blank, Ordinary, Text, Lexed;
    var src, e := "R\"(" + x + ")\"" + b, 5 + |x|;
    assert src[0] == 'R' && src[1] == '"' && src[2] == '(' && src[e - 1] == '"' && src[e - 2] == ')' && src[e..] == b;
    assert src[2..e - 1] == "(" + x + ")" && src[e - 2..e] == ")\"";
    RawToken(src, e, ab, states, toks);
    assert ("R\"" + Blank("(" + x + ")") + "\"") + b == "R\"" + Blank("(" + x + ")") + "\"" + b;
  }

  lemma RawToken(src: string, e: nat, ab: Alphabet, states: seq<State>, toks: seq<Tok>)
    requires Lexed(src, C, ab, states, toks) && 5 <= e <= |src| && Ordinary(src[e..])
    requires src[0] == 'R' && src[1] == '"' && src[2] == '(' && src[e - 1] == '"' && src[e - 2..e] == ")\""
    requires forall k | 3 <= k < e - 2 :: !HasWord(src, ")\"", k, |src|)
    ensures Text(src, toks, false) == "R\"" + Blank(src[2..e - 1]) + "\"" + src[e..]
  {
    hide Blank, Ordinary, Text, Lexed, StepOk, HasWord;
    FirstToken(src, C, ab, states, toks);
    LetterStep(src, ab, states[0], toks[0]);
    SecondToken(src, C, ab, false, states, toks);
    RawStep(src, e, ab, states[1], toks[1]);
    OrdinaryKept(src, C, ab, false, states, toks, 2);
  }

  lemma LetterStep(src: string, ab: Alphabet, s: State, t: Tok)
    requires StepOk(src, C, ab, s, t) && s == State(0, true, None) && |src| > 0 && src[0] == 'R'
    ensures t.start == 0 && t.end == 1 && t.kind == Code && t.line == None
  {
    NoHeader(src, 0);
    NoSlash(src, 0);
  }

  lemma RawStep(src: string, e: nat, ab: Alphabet, s: State, t: Tok)
    requires StepOk(src, C, ab, s, t) && s.at == 1 && s.line == None && 5 <= e <= |src|
    requires src[0] == 'R' && src[1] == '"' && src[2] == '(' && src[e - 1] == '"' && src[e - 2..e] == ")\""
    requires forall k | 3 <= k < e - 2 :: !HasWord(src, ")\"", k, |src|)
    ensures t.start == 1 && t.end == e && t.kind == Quote(true, true) && t.line == None
  {
    hide RawString, RawPrefixed, HasWord;
    NoHeader(src, 1);
    NoSlash(src, 1);
    assert BranchOf(src, C, ab, s) == Str;
    RawThere(src, e, ab);
    var k :| RawString(src, 1, k, t.end);
    RawStringOnce(src, 1, 2, e, k, t.end);
  }

  lemma RawThere(src: string, e: nat, ab: Alphabet)
    requires 5 <= e <= |src|
    requires src[0] == 'R' && src[1] == '"' && src[2] == '(' && src[e - 1] == '"' && src[e - 2..e] == ")\""
    requires forall k | 3 <= k < e - 2 :: !HasWord(src, ")\"", k, |src|)
    ensures RawPrefixed(src, 1, ab) && RawString(src, 1, 2, e)
  {
    assert src[0..1] == "R" && RawWord(src[0..1]);
    assert src[2..2] == "" && ")" + "" + "\"" == ")\"";
  }

  // Where the first line of a text ends, and what the rest is.
  lemma LineOf(line: string, b: string)
    requires '\n' !in line
    ensures var src := line + "\n" + b;
      && Find(src, '\n', 0, |src|) == |line| && src[..|line|] == line && src[|line|..] == "\n" + b
      && (Ordinary(b) ==> Ordinary(src[|line|..]))
  {
    var src := line + "\n" + b;
    assert src[|line|] == '\n' && src[..|line|] == line && src[|line|..] == "\n" + b;
    assert forall k | 0 <= k < |line| :: src[k] == line[k];
  }

  // ---- texts of Cyrius ----

  // A char literal, of any character but a backslash, is blanked whole: it may be a quote or a newline.
  lemma CharLiteral(c: char, b: string, ab: Alphabet, states: seq<State>, toks: seq<Tok>)
    requires Lexed(['\'', c, '\''] + b, Cyr, ab, states, toks) && c != '\\' && Ordinary(b)
    ensures Text(['\'', c, '\''] + b, toks, false) == Blank(['\'', c, '\'']) + b
    ensures Text(['\'', c, '\''] + b, toks, true) == ['\'', c, '\''] + b
  {
    var src := ['\'', c, '\''] + b;
    assert src[..3] == ['\'', c, '\''] && src[3..] == b && src[2] == '\'' && src[1] == c;
    hide Blank, Ordinary, Text, Lexed;
    FirstToken(src, Cyr, ab, states, toks);
    assert 9 <= |src| ==> src[0..9][0] == src[0];
    assert BranchOf(src, Cyr, ab, states[0]) == Chr && OneChar(src, 0, |src|);
    assert toks[0].end == 3 && toks[0].kind.Char?;
    FirstThenCode(src, Cyr, ab, false, states, toks);
    FirstThenCode(src, Cyr, ab, true, states, toks);
  }

  // An include's name is all that is kept of its line, or its quotes alone.
  lemma IncludeLine(name: string, x: string, b: string, ab: Alphabet, keep: bool, states: seq<State>, toks: seq<Tok>)
    requires Lexed("include \"" + name + "\"" + x + "\n" + b, Cyr, ab, states, toks)
    requires '"' !in name && '\n' !in name && '\n' !in x && Ordinary(b)
    ensures Text("include \"" + name + "\"" + x + "\n" + b, toks, keep)
         == "include \"" + (if keep then name else Blank(name)) + "\"" + Blank(x) + "\n" + b
  {
    hide Blank, Ordinary, Text, Lexed, Find, IncludeName;
    var line, q := "include \"" + name + "\"" + x, 9 + |name|;
    var src := line + "\n" + b;
    assert src == "include \"" + name + "\"" + x + "\n" + b;
    IncludeParts(name, x, b);
    IncludeToken(src, q, |line|, ab, keep, states, toks);
    assert "\"" + Blank(x) + ("\n" + b) == "\"" + Blank(x) + "\n" + b;
  }

  lemma IncludeParts(name: string, x: string, b: string)
    requires '"' !in name && '\n' !in name && '\n' !in x
    ensures var src, q := "include \"" + name + "\"" + x + "\n" + b, 9 + |name|;
      var e := q + 1 + |x|;
      && |src| > e && Find(src, '\n', 0, |src|) == e && src[e..] == "\n" + b && src[0..9] == "include \""
      && IncludeName(src, 0, q, e) && src[9..q] == name && src[q + 1..e] == x
      && (Ordinary(b) ==> Ordinary(src[e..]))
  {
    var line, q := "include \"" + name + "\"" + x, 9 + |name|;
    var src := line + "\n" + b;
    assert src == "include \"" + name + "\"" + x + "\n" + b;
    LineOf(line, b);
    assert src[0..9] == "include \"" && src[9..q] == name && src[q] == '"' && src[q + 1..|line|] == x;
    assert forall k | 9 <= k < q :: src[k] == name[k - 9];
  }

  lemma IncludeToken(src: string, q: nat, e: nat, ab: Alphabet, keep: bool, states: seq<State>, toks: seq<Tok>)
    requires Lexed(src, Cyr, ab, states, toks) && |src| > e && Find(src, '\n', 0, |src|) == e && Ordinary(src[e..])
    requires IncludeName(src, 0, q, e) && src[0..9] == "include \""
    ensures Text(src, toks, keep)
         == "include \"" + (if keep then src[9..q] else Blank(src[9..q])) + ("\"" + Blank(src[q + 1..e]) + src[e..])
  {
    hide Blank, Ordinary, Text, Lexed, Find;
    assert src[0] == src[0..9][0] == 'i';
    FirstToken(src, Cyr, ab, states, toks);
    assert BranchOf(src, Cyr, ab, states[0]) == Inc;
    assert toks[0].end == e && toks[0].kind == Include(q);
    FirstThenCode(src, Cyr, ab, keep, states, toks);
  }

  // An attribute's word is blanked and the rest of its line is code.
  lemma Attribute(k: nat, b: string, ab: Alphabet, keep: bool, states: seq<State>, toks: seq<Tok>)
    requires k < |ATTR_WORDS| && Lexed("#" + ATTR_WORDS[k].0 + " " + b, Cyr, ab, states, toks) && Ordinary(b)
    ensures Text("#" + ATTR_WORDS[k].0 + " " + b, toks, keep) == Blank("#" + ATTR_WORDS[k].0) + " " + b
  {
    hide Blank, Ordinary, Text, Lexed, ATTR_WORDS;
    var word := ATTR_WORDS[k].0;
    var src, e := "#" + word + " " + b, |word| + 1;
    assert src[..e] == "#" + word && src[e..] == " " + b && src[0] == '#' && src[1..e] == word && src[e] == ' ';
    assert Ordinary(src[e..]) by {
      Spaced(b);
    }
    AttributeToken(src, k, ab, keep, states, toks);
    assert Blank("#" + word) + (" " + b) == Blank("#" + word) + " " + b;
  }

  lemma Spaced(b: string)
    requires Ordinary(b)
    ensures Ordinary(" " + b)
  {
  }

  lemma AttributeToken(src: string, k: nat, ab: Alphabet, keep: bool, states: seq<State>, toks: seq<Tok>)
    requires k < |ATTR_WORDS| && Lexed(src, Cyr, ab, states, toks) && |src| > 1 + |ATTR_WORDS[k].0| && src[0] == '#'
    requires src[1..1 + |ATTR_WORDS[k].0|] == ATTR_WORDS[k].0 && src[1 + |ATTR_WORDS[k].0|] == ' '
    requires Ordinary(src[1 + |ATTR_WORDS[k].0|..])
    ensures Text(src, toks, keep) == Blank(src[..1 + |ATTR_WORDS[k].0|]) + src[1 + |ATTR_WORDS[k].0|..]
  {
    hide Blank, Ordinary, Text, Lexed, ATTR_WORDS, IsAttr, FirstSpelt, MacroAt, Find;
    FirstToken(src, Cyr, ab, states, toks);
    SpeltAlone(src, k);
    assert BranchOf(src, Cyr, ab, states[0]) == Hash;
    assert toks[0].end == 1 + |ATTR_WORDS[k].0| && toks[0].kind == Blanked;
    assert src[0..toks[0].end] == src[..toks[0].end];
    FirstThenCode(src, Cyr, ab, keep, states, toks);
  }

  lemma SpeltAlone(src: string, k: nat)
    requires k < |ATTR_WORDS| && |src| > 1 + |ATTR_WORDS[k].0| && HasWord(src, ATTR_WORDS[k].0, 1, |src|)
    requires src[1 + |ATTR_WORDS[k].0|] == ' '
    ensures IsAttr(src, 0, |src|) && forall j | 0 <= j < |ATTR_WORDS| :: FirstSpelt(src, 0, |src|, j) <==> j == k
  {
    hide ATTR_WORDS, HasWord;
    var n := |src|;
    Letters(k);
    FirstLetter(src, ATTR_WORDS[k].0);
    assert Spelt(src, 0, n, ATTR_WORDS[k].0, ATTR_WORDS[k].1);
    assert ATTR_WORDS[k] in ATTR_WORDS;
    forall j | 0 <= j < |ATTR_WORDS| && Spelt(src, 0, n, ATTR_WORDS[j].0, ATTR_WORDS[j].1)
      ensures j == k
    {
      Letters(j);
      SameWord(src, ATTR_WORDS[j].0, ATTR_WORDS[k].0);
      Different(j, k);
    }
  }

  lemma FirstLetter(src: string, w: string)
    requires w != [] && HasWord(src, w, 1, |src|)
    ensures |src| > |w| && src[1] == w[0]
  {
    assert src[1] == src[1..1 + |w|][0];
  }

  // A word of the list cannot be part of another that stands at the same place.
  lemma SameWord(src: string, v: string, w: string)
    requires HasWord(src, v, 1, |src|) && HasWord(src, w, 1, |src|)
    requires forall i | 0 <= i < |v| :: v[i] !in " \t\r\n("
    requires forall i | 0 <= i < |w| :: w[i] !in " \t\r\n("
    requires 1 + |v| >= |src| || src[1 + |v|] in " \t\r\n("
    requires 1 + |w| >= |src| || src[1 + |w|] in " \t\r\n("
    ensures v == w
  {
    assert forall k | 1 <= k < 1 + |v| :: src[k] == v[k - 1];
    assert forall k | 1 <= k < 1 + |w| :: src[k] == w[k - 1];
    assert forall k | 1 <= k < 1 + |v| :: src[k] !in " \t\r\n(";
    assert forall k | 1 <= k < 1 + |w| :: src[k] !in " \t\r\n(";
    assert |v| == |w|;
  }

  lemma Letters(k: nat)
    requires k < |ATTR_WORDS|
    ensures var w := ATTR_WORDS[k].0;
      |w| >= 2 && 'a' <= w[0] <= 'z' && forall i | 0 <= i < |w| :: w[i] !in " \t\r\n("
  {
  }

  lemma Different(j: nat, k: nat)
    requires j < |ATTR_WORDS| && k < |ATTR_WORDS| && ATTR_WORDS[j].0 == ATTR_WORDS[k].0
    ensures j == k
  {
  }

  // A function-like define is blanked up to the end of its parameters, and its body and the next lines are code.
  lemma Define(nm: string, ps: string, body: string, b: string, ab: Alphabet, keep: bool,
               states: seq<State>, toks: seq<Tok>)
    requires Lexed("#define " + nm + "(" + ps + ")" + body + "\n" + b, Cyr, ab, states, toks)
    requires (forall c | c in nm :: c !in "( \t\n") && (forall c | c in ps :: c !in ")\n")
    requires '\n' !in body && Ordinary(body) && Ordinary(b)
    ensures Text("#define " + nm + "(" + ps + ")" + body + "\n" + b, toks, keep)
         == Blank("#define " + nm + "(" + ps + ")") + body + "\n" + b
  {
    hide Blank, Ordinary, Text, Lexed, Find, DefineAt;
    var head := "#define " + nm + "(" + ps + ")";
    var src, p, e, eol := head + body + "\n" + b, 8 + |nm|, |head|, |head| + |body|;
    DefineParts(nm, ps, body, b);
    DefineToken(src, p, e, eol, ab, keep, states, toks);
    assert Blank(head) + (body + "\n" + b) == Blank(head) + body + "\n" + b;
  }

  lemma DefineParts(nm: string, ps: string, body: string, b: string)
    requires (forall c | c in nm :: c !in "( \t\n") && (forall c | c in ps :: c !in ")\n") && '\n' !in body
    ensures var head := "#define " + nm + "(" + ps + ")";
      var src, p, e, eol := head + body + "\n" + b, 8 + |nm|, |head|, |head| + |body|;
      && Find(src, '\n', 0, |src|) == eol < |src| && src[..e] == head && src[e..] == body + "\n" + b
      && src[..8] == "#define "
      && DefineAt(src, 0, eol, |src|, 8, p) && Find(src, ')', p, eol) == e - 1 < eol
      && (Ordinary(body) && Ordinary(b) ==> Ordinary(src[e..]))
  {
    hide DefineAt, Ordinary, Find;
    var head := "#define " + nm + "(" + ps + ")";
    var src, e := head + body + "\n" + b, |head|;
    assert src == (head + body) + "\n" + b;
    HeadParts(nm, ps, body + "\n" + b, e + |body|);
    assert head + (body + "\n" + b) == src;
    assert '\n' !in head + body;
    LineOf(head + body, b);
    OrdinaryLines(body, b);
  }

  lemma OrdinaryLines(body: string, b: string)
    ensures Ordinary(body) && Ordinary(b) ==> Ordinary(body + "\n" + b)
  {
  }

  lemma HeadParts(nm: string, ps: string, rest: string, eol: nat)
    requires (forall c | c in nm :: c !in "( \t\n") && (forall c | c in ps :: c !in ")\n")
    requires |nm| + |ps| + 10 <= eol < |nm| + |ps| + 10 + |rest|
    ensures var head := "#define " + nm + "(" + ps + ")";
      var src, p, e := head + rest, 8 + |nm|, |head|;
      && src[..e] == head && src[e..] == rest && src[..8] == "#define "
      && DefineAt(src, 0, eol, |src|, 8, p) && Find(src, ')', p, eol) == e - 1
  {
    var head := "#define " + nm + "(" + ps + ")";
    var src, p, e := head + rest, 8 + |nm|, |head|;
    assert src[..e] == head && src[e..] == rest;
    assert src[..8] == "#define " && src[0..7] == "#define" && src[7] == ' ';
    assert forall k | 8 <= k < p :: src[k] == nm[k - 8] && nm[k - 8] in nm;
    assert src[p] == '(' && src[e - 1] == ')';
    assert forall k | p < k < e - 1 :: src[k] == ps[k - p - 1] && ps[k - p - 1] in ps;
    FindsChar(src, ')', p, eol, e - 1);
  }

  lemma FindsChar(src: string, c: char, i: nat, n: nat, j: nat)
    requires i <= j < n <= |src| && src[j] == c && forall k | i <= k < j :: src[k] != c
    ensures Find(src, c, i, n) == j
  {
  }

  lemma DefineToken(src: string, p: nat, e: nat, eol: nat, ab: Alphabet, keep: bool, states: seq<State>, toks: seq<Tok>)
    requires Lexed(src, Cyr, ab, states, toks) && |src| > eol && Find(src, '\n', 0, |src|) == eol
    requires eol >= 8 && src[..8] == "#define " && DefineAt(src, 0, eol, |src|, 8, p)
    requires Find(src, ')', p, eol) == e - 1 < eol
    requires Ordinary(src[e..])
    ensures Text(src, toks, keep) == Blank(src[..e]) + src[e..]
  {
    hide Blank, Ordinary, Text, Lexed, Find, DefineAt, IsAttr;
    FirstToken(src, Cyr, ab, states, toks);
    assert src[0] == src[..8][0] == '#' && src[1] == src[..8][1] == 'd' && src[3] == src[..8][3] == 'f';
    NotAttribute(src);
    assert MacroAt(src, 0, eol, |src|, e);
    MacroOnce(src, 0, eol, |src|, e, toks[0].end);
    assert toks[0].end == e && toks[0].kind == Blanked;
    assert src[0..e] == src[..e];
    FirstThenCode(src, Cyr, ab, keep, states, toks);
  }

  // None of the words begins so.
  lemma NotAttribute(src: string)
    requires |src| > 3 && src[1] == 'd' && src[3] == 'f'
    ensures !IsAttr(src, 0, |src|)
  {
    forall j | 0 <= j < |ATTR_WORDS|
      ensures !Spelt(src, 0, |src|, ATTR_WORDS[j].0, ATTR_WORDS[j].1)
    {
      NotDefine(j);
      if Spelt(src, 0, |src|, ATTR_WORDS[j].0, ATTR_WORDS[j].1) {
        FirstLetters(src, ATTR_WORDS[j].0);
      }
    }
  }

  lemma NotDefine(k: nat)
    requires k < |ATTR_WORDS|
    ensures var w := ATTR_WORDS[k].0; w != [] && (w[0] != 'd' || (|w| >= 3 && w[2] != 'f'))
  {
  }

  lemma FirstLetters(src: string, w: string)
    requires w != [] && HasWord(src, w, 1, |src|)
    ensures |src| > |w| && src[1] == w[0] && (|w| >= 3 ==> src[3] == w[2])
  {
    assert forall i | 0 <= i < |w| :: src[1 + i] == w[i];
  }

  // A string of C that does not close on its line ends with it, and the next line is code.
  lemma OpenString(x: string, b: string, ab: Alphabet, states: seq<State>, toks: seq<Tok>)
    requires Lexed("\"" + x + "\n" + b, C, ab, states, toks)
    requires (forall c | c in x :: c !in "\"\\\n") && Ordinary(b)
    ensures Text("\"" + x + "\n" + b, toks, false) == "\"" + Blank(x) + "\n" + b
  {
    hide Blank, Ordinary, Text, Lexed;
    var src, e := "\"" + x + "\n" + b, |x| + 1;
    assert src[0] == '"' && src[e] == '\n' && src[1..e] == x && src[e..] == "\n" + b;
    assert forall k | 0 < k < e :: src[k] == x[k - 1];
    assert Ordinary(src[e..]) by {
      OrdinaryLines("", b);
      assert "" + "\n" + b == "\n" + b;
      NothingOrdinary();
    }
    OpenToken(src, e, ab, states, toks);
    assert "\"" + Blank(x) + ("\n" + b) == "\"" + Blank(x) + "\n" + b;
  }

  lemma NothingOrdinary()
    ensures Ordinary("")
  {
  }

  lemma OpenToken(src: string, e: nat, ab: Alphabet, states: seq<State>, toks: seq<Tok>)
    requires Lexed(src, C, ab, states, toks) && 1 <= e < |src| && src[0] == '"' && src[e] == '\n' && Ordinary(src[e..])
    requires forall k | 0 < k < e :: src[k] !in "\"\\\n"
    ensures Text(src, toks, false) == "\"" + Blank(src[1..e]) + src[e..]
  {
    hide Blank, Ordinary, Text, Lexed, StringEnds;
    FirstToken(src, C, ab, states, toks);
    NoHeader(src, 0);
    NoSlash(src, 0);
    assert BranchOf(src, C, ab, states[0]) == Str;
    StringStops(src, e);
    StringEndsOnce(src, 0, C, |src|, e, false, toks[0].end, toks[0].kind.closed);
    FirstThenCode(src, C, ab, false, states, toks);
  }

  lemma StringStops(src: string, e: nat)
    requires 1 <= e < |src| && src[0] == '"' && src[e] == '\n' && forall k | 0 < k < e :: src[k] !in "\"\\\n"
    ensures StringEnds(src, 0, C, |src|, e, false)
  {
    NoEscapes(src, 0, e);
  }

  // ---- of both ----

  // An escaped quote does not close a string.
  lemma EscapedQuote(x: string, y: string, b: string, lang: Lang, ab: Alphabet, states: seq<State>, toks: seq<Tok>)
    requires Lexed("\"" + x + "\\\"" + y + "\"" + b, lang, ab, states, toks) && Ordinary(b)
    requires (forall c | c in x :: c !in "\"\\\n") && (forall c | c in y :: c !in "\"\\\n")
    ensures Text("\"" + x + "\\\"" + y + "\"" + b, toks, false) == "\"" + Blank(x + "\\\"" + y) + "\"" + b
  {
    hide Blank, Ordinary, Text, Lexed;
    var src, m, e := "\"" + x + "\\\"" + y + "\"" + b, |x| + 1, |x| + |y| + 4;
    assert src[0] == '"' && src[m] == '\\' && src[m + 1] == '"' && src[e - 1] == '"' && src[e..] == b;
    assert src[1..e - 1] == x + "\\\"" + y;
    assert forall k | 0 < k < m :: src[k] == x[k - 1] && x[k - 1] in x;
    assert forall k | m + 1 < k < e - 1 :: src[k] == y[k - m - 2] && y[k - m - 2] in y;
    EscapeCloses(src, m, e, lang);
    StringToken(src, e, lang, ab, states, toks);
    assert ("\"" + Blank(x + "\\\"" + y) + "\"") + b == "\"" + Blank(x + "\\\"" + y) + "\"" + b;
  }

  lemma EscapeCloses(src: string, m: nat, e: nat, lang: Lang)
    requires 1 <= m && m + 2 < e <= |src| && src[0] == '"' == src[e - 1] && src[m] == '\\' && src[m + 1] == '"'
    requires forall k | 0 < k < e - 1 && k != m && k != m + 1 :: src[k] !in "\"\\\n"
    ensures StringEnds(src, 0, lang, |src|, e, true)
  {
    assert Slashes(src, 1, m) == 0 && Slashes(src, 1, m + 1) == 1;
    forall k | m + 1 < k <= e - 1
      ensures !Escaped(src, 0, k)
    {
      assert src[k - 1] != '\\';
    }
  }

  // A string without escapes keeps its quotes alone, and what follows them is code.
  lemma Quoted(x: string, b: string, lang: Lang, ab: Alphabet, states: seq<State>, toks: seq<Tok>)
    requires Lexed("\"" + x + "\"" + b, lang, ab, states, toks)
    requires (forall c | c in x :: c !in "\"\\\n") && Ordinary(b)
    ensures Text("\"" + x + "\"" + b, toks, false) == "\"" + Blank(x) + "\"" + b
  {
    hide Blank, Ordinary, Text, Lexed;
    var src, e := "\"" + x + "\"" + b, |x| + 2;
    assert src[0] == '"' && src[e - 1] == '"' && src[1..e - 1] == x && src[e..] == b;
    assert forall k | 0 < k < e - 1 :: src[k] == x[k - 1];
    StringCloses(src, e, lang);
    StringToken(src, e, lang, ab, states, toks);
    assert ("\"" + Blank(x) + "\"") + b == "\"" + Blank(x) + "\"" + b;
  }

  lemma StringCloses(src: string, e: nat, lang: Lang)
    requires 2 <= e <= |src| && src[0] == '"' == src[e - 1] && forall k | 0 < k < e - 1 :: src[k] !in "\"\\\n"
    ensures StringEnds(src, 0, lang, |src|, e, true)
  {
    NoEscapes(src, 0, e - 1);
  }

  // The first token of a text is the string that ends at `e`, and code follows.
  lemma StringToken(src: string, e: nat, lang: Lang, ab: Alphabet, states: seq<State>, toks: seq<Tok>)
    requires Lexed(src, lang, ab, states, toks) && 2 <= e <= |src| && src[0] == '"' == src[e - 1] && Ordinary(src[e..])
    requires StringEnds(src, 0, lang, |src|, e, true)
    ensures Text(src, toks, false) == "\"" + Blank(src[1..e - 1]) + "\"" + src[e..]
  {
    hide Blank, Ordinary, Text, Lexed, StringEnds;
    FirstToken(src, lang, ab, states, toks);
    NoHeader(src, 0);
    NoSlash(src, 0);
    assert 9 <= |src| ==> src[0..9][0] == src[0];
    assert BranchOf(src, lang, ab, states[0]) == Str;
    StringEndsOnce(src, 0, lang, |src|, e, true, toks[0].end, toks[0].kind.closed);
    FirstThenCode(src, lang, ab, false, states, toks);
  }
}
