// What a source text is as a list of tokens, and what becomes of each when comments and literals are blanked.
// One state follows from another by exactly one token, so a text has one such list and no other.
module Tokens {
  import opened Scan

  // Where the reading is; whether only blanks stand before it on its line; and, in the body of a #define,
  // where that line ends.
  datatype State = State(at: nat, bol: bool, line: Option<nat>)

  // `Code` is kept. `Blanked` is not: a comment, a directive, an attribute's word, the head of a #define.
  // `Dangling` is an include whose name does not close. A header's name runs from `name` to `close`.
  datatype Kind =
    | Code
    | Blanked
    | Dangling
    | Char(hazard: bool)
    | Quote(closed: bool, raw: bool)
    | Include(quote: nat)
    | Header(name: nat, close: nat)

  // A token, and what it makes of the state.
  datatype Tok = Tok(start: nat, end: nat, kind: Kind, bol: bool, line: Option<nat>)

  // Where what is being read ends: with the source, or with the line of a #define.
  function Limit(src: string, s: State): (n: nat) {
    if s.line.Some? then s.line.value else |src|
  }

  function After(t: Tok): (s: State) {
    Settle(State(t.end, t.bol, t.line))
  }

  // At the end of a #define's line its body is over. The define was the first thing on its line.
  function Settle(s: State): (r: State) {
    if s.line == Some(s.at) then State(s.at, true, None) else s
  }

  predicate AtLineStart(src: string, i: nat) {
    i == 0 || (i <= |src| && src[i - 1] == '\n')
  }

  // ---- which token comes next ----

  datatype Branch = Hash | Inc | Head | Slash | Chr | Str | Plain

  ghost predicate IncludeAt(src: string, i: nat) {
    HasWord(src, "include \"", i, |src|) && AtLineStart(src, i)
  }

  ghost function BranchOf(src: string, lang: Lang, ab: Alphabet, s: State): (b: Branch)
    requires s.at < |src|
  {
    var c := src[s.at];
    if lang == Cyr && c == '#' then Hash
    else if lang == Cyr && s.line == None && IncludeAt(src, s.at) then Inc
    else if lang == C && s.bol && exists h :: HeaderAt(src, s.at, h) then Head
    else if lang == C && (HasWord(src, "//", s.at, |src|) || HasWord(src, "/*", s.at, |src|)) then Slash
    else if lang == Cyr && c == '\'' then Chr
    else if c == '"' || (lang == C && c == '\'' && !Separator(src, s.at, ab)) then Str
    else Plain
  }

  // `t` is the token that comes next.
  ghost predicate StepOk(src: string, lang: Lang, ab: Alphabet, s: State, t: Tok) {
    && t.start == s.at < t.end <= Limit(src, s) <= |src|
    && match BranchOf(src, lang, ab, s)
       case Hash => HashStep(src, s, t)
       case Inc => IncludeStep(src, s, t)
       case Head => HeaderStep(src, s, t)
       case Slash => CommentStep(src, s, t)
       case Chr => CharStep(src, s, t)
       case Str => StringStep(src, lang, ab, s, t)
       case Plain => PlainStep(src, s, t)
  }

  // `#` and a word of the list: an attribute, after which the line goes on as code. Otherwise the first thing
  // on a line may be a function-like #define, whose body goes on as code; and anything else is
  // blanked to the end of the line.
  ghost predicate HashStep(src: string, s: State, t: Tok)
    requires s.at < Limit(src, s) <= |src|
  {
    var n := Limit(src, s);
    var eol := Find(src, '\n', s.at, n);
    && t.kind == Blanked
    && if IsAttr(src, s.at, n) then
         && !t.bol && t.line == s.line
         && exists k :: 0 <= k < |ATTR_WORDS| && FirstSpelt(src, s.at, n, k) && t.end == s.at + 1 + |ATTR_WORDS[k].0|
       else if s.bol && s.line == None && exists b :: MacroAt(src, s.at, eol, n, b) then
         MacroAt(src, s.at, eol, n, t.end) && t.bol == AtLineStart(src, t.end) && t.line == Some(eol)
       else
         t.end == eol && t.bol == s.bol && t.line == s.line
  }

  // An include at a line's start takes the whole line: its name runs to the next quote, if one is on the line.
  ghost predicate IncludeStep(src: string, s: State, t: Tok)
    requires s.at < Limit(src, s) <= |src|
  {
    var eol := Find(src, '\n', s.at, Limit(src, s));
    && t.end == eol && t.bol == s.bol && t.line == s.line
    && if exists q :: IncludeName(src, s.at, q, eol) then t.kind.Include? && IncludeName(src, s.at, t.kind.quote, eol)
       else t.kind == Dangling
  }

  predicate IncludeName(src: string, i: nat, q: nat, eol: nat) {
    i + 9 <= q < eol <= |src| && src[q] == '"' && forall k | i + 9 <= k < q :: src[k] != '"'
  }

  // An include line of C: the name runs to the `>`, which is code, or to the end of the line.
  ghost predicate HeaderStep(src: string, s: State, t: Tok)
    requires s.at < Limit(src, s) <= |src|
  {
    var eol := Find(src, '\n', s.at, Limit(src, s));
    && t.kind.Header? && HeaderAt(src, s.at, t.kind.name) && t.kind.name <= eol
    && t.kind.close == Find(src, '>', t.kind.name, eol)
    && t.end == (if t.kind.close == eol then eol else t.kind.close + 1)
    && !t.bol && t.line == s.line
  }

  // A comment of C.
  ghost predicate CommentStep(src: string, s: State, t: Tok)
    requires s.at < Limit(src, s) <= |src|
  {
    && t.kind == Blanked && t.bol == s.bol && t.line == s.line
    && if HasWord(src, "//", s.at, |src|) then t.end == Find(src, '\n', s.at, Limit(src, s))
       else
         var f := FindWord(src, "*/", s.at + 2);
         t.end == if f == None then Limit(src, s) else f.value + 2
  }

  // A char literal of Cyrius.
  ghost predicate CharStep(src: string, s: State, t: Tok)
    requires s.at < Limit(src, s) <= |src|
  {
    var i, n := s.at, Limit(src, s);
    && !t.bol && t.line == s.line
    && t.kind == Char(OneChar(src, i, n) && src[i + 1] in "'\n")
    && if OneChar(src, i, n) then t.end == i + 3
       else if OneEscape(src, i, n) then t.end == i + 4
       else CharEnds(src, i, n, t.end)
  }

  // A string, or a char literal of C.
  ghost predicate StringStep(src: string, lang: Lang, ab: Alphabet, s: State, t: Tok)
    requires s.at < Limit(src, s) <= |src|
  {
    && !t.bol && t.line == s.line && t.kind.Quote?
    && if lang == C && src[s.at] == '"' && IsRaw(src, s.at, ab) then
         t.kind == Quote(true, true) && exists k :: RawString(src, s.at, k, t.end)
       else
         !t.kind.raw && StringEnds(src, s.at, lang, Limit(src, s), t.end, t.kind.closed)
  }

  ghost predicate IsRaw(src: string, i: nat, ab: Alphabet)
    requires i <= |src|
  {
    RawPrefixed(src, i, ab) && exists k, e :: RawString(src, i, k, e)
  }

  predicate PlainStep(src: string, s: State, t: Tok)
    requires s.at < |src|
  {
    var c := src[s.at];
    && t.kind == Code && t.end == s.at + 1 && t.line == s.line
    && t.bol == if c == '\n' then true else s.bol && IsBlank(c)
  }

  // ---- a list of tokens ----

  ghost predicate Steps(src: string, lang: Lang, ab: Alphabet, states: seq<State>, toks: seq<Tok>) {
    && |states| == |toks| + 1
    && forall k | 0 <= k < |toks| :: StepOk(src, lang, ab, states[k], toks[k]) && states[k + 1] == After(toks[k])
  }

  // The tokens from one state to another.
  ghost predicate Segment(src: string, lang: Lang, ab: Alphabet, s: State, r: State,
                          states: seq<State>, toks: seq<Tok>)
  {
    Steps(src, lang, ab, states, toks) && states[0] == s && states[|toks|] == r
  }

  // The tokens of a whole text.
  ghost predicate Lexed(src: string, lang: Lang, ab: Alphabet, states: seq<State>, toks: seq<Tok>) {
    && Steps(src, lang, ab, states, toks)
    && states[0] == State(0, true, None) && states[|toks|].at == |src| && states[|toks|].line == None
  }

  predicate Bounded(src: string, t: Tok) {
    && t.start < t.end <= |src|
    && match t.kind
       case Quote(closed, _) => t.start + (if closed then 2 else 1) <= t.end
       case Include(q) => t.start + 9 <= q < t.end
       case Header(h, f) => t.start <= h <= f <= t.end
       case _ => true
  }

  // What becomes of a token; `keep` keeps what is in literals.
  function Rendered(src: string, t: Tok, keep: bool): (s: string) {
    if !Bounded(src, t) then ""
    else
      match t.kind
      case Code => src[t.start..t.end]
      case Blanked => Blank(src[t.start..t.end])
      case Dangling => Blank(src[t.start..t.end])
      case Char(_) => if keep then src[t.start..t.end] else Blank(src[t.start..t.end])
      case Quote(closed, _) =>
        if keep then src[t.start..t.end]
        else if closed then [src[t.start]] + Blank(src[t.start + 1..t.end - 1]) + [src[t.start]]
        else [src[t.start]] + Blank(src[t.start + 1..t.end])
      case Include(q) =>
        var name := src[t.start + 9..q];
        src[t.start..t.start + 9] + (if keep then name else Blank(name)) + "\"" + Blank(src[q + 1..t.end])
      case Header(h, f) =>
        src[t.start..h] + (if keep then src[h..f] else Blank(src[h..f])) + src[f..t.end]
  }

  function Text(src: string, toks: seq<Tok>, keep: bool): (s: string)
    decreases |toks|
  {
    if toks == [] then ""
    else
      var k := |toks| - 1;
      Text(src, toks[..k], keep) + Rendered(src, toks[k], keep)
  }

  // The string literal a token is, if it is one.
  function LiteralOf(src: string, t: Tok): (ls: seq<Literal>) {
    match t.kind
    case Quote(_, raw) => if t.start < |src| && src[t.start] == '"' then [Literal(t.start, t.end, raw)] else []
    case Include(q) => [Literal(t.start + 8, q + 1, true)]
    case _ => []
  }

  function Literals(src: string, toks: seq<Tok>): (ls: seq<Literal>)
    decreases |toks|
  {
    if toks == [] then []
    else
      var k := |toks| - 1;
      Literals(src, toks[..k]) + LiteralOf(src, toks[k])
  }

  // What the compiler itself reads in two ways.
  function HazardOf(lang: Lang, t: Tok): (hs: seq<nat>) {
    match t.kind
    case Dangling => [t.start]
    case Char(hazard) => if hazard then [t.start] else []
    case Quote(closed, _) => if lang == Cyr && !closed then [t.start] else []
    case _ => []
  }

  function Hazards(lang: Lang, toks: seq<Tok>): (hs: seq<nat>)
    decreases |toks|
  {
    if toks == [] then []
    else
      var k := |toks| - 1;
      Hazards(lang, toks[..k]) + HazardOf(lang, toks[k])
  }

  // ---- one list only ----

  // A text has one list of tokens.
  lemma LexedOnce(src: string, lang: Lang, ab: Alphabet, states: seq<State>, toks: seq<Tok>,
                  states': seq<State>, toks': seq<Tok>)
    requires Lexed(src, lang, ab, states, toks) && Lexed(src, lang, ab, states', toks')
    ensures toks == toks'
  {
    hide StepOk;
    var n := if |toks| <= |toks'| then |toks| else |toks'|;
    SamePrefix(src, lang, ab, states, toks, states', toks', n);
    if |toks| < |toks'| {
      NoStepAtEnd(src, lang, ab, states'[n], toks'[n]);
    } else if |toks'| < |toks| {
      NoStepAtEnd(src, lang, ab, states[n], toks[n]);
    }
    assert toks[..|toks|] == toks && toks'[..|toks'|] == toks';
  }

  lemma NoStepAtEnd(src: string, lang: Lang, ab: Alphabet, s: State, t: Tok)
    requires StepOk(src, lang, ab, s, t)
    ensures s.at < |src|
  {
  }

  lemma {:induction false} SamePrefix(src: string, lang: Lang, ab: Alphabet, states: seq<State>, toks: seq<Tok>,
                                      states': seq<State>, toks': seq<Tok>, k: nat)
    requires Steps(src, lang, ab, states, toks) && Steps(src, lang, ab, states', toks') && states[0] == states'[0]
    requires k <= |toks| && k <= |toks'|
    ensures states[k] == states'[k] && toks[..k] == toks'[..k]
  {
    hide StepOk;
    if k > 0 {
      SamePrefix(src, lang, ab, states, toks, states', toks', k - 1);
      StepOnce(src, lang, ab, states[k - 1], toks[k - 1], toks'[k - 1]);
      assert toks[..k] == toks[..k - 1] + [toks[k - 1]];
      assert toks'[..k] == toks'[..k - 1] + [toks'[k - 1]];
    }
  }

  // One token comes next.
  lemma StepOnce(src: string, lang: Lang, ab: Alphabet, s: State, t: Tok, u: Tok)
    requires StepOk(src, lang, ab, s, t) && StepOk(src, lang, ab, s, u)
    ensures t == u
  {
    hide HashStep, IncludeStep, HeaderStep, CommentStep, CharStep, StringStep, BranchOf;
    match BranchOf(src, lang, ab, s)
    case Hash => HashOnce(src, s, t, u);
    case Inc => IncludeOnce(src, s, t, u);
    case Head => HeaderOnce(src, s, t, u);
    case Slash => CommentOnce(src, s, t, u);
    case Chr => CharOnce(src, s, t, u);
    case Str =>
      OpensString(src, lang, ab, s);
      StringOnce(src, lang, ab, s, t, u);
    case Plain =>
  }

  lemma OpensString(src: string, lang: Lang, ab: Alphabet, s: State)
    requires s.at < |src| && BranchOf(src, lang, ab, s) == Str
    ensures src[s.at] in "\"'"
  {
    hide Separator, HeaderAt, IncludeAt, HasWord;
  }

  lemma HashOnce(src: string, s: State, t: Tok, u: Tok)
    requires s.at < Limit(src, s) <= |src| && HashStep(src, s, t) && HashStep(src, s, u) && t.start == u.start
    ensures t == u
  {
    hide Spelt, DefineAt, Find;
    var n := Limit(src, s);
    var eol := Find(src, '\n', s.at, n);
    if !IsAttr(src, s.at, n) && s.bol && s.line == None && exists b :: MacroAt(src, s.at, eol, n, b) {
      MacroOnce(src, s.at, eol, n, t.end, u.end);
    }
  }

  lemma IncludeOnce(src: string, s: State, t: Tok, u: Tok)
    requires s.at < Limit(src, s) <= |src| && IncludeStep(src, s, t) && IncludeStep(src, s, u) && t.start == u.start
    ensures t == u
  {
    hide Find;
  }

  lemma HeaderOnce(src: string, s: State, t: Tok, u: Tok)
    requires s.at < Limit(src, s) <= |src| && HeaderStep(src, s, t) && HeaderStep(src, s, u) && t.start == u.start
    ensures t == u
  {
    HeaderAtOnce(src, s.at, t.kind.name, u.kind.name);
    hide HeaderAt, Find;
  }

  lemma CommentOnce(src: string, s: State, t: Tok, u: Tok)
    requires s.at < Limit(src, s) <= |src| && CommentStep(src, s, t) && CommentStep(src, s, u) && t.start == u.start
    ensures t == u
  {
    hide Find, FindWord;
  }

  lemma CharOnce(src: string, s: State, t: Tok, u: Tok)
    requires s.at < Limit(src, s) <= |src| && CharStep(src, s, t) && CharStep(src, s, u) && t.start == u.start
    ensures t == u
  {
    if CharEnds(src, s.at, Limit(src, s), t.end) && CharEnds(src, s.at, Limit(src, s), u.end) {
      CharEndsOnce(src, s.at, Limit(src, s), t.end, u.end);
    }
    hide CharEnds;
  }

  lemma StringOnce(src: string, lang: Lang, ab: Alphabet, s: State, t: Tok, u: Tok)
    requires s.at < Limit(src, s) <= |src| && t.start == u.start && src[s.at] in "\"'"
    requires StringStep(src, lang, ab, s, t) && StringStep(src, lang, ab, s, u)
    ensures t == u
  {
    hide StringEnds, RawString, RawPrefixed;
    if lang == C && src[s.at] == '"' && IsRaw(src, s.at, ab) {
      var k :| RawString(src, s.at, k, t.end);
      var j :| RawString(src, s.at, j, u.end);
      RawStringOnce(src, s.at, k, t.end, j, u.end);
    } else {
      StringEndsOnce(src, s.at, lang, Limit(src, s), t.end, t.kind.closed, u.end, u.kind.closed);
    }
  }

  // ---- the text keeps its shape ----

  // Whatever the tokens are, the text keeps its length and its newlines.
  lemma {:induction false} TextShape(src: string, lang: Lang, ab: Alphabet, keep: bool,
                                     states: seq<State>, toks: seq<Tok>, k: nat)
    requires Steps(src, lang, ab, states, toks) && k <= |toks| && states[0].at <= |src|
    ensures states[0].at <= states[k].at <= |src|
    ensures Shape(src[states[0].at..states[k].at], Text(src, toks[..k], keep))
  {
    hide StepOk, Rendered, Shape;
    if k > 0 {
      TextShape(src, lang, ab, keep, states, toks, k - 1);
      var t := toks[k - 1];
      StepShape(src, lang, ab, keep, states[k - 1], t);
      assert toks[..k][..k - 1] == toks[..k - 1];
      ShapeGlue(src, states[0].at, t.start, t.end, Text(src, toks[..k - 1], keep), Rendered(src, t, keep));
    } else {
      EmptyShape(src, states[0].at);
    }
  }

  lemma EmptyShape(src: string, i: nat)
    requires i <= |src|
    ensures Shape(src[i..i], "")
  {
  }

  lemma StepShape(src: string, lang: Lang, ab: Alphabet, keep: bool, s: State, t: Tok)
    requires StepOk(src, lang, ab, s, t)
    ensures t.start == s.at < t.end <= |src| && After(t).at == t.end
    ensures Shape(src[t.start..t.end], Rendered(src, t, keep))
  {
    StepBounded(src, lang, ab, s, t);
    hide StepOk, Bounded;
    RenderedShape(src, t, keep);
  }

  // What a token spans, and the quotes it keeps.
  lemma StepBounded(src: string, lang: Lang, ab: Alphabet, s: State, t: Tok)
    requires StepOk(src, lang, ab, s, t)
    ensures t.start == s.at && Bounded(src, t)
    ensures t.kind.Quote? ==> src[t.start] in "\"'" && (t.kind.closed ==> src[t.end - 1] == src[t.start])
    ensures t.kind.Include? ==> src[t.kind.quote] == '"'
  {
    hide Separator, HeaderAt, RawPrefixed, Find, FindWord, IncludeAt, IsAttr, MacroAt, FirstSpelt, CharEnds, HasWord;
    match BranchOf(src, lang, ab, s)
    case Head => HeaderInside(src, s.at, t.kind.name);
    case Str => StringBounded(src, lang, ab, s, t);
    case Inc =>
    case _ =>
  }

  lemma StringBounded(src: string, lang: Lang, ab: Alphabet, s: State, t: Tok)
    requires s.at < t.end <= Limit(src, s) <= |src| && StringStep(src, lang, ab, s, t)
    ensures t.kind.closed ==> s.at + 2 <= t.end && src[t.end - 1] == src[s.at]
  {
    hide RawPrefixed, Escaped;
    if lang == C && src[s.at] == '"' && IsRaw(src, s.at, ab) {
      var k :| RawString(src, s.at, k, t.end);
      RawStringEnd(src, s.at, k, t.end);
    }
  }

  lemma RenderedShape(src: string, t: Tok, keep: bool)
    requires Bounded(src, t)
    requires t.kind.Quote? ==> src[t.start] in "\"'" && (t.kind.closed ==> src[t.end - 1] == src[t.start])
    requires t.kind.Include? ==> src[t.kind.quote] == '"'
    ensures Shape(src[t.start..t.end], Rendered(src, t, keep))
  {
    hide Shape, Rendered, Bounded;
    match t.kind
    case Quote(_, _) => RenderedQuote(src, t, keep);
    case Include(_) => RenderedInclude(src, t, keep);
    case Header(_, _) => RenderedHeader(src, t, keep);
    case _ => RenderedWhole(src, t, keep);
  }

  lemma RenderedWhole(src: string, t: Tok, keep: bool)
    requires Bounded(src, t) && !t.kind.Quote? && !t.kind.Include? && !t.kind.Header?
    ensures Shape(src[t.start..t.end], Rendered(src, t, keep))
  {
    WholeShape(src, t.start, t.end);
    hide Shape, Blank;
  }

  lemma RenderedQuote(src: string, t: Tok, keep: bool)
    requires Bounded(src, t) && t.kind.Quote? && src[t.start] in "\"'"
    requires t.kind.closed ==> src[t.end - 1] == src[t.start]
    ensures Shape(src[t.start..t.end], Rendered(src, t, keep))
  {
    hide Shape, Blank;
    QuoteShape(src, t.start, t.end, t.kind.closed);
  }

  lemma RenderedInclude(src: string, t: Tok, keep: bool)
    requires Bounded(src, t) && t.kind.Include? && src[t.kind.quote] == '"'
    ensures Shape(src[t.start..t.end], Rendered(src, t, keep))
  {
    hide Shape, Blank;
    IncludeShape(src, t.start, t.kind.quote, t.end, keep);
  }

  lemma RenderedHeader(src: string, t: Tok, keep: bool)
    requires Bounded(src, t) && t.kind.Header?
    ensures Shape(src[t.start..t.end], Rendered(src, t, keep))
  {
    hide Shape, Blank;
    PartsShape(src, t.start, t.kind.name, t.kind.close, t.end);
  }

  lemma WholeShape(src: string, a: nat, e: nat)
    requires a <= e <= |src|
    ensures Shape(src[a..e], src[a..e]) && Shape(src[a..e], Blank(src[a..e]))
  {
  }

  lemma QuoteShape(src: string, a: nat, e: nat, closed: bool)
    requires a + (if closed then 2 else 1) <= e <= |src| && src[a] != '\n' && (closed ==> src[e - 1] == src[a])
    ensures Shape(src[a..e], src[a..e])
    ensures Shape(src[a..e], if closed then [src[a]] + Blank(src[a + 1..e - 1]) + [src[a]]
                             else [src[a]] + Blank(src[a + 1..e]))
  {
    if closed {
      assert src[a..e] == [src[a]] + src[a + 1..e - 1] + [src[a]];
    } else {
      assert src[a..e] == [src[a]] + src[a + 1..e];
    }
  }

  lemma IncludeShape(src: string, a: nat, q: nat, e: nat, keep: bool)
    requires a + 9 <= q < e <= |src| && src[q] == '"'
    ensures var name := src[a + 9..q];
      Shape(src[a..e], src[a..a + 9] + (if keep then name else Blank(name)) + "\"" + Blank(src[q + 1..e]))
  {
    assert src[a..e] == src[a..a + 9] + src[a + 9..q] + [src[q]] + src[q + 1..e];
  }

  lemma PartsShape(src: string, a: nat, h: nat, f: nat, e: nat)
    requires a <= h <= f <= e <= |src|
    ensures Shape(src[a..e], src[a..h] + src[h..f] + src[f..e])
    ensures Shape(src[a..e], src[a..h] + Blank(src[h..f]) + src[f..e])
  {
    assert src[a..e] == src[a..h] + src[h..f] + src[f..e];
  }

  // ---- whole lines ----

  // A text that is one `#` line, no attribute and no function-like #define, is blanked from end to end.
  lemma DirectiveBlanked(src: string, ab: Alphabet, keep: bool, states: seq<State>, toks: seq<Tok>)
    requires Lexed(src, Cyr, ab, states, toks) && src != "" && src[0] == '#' && '\n' !in src
    requires !IsAttr(src, 0, |src|) && forall b :: !MacroAt(src, 0, |src|, |src|, b)
    ensures Text(src, toks, keep) == Blank(src)
  {
    hide Blank, IsAttr, MacroAt;
    OneLine(src);
    assert toks != [] && StepOk(src, Cyr, ab, states[0], toks[0]);
    assert src[0..|src|] == src;
    OneToken(src, Cyr, ab, keep, states, toks);
  }

  // A text that is one line comment of C is blanked from end to end.
  lemma LineCommentBlanked(src: string, ab: Alphabet, keep: bool, states: seq<State>, toks: seq<Tok>)
    requires Lexed(src, C, ab, states, toks) && HasWord(src, "//", 0, |src|) && '\n' !in src
    ensures Text(src, toks, keep) == Blank(src)
  {
    hide Blank;
    OneLine(src);
    assert src[0] == src[0..2][0] == '/';
    assert toks != [] && StepOk(src, C, ab, states[0], toks[0]);
    NoHeader(src, 0);
    assert src[0..|src|] == src;
    OneToken(src, C, ab, keep, states, toks);
  }

  // A text that is one string of Cyrius without escapes keeps its quotes and nothing between them.
  lemma StringBlanked(src: string, ab: Alphabet, states: seq<State>, toks: seq<Tok>)
    requires Lexed(src, Cyr, ab, states, toks) && |src| >= 2 && src[0] == '"' == src[|src| - 1]
    requires forall k | 0 < k < |src| - 1 :: src[k] !in "\"\\"
    ensures Text(src, toks, false) == "\"" + Blank(src[1..|src| - 1]) + "\""
  {
    hide Blank;
    NoEscapes(src, 0, |src| - 1);
    assert StringEnds(src, 0, Cyr, |src|, |src|, true);
    assert 9 <= |src| ==> src[0..9][0] == src[0];
    assert toks != [] && StepOk(src, Cyr, ab, states[0], toks[0]);
    assert src[0..|src|] == src;
    StringEndsOnce(src, 0, Cyr, |src|, |src|, true, toks[0].end, toks[0].kind.closed);
    OneToken(src, Cyr, ab, false, states, toks);
  }

  lemma NoHeader(src: string, i: nat)
    requires i < |src| && src[i] !in " \t#"
    ensures forall h :: !HeaderAt(src, i, h)
  {
  }

  lemma {:induction false} NoEscapes(src: string, i: nat, j: nat)
    requires i < j < |src| && forall k | i < k < j :: src[k] != '\\'
    ensures forall k | i < k <= j :: !Escaped(src, i, k)
  {
  }

  lemma OneLine(src: string)
    requires '\n' !in src
    ensures Find(src, '\n', 0, |src|) == |src|
  {
  }

  // When the first token ends the text, it is the only one.
  lemma OneToken(src: string, lang: Lang, ab: Alphabet, keep: bool, states: seq<State>, toks: seq<Tok>)
    requires Lexed(src, lang, ab, states, toks) && toks != [] && After(toks[0]).at == |src|
    ensures |toks| == 1 && Text(src, toks, keep) == Rendered(src, toks[0], keep)
  {
    hide StepOk, Rendered;
    if |toks| > 1 {
      NoStepAtEnd(src, lang, ab, states[1], toks[1]);
    }
    assert toks[..0] == [];
    assert Text(src, [], keep) == "";
  }
}
