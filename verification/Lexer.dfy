// The scanner behind the source gates: it blanks comments and literals, and what it returns has the
// same length as its input with the newlines at the same offsets, so offsets and line numbers found
// in one are good for the other. It is proved to read the tokens of module Tokens.
module Lexer {
  import opened Scan
  import opened Splices
  import opened Tokens

  // What a stretch of the text becomes, and the literals and hazards in it.
  datatype Walked = Walked(text: string, literals: seq<Literal>, hazards: seq<nat>)

  // The tokens from `s` to `r`, and what becomes of them.
  ghost predicate Reads(src: string, lang: Lang, ab: Alphabet, keep: bool, s: State, r: State,
                        states: seq<State>, toks: seq<Tok>, w: Walked) {
    && Segment(src, lang, ab, s, r, states, toks)
    && w == Walked(Text(src, toks, keep), Literals(src, toks), Hazards(lang, toks))
  }

  lemma ReadsNone(src: string, lang: Lang, ab: Alphabet, keep: bool, s: State)
    ensures Reads(src, lang, ab, keep, s, s, [s], [], Walked("", [], []))
  {
  }

  // One token.
  lemma ReadsOne(src: string, lang: Lang, ab: Alphabet, keep: bool, s: State, t: Tok)
    requires StepOk(src, lang, ab, s, t)
    ensures Reads(src, lang, ab, keep, s, After(t), [s, After(t)], [t],
                  Walked(Rendered(src, t, keep), LiteralOf(src, t), HazardOf(lang, t)))
  {
    hide StepOk, Rendered, LiteralOf, HazardOf;
    assert [t][..0] == [];
    assert Text(src, [], keep) == "" && "" + Rendered(src, t, keep) == Rendered(src, t, keep);
    assert Literals(src, []) + LiteralOf(src, t) == LiteralOf(src, t);
    assert Hazards(lang, []) + HazardOf(lang, t) == HazardOf(lang, t);
  }

  function Joined(v: Walked, w: Walked): (r: Walked) {
    Walked(v.text + w.text, v.literals + w.literals, v.hazards + w.hazards)
  }

  // The states of two stretches; the second begins where the first ends.
  function Onto(states: seq<State>, more: seq<State>): (all: seq<State>) {
    if more == [] then states else states + more[1..]
  }

  // Two stretches, one after the other.
  lemma ReadsMore(src: string, lang: Lang, ab: Alphabet, keep: bool, s: State, m: State, r: State,
                  states: seq<State>, toks: seq<Tok>, v: Walked, states': seq<State>, toks': seq<Tok>, w: Walked)
    requires Reads(src, lang, ab, keep, s, m, states, toks, v) && Reads(src, lang, ab, keep, m, r, states', toks', w)
    ensures Reads(src, lang, ab, keep, s, r, Onto(states, states'), toks + toks', Joined(v, w))
  {
    hide StepOk;
    StepsMore(src, lang, ab, states, toks, states', toks');
    SumsMore(src, lang, keep, toks, toks');
  }

  lemma StepsMore(src: string, lang: Lang, ab: Alphabet, states: seq<State>, toks: seq<Tok>,
                  states': seq<State>, toks': seq<Tok>)
    requires Steps(src, lang, ab, states, toks) && Steps(src, lang, ab, states', toks') && states[|toks|] == states'[0]
    ensures Steps(src, lang, ab, Onto(states, states'), toks + toks')
    ensures Onto(states, states')[|toks + toks'|] == states'[|toks'|]
  {
    hide StepOk;
    var all, ts := Onto(states, states'), toks + toks';
    forall k | 0 <= k < |ts|
      ensures StepOk(src, lang, ab, all[k], ts[k]) && all[k + 1] == After(ts[k])
    {
      if k >= |toks| {
        assert ts[k] == toks'[k - |toks|] && all[k] == states'[k - |toks|] && all[k + 1] == states'[k - |toks| + 1];
      }
    }
  }

  lemma {:induction false} SumsMore(src: string, lang: Lang, keep: bool, toks: seq<Tok>, more: seq<Tok>)
    ensures Text(src, toks + more, keep) == Text(src, toks, keep) + Text(src, more, keep)
    ensures Literals(src, toks + more) == Literals(src, toks) + Literals(src, more)
    ensures Hazards(lang, toks + more) == Hazards(lang, toks) + Hazards(lang, more)
    decreases |more|
  {
    hide Text, Literals, Hazards, Rendered, LiteralOf, HazardOf;
    if more == [] {
      SumsNone(src, lang, keep);
      assert toks + more == toks;
    } else {
      var k := |more| - 1;
      var t, ts := more[k], toks + more[..k];
      SumsMore(src, lang, keep, toks, more[..k]);
      SumsOne(src, lang, keep, ts, t);
      SumsOne(src, lang, keep, more[..k], t);
      assert ts + [t] == toks + more && more[..k] + [t] == more;
      Assoc(Text(src, toks, keep), Text(src, more[..k], keep), Rendered(src, t, keep));
      Assoc(Literals(src, toks), Literals(src, more[..k]), LiteralOf(src, t));
      Assoc(Hazards(lang, toks), Hazards(lang, more[..k]), HazardOf(lang, t));
    }
  }

  lemma SumsNone(src: string, lang: Lang, keep: bool)
    ensures Text(src, [], keep) == "" && Literals(src, []) == [] && Hazards(lang, []) == []
  {
  }

  lemma Assoc<T>(a: seq<T>, b: seq<T>, c: seq<T>)
    ensures (a + b) + c == a + (b + c)
  {
  }

  lemma SumsOne(src: string, lang: Lang, keep: bool, toks: seq<Tok>, t: Tok)
    ensures Text(src, toks + [t], keep) == Text(src, toks, keep) + Rendered(src, t, keep)
    ensures Literals(src, toks + [t]) == Literals(src, toks) + LiteralOf(src, t)
    ensures Hazards(lang, toks + [t]) == Hazards(lang, toks) + HazardOf(lang, t)
  {
    hide Rendered, LiteralOf, HazardOf;
    assert (toks + [t])[..|toks|] == toks;
  }

  // ---- the walk ----

  // The state in which a stretch is read: the source from `lo`, or a #define's body up to the end `hi` of its line.
  function From(i: nat, bol: bool, hi: Option<nat>): (s: State) {
    Settle(State(i, bol, hi))
  }

  // `w` is what becomes of the stretch from `lo` to the end, of the source or of the line.
  ghost predicate Stretch(src: string, lang: Lang, ab: Alphabet, keep: bool, lo: nat, hi: Option<nat>, w: Walked) {
    exists ending, states, toks ::
      && Reads(src, lang, ab, keep, From(lo, AtLineStart(src, lo), hi), ending, states, toks, w)
      && Ends(src, hi, ending)
  }

  predicate Ends(src: string, hi: Option<nat>, s: State) {
    if hi.Some? then s == State(hi.value, true, None) else s.at == |src| && s.line == None
  }

  // Read from `lo` to the end, of the source or of the line.
  method Walk(src: string, lang: Lang, keep: bool, ab: Alphabet, lo: nat, hi: Option<nat>)
    returns (w: Walked)
    requires lo <= (if hi.Some? then hi.value else |src|) <= |src|
    requires hi.Some? ==> lang == Cyr
    ensures Stretch(src, lang, ab, keep, lo, hi, w)
    decreases hi.None?, |src| + 1, 0
  {
    hide Reads, StepOk;
    var n := if hi.Some? then hi.value else |src|;
    w := Walked("", [], []);
    var i := lo;
    var bol := lo == 0 || src[lo - 1] == '\n';
    ghost var s := From(lo, bol, hi);
    ghost var states, toks := [s], [];
    ReadsNone(src, lang, ab, keep, s);
    while i < n
      invariant lo <= i <= n
      invariant Reads(src, lang, ab, keep, s, From(i, bol, hi), states, toks, w)
    {
      var end, after, v;
      ghost var ss, ts;
      end, after, v, ss, ts := NextToken(src, lang, keep, ab, i, n, bol, hi.None?);
      ReadsMore(src, lang, ab, keep, s, From(i, bol, hi), From(end, after, hi), states, toks, w, ss, ts, v);
      states, toks := Onto(states, ss), toks + ts;
      w, i, bol := Joined(w, v), end, after;
    }
    assert s == From(lo, AtLineStart(src, lo), hi) && Ends(src, hi, From(i, bol, hi));
  }

  // The next token, or a #define with all of its body: where it ends, whether only blanks are before that on its
  // line, and what becomes of it.
  method NextToken(src: string, lang: Lang, keep: bool, ab: Alphabet, i: nat, n: nat, bol: bool, top: bool)
    returns (end: nat, after: bool, w: Walked, ghost states: seq<State>, ghost toks: seq<Tok>)
    requires i < n <= |src| && (top ==> n == |src|) && (!top ==> lang == Cyr)
    ensures i < end <= n
    ensures var hi := if top then None else Some(n);
      Reads(src, lang, ab, keep, From(i, bol, hi), From(end, after, hi), states, toks, w)
    decreases top, |src|, 1
  {
    hide Reads, StepOk, BranchOf, Rendered, LiteralOf, HazardOf;
    if lang == Cyr && src[i] == '#' {
      end, after, w, states, toks := HashToken(src, keep, ab, i, n, bol, top);
      return;
    }
    ghost var s := State(i, bol, if top then None else Some(n));
    var t, text := OneToken(src, lang, keep, ab, i, n, bol, top);
    ReadsOne(src, lang, ab, keep, s, t);
    states, toks := [s, After(t)], [t];
    return t.end, t.bol, Walked(text, LiteralOf(src, t), HazardOf(lang, t)), states, toks;
  }

  // What the reading is at, when it is at no `#` of Cyrius.
  method OneToken(src: string, lang: Lang, keep: bool, ab: Alphabet, i: nat, n: nat, bol: bool, top: bool)
    returns (t: Tok, text: string)
    requires i < n <= |src| && (top ==> n == |src|) && (!top ==> lang == Cyr)
    requires !(lang == Cyr && src[i] == '#')
    ensures StepOk(src, lang, ab, State(i, bol, if top then None else Some(n)), t) && text == Rendered(src, t, keep)
    ensures i < t.end <= n && t.line == if top then None else Some(n)
  {
    hide StepOk, Rendered, HeaderAt, Separator, HasWord;
    var c := src[i];
    var line := if top then None else Some(n);
    ghost var s := State(i, bol, line);
    if lang == Cyr && top && (i == 0 || src[i - 1] == '\n') && HasWord(src, "include \"", i, |src|) {
      t, text := IncludeToken(src, keep, ab, i, n, bol);
      return;
    }
    if lang == C {
      if bol {
        var h := HeaderOpen(src, i);
        if h.Some? {
          t, text := HeaderToken(src, keep, ab, i, n, h.value, bol);
          return;
        }
      }
      if HasWord(src, "//", i, |src|) || HasWord(src, "/*", i, |src|) {
        t, text := CommentToken(src, keep, ab, i, n, bol);
        return;
      }
    }
    if lang == Cyr && c == '\'' {
      t, text := CharToken(src, keep, ab, i, n, bol, line);
      return;
    }
    var quoted := c == '"';
    if c == '\'' && lang == C {
      var sep := DigitSep(src, i, ab);
      quoted := !sep;
    }
    if quoted {
      t, text := LiteralToken(src, lang, keep, ab, i, n, bol, line);
      return;
    }
    t := Tok(i, i + 1, Code, if c == '\n' then true else bol && IsBlank(c), line);
    PlainOk(src, lang, ab, keep, s, t);
    return t, src[i..i + 1];
  }

  lemma PlainOk(src: string, lang: Lang, ab: Alphabet, keep: bool, s: State, t: Tok)
    requires s.at < Limit(src, s) <= |src| && BranchOf(src, lang, ab, s) == Plain
    requires t.start == s.at && PlainStep(src, s, t)
    ensures StepOk(src, lang, ab, s, t) && Rendered(src, t, keep) == src[s.at..s.at + 1]
  {
    hide BranchOf;
  }

  // An include at the start of a line: its name has no escapes, and nothing after the name is read.
  method IncludeToken(src: string, keep: bool, ab: Alphabet, i: nat, n: nat, bol: bool) returns (t: Tok, text: string)
    requires i < n == |src| && BranchOf(src, Cyr, ab, State(i, bol, None)) == Inc && IncludeAt(src, i)
    ensures StepOk(src, Cyr, ab, State(i, bol, None), t) && text == Rendered(src, t, keep)
    ensures i < t.end <= n && t.line == None
  {
    hide StepOk, BranchOf, Find, Blank, IncludeAt, Rendered;
    var eol := Find(src, '\n', i, n);
    IncludePlain(src, i);
    var q := Find(src, '"', i + 9, n);
    if q == n || q > eol {
      t := Tok(i, eol, Dangling, bol, None);
      IncludeOk(src, ab, bol, t);
      IncludeRendered(src, keep, t);
      return t, Blank(src[i..eol]);
    }
    var lit := if keep then src[i + 8..q + 1] else "\"" + Blank(src[i + 9..q]) + "\"";
    t := Tok(i, eol, Include(q), bol, None);
    text := "include " + lit + Blank(src[q + 1..eol]);
    IncludeOk(src, ab, bol, t);
    IncludeRendered(src, keep, t);
  }

  lemma IncludeOk(src: string, ab: Alphabet, bol: bool, t: Tok)
    requires t.start < |src| && t.start < t.end == Find(src, '\n', t.start, |src|) && t.bol == bol && t.line == None
    requires BranchOf(src, Cyr, ab, State(t.start, bol, None)) == Inc && IncludeAt(src, t.start) && t.start + 9 <= t.end
    requires t.kind == Dangling || (t.kind.Include? && IncludeName(src, t.start, t.kind.quote, t.end))
    requires t.kind == Dangling ==> forall k | t.start + 9 <= k < t.end :: src[k] != '"'
    ensures StepOk(src, Cyr, ab, State(t.start, bol, None), t)
  {
    hide BranchOf, Find, IncludeAt;
  }

  lemma IncludeRendered(src: string, keep: bool, t: Tok)
    requires t.start < t.end <= |src| && IncludeAt(src, t.start)
    requires t.kind == Dangling || (t.kind.Include? && IncludeName(src, t.start, t.kind.quote, t.end))
    ensures t.kind == Dangling ==> Rendered(src, t, keep) == Blank(src[t.start..t.end])
    ensures t.kind.Include? ==>
      var i, q := t.start, t.kind.quote;
      Rendered(src, t, keep) == "include " + (if keep then src[i + 8..q + 1] else "\"" + Blank(src[i + 9..q]) + "\"")
                                + Blank(src[q + 1..t.end])
  {
    hide Blank;
    if t.kind.Include? {
      IncludeText(src, t.start, t.kind.quote, keep);
      hide IncludeAt, IncludeName;
    }
  }

  lemma IncludePlain(src: string, i: nat)
    requires IncludeAt(src, i)
    ensures i + 9 <= |src| && forall k | i <= k < i + 9 :: src[k] != '\n'
  {
    forall k | i <= k < i + 9
      ensures src[k] != '\n'
    {
      assert src[k] == src[i..i + 9][k - i] == "include \""[k - i];
    }
  }

  lemma IncludeText(src: string, i: nat, q: nat, keep: bool)
    requires HasWord(src, "include \"", i, |src|) && i + 9 <= q < |src| && src[q] == '"'
    ensures var name := src[i + 9..q];
      "include " + (if keep then src[i + 8..q + 1] else "\"" + Blank(name) + "\"")
      == src[i..i + 9] + (if keep then name else Blank(name)) + "\""
  {
    hide Blank;
    assert src[i..i + 9] == "include " + "\"";
    assert src[i + 8] == src[i..i + 9][8] == '"';
    assert src[i + 8..q + 1] == [src[i + 8]] + src[i + 9..q] + [src[q]];
    assert "include " + ("\"" + src[i + 9..q] + "\"") == ("include " + "\"") + src[i + 9..q] + "\"";
    assert "include " + ("\"" + Blank(src[i + 9..q]) + "\"") == ("include " + "\"") + Blank(src[i + 9..q]) + "\"";
  }

  // An include line of C: the header's name is no literal, and no code.
  method HeaderToken(src: string, keep: bool, ab: Alphabet, i: nat, n: nat, h: nat, bol: bool)
    returns (t: Tok, text: string)
    requires i < h <= n == |src| && HeaderAt(src, i, h) && BranchOf(src, C, ab, State(i, bol, None)) == Head
    ensures StepOk(src, C, ab, State(i, bol, None), t) && text == Rendered(src, t, keep)
    ensures i < t.end <= n && t.line == None
  {
    hide StepOk, Rendered, BranchOf, HeaderAt, Find, Blank;
    HeaderInside(src, i, h);
    var e := Find(src, '\n', i, n);
    var f := Find(src, '>', h, e);
    var k := if f == e then e else f + 1;
    var inner := if src[k - 1] == '>' then src[h..k - 1] else src[h..k];
    HeaderName(src, h, e, f);
    t := Tok(i, k, Header(h, f), false, None);
    text := src[i..h] + (if keep then inner else Blank(inner)) + src[h + |inner|..k];
    HeaderOk(src, ab, keep, bol, h, t);
  }

  lemma HeaderOk(src: string, ab: Alphabet, keep: bool, bol: bool, h: nat, t: Tok)
    requires t.start <= |src| && t.start < h <= Find(src, '\n', t.start, |src|) && HeaderAt(src, t.start, h)
    requires var e := Find(src, '\n', t.start, |src|);
      var f := Find(src, '>', h, e);
      t == Tok(t.start, if f == e then e else f + 1, Header(h, f), false, None)
    requires BranchOf(src, C, ab, State(t.start, bol, None)) == Head
    ensures StepOk(src, C, ab, State(t.start, bol, None), t)
    ensures var f := t.kind.close;
      Rendered(src, t, keep) == src[t.start..h] + (if keep then src[h..f] else Blank(src[h..f])) + src[f..t.end]
  {
    hide BranchOf, HeaderAt, Find, Blank;
  }

  lemma HeaderName(src: string, h: nat, e: nat, f: nat)
    requires 0 < h <= e <= |src| && src[h - 1] == '<' && f == Find(src, '>', h, e)
    ensures var k := if f == e then e else f + 1; (if src[k - 1] == '>' then src[h..k - 1] else src[h..k]) == src[h..f]
  {
  }

  // A comment of C.
  method CommentToken(src: string, keep: bool, ab: Alphabet, i: nat, n: nat, bol: bool) returns (t: Tok, text: string)
    requires i < n == |src| && BranchOf(src, C, ab, State(i, bol, None)) == Slash
    requires HasWord(src, "//", i, |src|) || HasWord(src, "/*", i, |src|)
    ensures StepOk(src, C, ab, State(i, bol, None), t) && text == Rendered(src, t, keep)
    ensures i < t.end <= n && t.line == None
  {
    hide BranchOf, Find, FindWord, Blank;
    var j := Find(src, '\n', i, n);
    if HasWord(src, "//", i, |src|) {
      assert src[i] == src[i..i + 2][0] == '/';
    } else {
      var f := FindWord(src, "*/", i + 2);
      j := if f.None? then n else f.value + 2;
    }
    return Tok(i, j, Blanked, bol, None), Blank(src[i..j]);
  }

  // A char literal of Cyrius.
  method CharToken(src: string, keep: bool, ab: Alphabet, i: nat, n: nat, bol: bool, line: Option<nat>)
    returns (t: Tok, text: string)
    requires i < n <= |src| && n == Limit(src, State(i, bol, line)) && src[i] == '\''
    requires BranchOf(src, Cyr, ab, State(i, bol, line)) == Chr
    ensures StepOk(src, Cyr, ab, State(i, bol, line), t) && text == Rendered(src, t, keep)
    ensures i < t.end <= n && t.line == line
  {
    hide BranchOf, CharEnds, Blank;
    var j, hazard := CyrCharEnd(src, i, n);
    return Tok(i, j, Char(hazard), false, line), if keep then src[i..j] else Blank(src[i..j]);
  }

  // A string, or a char literal of C.
  method LiteralToken(src: string, lang: Lang, keep: bool, ab: Alphabet, i: nat, n: nat, bol: bool, line: Option<nat>)
    returns (t: Tok, text: string)
    requires i < n <= |src| && n == Limit(src, State(i, bol, line)) && src[i] in "\"'"
    requires BranchOf(src, lang, ab, State(i, bol, line)) == Str && (lang == C ==> n == |src|)
    ensures StepOk(src, lang, ab, State(i, bol, line), t) && text == Rendered(src, t, keep)
    ensures i < t.end <= n && t.line == line
  {
    hide StepOk, Rendered, BranchOf, StringEnds, RawString, RawPrefixed, Blank;
    var c := src[i];
    var j, closed, raw := 0, false, false;
    if lang == C && c == '"' {
      var e := RawEnd(src, i, ab);
      if e.Some? {
        j, closed, raw := e.value, true, true;
      }
    }
    if !raw {
      j, closed := StringEnd(src, i, lang, n);
      EndsInside(src, i, lang, n, j, closed);
    }
    t := Tok(i, j, Quote(closed, raw), false, line);
    text := src[i..j];
    if !keep {
      text := [c] + Blank(src[i + 1..if closed then j - 1 else j]) + (if closed then [c] else "");
    }
    LiteralOk(src, lang, ab, State(i, bol, line), t);
    LiteralRendered(src, keep, t);
  }

  lemma LiteralOk(src: string, lang: Lang, ab: Alphabet, s: State, t: Tok)
    requires t.start == s.at < t.end <= Limit(src, s) <= |src| && BranchOf(src, lang, ab, s) == Str
    requires StringStep(src, lang, ab, s, t)
    ensures StepOk(src, lang, ab, s, t)
  {
    hide BranchOf, StringStep;
  }

  lemma LiteralRendered(src: string, keep: bool, t: Tok)
    requires Bounded(src, t) && t.kind.Quote?
    ensures var i, j, closed := t.start, t.end, t.kind.closed;
      Rendered(src, t, keep) ==
        if keep then src[i..j]
        else [src[i]] + Blank(src[i + 1..if closed then j - 1 else j]) + (if closed then [src[i]] else "")
  {
    hide Blank;
  }

  lemma EndsInside(src: string, i: nat, lang: Lang, n: nat, e: nat, closed: bool)
    requires StringEnds(src, i, lang, n, e, closed)
    ensures i < e <= n && (closed ==> i + 2 <= e && src[e - 1] == src[i])
  {
  }

  // `#`: an attribute, whose line goes on as code; a function-like #define, whose body does; or a
  // directive or comment, which is the rest of the line.
  method HashToken(src: string, keep: bool, ab: Alphabet, i: nat, n: nat, bol: bool, top: bool)
    returns (end: nat, after: bool, w: Walked, ghost states: seq<State>, ghost toks: seq<Tok>)
    requires i < n <= |src| && src[i] == '#' && (top ==> n == |src|)
    ensures i < end <= n
    ensures var hi := if top then None else Some(n);
      Reads(src, Cyr, ab, keep, From(i, bol, hi), From(end, after, hi), states, toks, w)
    decreases top, |src|, 0
  {
    hide Reads, StepOk, MacroAt, DefineAt, IsAttr, FirstSpelt, Find, Blank;
    var line := if top then None else Some(n);
    ghost var s := State(i, bol, line);
    var eol := Find(src, '\n', i, n);
    var a := AttrWord(src, i, n);
    if a.Some? {
      var j := i + 1 + |a.value|;
      states, toks := HashOk(src, ab, keep, s, Tok(i, j, Blanked, false, line));
      return j, false, Walked(Blank(src[i..j]), [], []), states, toks;
    }
    var body: Option<nat> := None;
    if bol && top {
      body := MacroBody(src, i, eol, n);
    }
    if body.Some? {
      var b := body.value;
      ghost var head := Tok(i, b, Blanked, AtLineStart(src, b), Some(eol));
      ghost var ss, ts;
      ss, ts := HashOk(src, ab, keep, s, head);
      var v;
      v := Walk(src, Cyr, keep, ab, b, Some(eol));
      ghost var ending;
      ending, states, toks :|
        Reads(src, Cyr, ab, keep, After(head), ending, states, toks, v) && Ends(src, Some(eol), ending);
      var first := Walked(Blank(src[i..b]), [], []);
      ReadsMore(src, Cyr, ab, keep, s, After(head), State(eol, true, None), ss, ts, first, states, toks, v);
      return eol, true, Joined(first, v), Onto(ss, states), ts + toks;
    }
    states, toks := HashOk(src, ab, keep, s, Tok(i, eol, Blanked, bol, line));
    return eol, bol, Walked(Blank(src[i..eol]), [], []), states, toks;
  }

  lemma HashOk(src: string, ab: Alphabet, keep: bool, s: State, t: Tok) returns (states: seq<State>, toks: seq<Tok>)
    requires s.at < Limit(src, s) <= |src| && src[s.at] == '#' && t.start == s.at < t.end <= Limit(src, s)
    requires HashStep(src, s, t)
    ensures states == [s, After(t)] && toks == [t]
    ensures Reads(src, Cyr, ab, keep, s, After(t), states, toks, Walked(Blank(src[t.start..t.end]), [], []))
  {
    hide Reads, MacroAt, IsAttr, FirstSpelt, Find, Blank;
    states, toks := [s, After(t)], [t];
    ReadsOne(src, Cyr, ab, keep, s, t);
  }

  // `w` is what becomes of the whole text.
  ghost predicate Stripped(text: string, lang: Lang, ab: Alphabet, keep: bool, w: Walked) {
    exists states, toks ::
      && Lexed(text, lang, ab, states, toks)
      && w == Walked(Text(text, toks, keep), Literals(text, toks), Hazards(lang, toks))
  }

  // Nothing of it is left open: a text has one list of tokens.
  lemma StrippedOnce(text: string, lang: Lang, ab: Alphabet, keep: bool, v: Walked, w: Walked)
    requires Stripped(text, lang, ab, keep, v) && Stripped(text, lang, ab, keep, w)
    ensures v == w
  {
    hide Lexed;
    var states, toks :| Lexed(text, lang, ab, states, toks)
      && v == Walked(Text(text, toks, keep), Literals(text, toks), Hazards(lang, toks));
    var states', toks' :| Lexed(text, lang, ab, states', toks')
      && w == Walked(Text(text, toks', keep), Literals(text, toks'), Hazards(lang, toks'));
    LexedOnce(text, lang, ab, states, toks, states', toks');
  }

  lemma StretchOfAll(text: string, lang: Lang, ab: Alphabet, keep: bool, w: Walked)
    requires Stretch(text, lang, ab, keep, 0, None, w)
    ensures Stripped(text, lang, ab, keep, w) && Shape(text, w.text)
  {
    hide Steps, Shape;
    var ending: State, states, toks :|
      && Reads(text, lang, ab, keep, From(0, AtLineStart(text, 0), None), ending, states, toks, w)
      && Ends(text, None, ending);
    TextShape(text, lang, ab, keep, states, toks, |toks|);
    assert text[0..|text|] == text && toks[..|toks|] == toks;
    assert Lexed(text, lang, ab, states, toks);
  }

  // Blank comments and, unless they are kept, what strings hold. For C the offsets are those of the
  // normalised text.
  method Strip(src: string, lang: Lang, keep: bool, ab: Alphabet) returns (w: Walked)
    ensures var text := if lang == C then Normalized(src) else src;
      && Stripped(text, lang, ab, keep, w)
      && |w.text| == |text|
      && (forall k | 0 <= k < |text| :: w.text[k] == '\n' <==> text[k] == '\n')
      && (forall k | 0 <= k <= |text| :: Newlines(w.text[..k]) == Newlines(text[..k]))
      && (forall k | 0 <= k < |text| :: w.text[k] == text[k] || w.text[k] == ' ')
  {
    hide Stretch, Stripped;
    var text := src;
    if lang == C {
      text := NormalizeC(src);
    }
    w := Walk(text, lang, keep, ab, 0, None);
    StretchOfAll(text, lang, ab, keep, w);
    ShapeKeepsLines(text, w.text);
  }
}
