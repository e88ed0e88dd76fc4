// The small scans of the lexer: where an attribute's word, a #define's body, a literal, a raw string and an
// included header's name begin and end, and what it is for a text to keep its lines.
module Scan {
  datatype Option<T> = None | Some(value: T)

  datatype Lang = Cyr | C

  // A string literal: from its opening quote, to just past it, and whether it is raw.
  datatype Literal = Literal(start: nat, end: nat, raw: bool)

  // The attribute words, and whether `(` may end each.
  const ATTR_WORDS: seq<(string, bool)> := [
    ("assert", true), ("regalloc", false), ("deprecated", true), ("must_use", false), ("pure", false),
    ("io", false), ("alloc", false), ("naked", false), ("inline", false), ("pe_import", true)]

  // What counts as a letter or digit, and as a digit, of the text's alphabet.
  datatype Alphabet = Alphabet(alnum: char -> bool, digit: string -> bool)

  predicate IsBlank(c: char) {
    c == ' ' || c == '\t'
  }

  // ---- shape ----

  // Every character is kept, or is a blank in the place of one that is not a newline.
  ghost predicate Shape(src: string, out: string) {
    |out| == |src| && forall k | 0 <= k < |src| :: out[k] == src[k] || (out[k] == ' ' && src[k] != '\n')
  }

  function Blank(s: string): (b: string)
    ensures Shape(s, b)
  {
    seq(|s|, k requires 0 <= k < |s| => if s[k] == '\n' then '\n' else ' ')
  }

  // The newlines are at the same offsets, so every offset is on the same line.
  lemma ShapeKeepsLines(src: string, out: string)
    requires Shape(src, out)
    ensures forall k | 0 <= k < |src| :: out[k] == '\n' <==> src[k] == '\n'
    ensures forall k | 0 <= k <= |src| :: Newlines(out[..k]) == Newlines(src[..k])
  {
    forall k | 0 <= k <= |src|
      ensures Newlines(out[..k]) == Newlines(src[..k])
    {
      SameNewlines(src[..k], out[..k]);
    }
  }

  function Newlines(s: string): (n: nat) {
    if s == "" then 0 else (if s[0] == '\n' then 1 else 0) + Newlines(s[1..])
  }

  lemma {:induction false} SameNewlines(a: string, b: string)
    requires |a| == |b| && forall k | 0 <= k < |a| :: a[k] == '\n' <==> b[k] == '\n'
    ensures Newlines(a) == Newlines(b)
    decreases |a|
  {
    if a != "" {
      SameNewlines(a[1..], b[1..]);
    }
  }

  lemma ShapeGlue(src: string, i: nat, j: nat, k: nat, a: string, b: string)
    requires i <= j <= k <= |src| && Shape(src[i..j], a) && Shape(src[j..k], b)
    ensures Shape(src[i..k], a + b)
  {
    assert forall x | 0 <= x < k - i :: src[i..k][x] == src[i + x];
    assert forall x | 0 <= x < j - i :: src[i..j][x] == src[i + x];
    assert forall x | 0 <= x < k - j :: src[j..k][x] == src[j + x];
  }

  // ---- searching ----

  // The first `c` in [i, n), or `n`.
  function Find(src: string, c: char, i: nat, n: nat): (j: nat)
    requires i <= n <= |src|
    ensures i <= j <= n
    ensures j < n ==> src[j] == c
    ensures forall k | i <= k < j :: src[k] != c
    decreases n - i
  {
    if i == n || src[i] == c then i else Find(src, c, i + 1, n)
  }

  // The first occurrence of `w` at or after `i`, if any.
  function FindWord(src: string, w: string, i: nat): (j: Option<nat>)
    ensures j.Some? ==> i <= j.value && j.value + |w| <= |src| && src[j.value..j.value + |w|] == w
    ensures forall k: nat | i <= k && (j == None || k < j.value) :: !HasWord(src, w, k, |src|)
    decreases |src| - i
  {
    if i + |w| > |src| then None
    else if src[i..i + |w|] == w then Some(i)
    else FindWord(src, w, i + 1)
  }

  predicate HasWord(src: string, w: string, i: nat, n: nat) {
    i + |w| <= n <= |src| && src[i..i + |w|] == w
  }

  // ---- the pieces of the walk ----

  // The word stands after the `#` at `q`, and ends at the end of the text, a blank, a line end, or
  // a parenthesis where the word allows it.
  predicate Spelt(src: string, q: nat, n: nat, word: string, ap: bool) {
    && HasWord(src, word, q + 1, n)
    && var e := q + 1 + |word|;
    e >= n || src[e] in " \t\r\n" || (ap && src[e] == '(')
  }

  predicate FirstSpelt(src: string, q: nat, n: nat, k: nat)
    requires k < |ATTR_WORDS|
  {
    && Spelt(src, q, n, ATTR_WORDS[k].0, ATTR_WORDS[k].1)
    && forall j | 0 <= j < k :: !Spelt(src, q, n, ATTR_WORDS[j].0, ATTR_WORDS[j].1)
  }

  predicate IsAttr(src: string, q: nat, n: nat) {
    && q + 2 < n <= |src| && 'a' <= src[q + 1] <= 'z'
    && exists t :: t in ATTR_WORDS && Spelt(src, q, n, t.0, t.1)
  }

  // The attribute word the `#` at `q` spells: the first of the list that does.
  method AttrWord(src: string, q: nat, n: nat) returns (w: Option<string>)
    requires q < n <= |src| && src[q] == '#'
    ensures w.Some? ==> HasWord(src, w.value, q + 1, n)
    ensures w.Some? <==> IsAttr(src, q, n)
    ensures w.Some? ==> exists k :: 0 <= k < |ATTR_WORDS| && ATTR_WORDS[k].0 == w.value && FirstSpelt(src, q, n, k)
  {
    if q + 2 >= n || !('a' <= src[q + 1] <= 'z') {
      return None;
    }
    var k := 0;
    while k < |ATTR_WORDS|
      invariant 0 <= k <= |ATTR_WORDS|
      invariant forall j | 0 <= j < k :: !Spelt(src, q, n, ATTR_WORDS[j].0, ATTR_WORDS[j].1)
    {
      if Spelt(src, q, n, ATTR_WORDS[k].0, ATTR_WORDS[k].1) {
        assert ATTR_WORDS[k] in ATTR_WORDS && FirstSpelt(src, q, n, k);
        return Some(ATTR_WORDS[k].0);
      }
      k := k + 1;
    }
    return None;
  }

  // A function-like #define from `i`, on the line that ends at `eol`, whose body starts at `b`: blanks, a name up
  // to its parenthesis, and the parameters to the first closing one.
  predicate DefineAt(src: string, i: nat, eol: nat, n: nat, a: nat, p: nat) {
    && HasWord(src, "#define", i, |src|) && i + 8 < n && i + 8 <= a <= p < eol <= |src| && IsBlank(src[i + 7])
    && (forall k | i + 8 <= k < a :: IsBlank(src[k]))
    && (forall k | a <= k < p :: src[k] != '(' && !IsBlank(src[k]))
    && src[p] == '('
  }

  function BodyAfter(src: string, p: nat, eol: nat): (b: nat)
    requires p <= eol <= |src|
    ensures p <= b <= eol
    ensures p < eol && src[p] == '(' ==> p < b
  {
    var e := Find(src, ')', p, eol);
    if e == eol then eol else e + 1
  }

  ghost predicate MacroAt(src: string, i: nat, eol: nat, n: nat, b: nat) {
    exists a, p :: DefineAt(src, i, eol, n, a, p) && b == BodyAfter(src, p, eol)
  }

  // Where the body of a function-like #define starts.
  method MacroBody(src: string, i: nat, eol: nat, n: nat) returns (b: Option<nat>)
    requires i <= eol <= n <= |src|
    ensures b.Some? ==> i < b.value <= eol && MacroAt(src, i, eol, n, b.value)
    ensures b == None ==> forall x :: !MacroAt(src, i, eol, n, x)
  {
    if !HasWord(src, "#define", i, |src|) || i + 8 >= n || !IsBlank(src[i + 7]) {
      return None;
    }
    var j := i + 8;
    while j < eol && IsBlank(src[j])
      invariant i + 8 <= j && forall k | i + 8 <= k < j && k < |src| :: IsBlank(src[k])
    {
      j := j + 1;
    }
    ghost var name := j;
    while j < eol && src[j] != '(' && !IsBlank(src[j])
      invariant i + 8 <= name <= j && forall k | name <= k < j && k < |src| :: src[k] != '(' && !IsBlank(src[k])
    {
      j := j + 1;
    }
    if j >= eol || src[j] != '(' {
      forall a, p | DefineAt(src, i, eol, n, a, p)
        ensures false
      {
        DefineStart(src, i, eol, n, a, p, name, j);
      }
      return None;
    }
    assert DefineAt(src, i, eol, n, name, j);
    return Some(BodyAfter(src, j, eol));
  }

  // There is one reading of a #define's name.
  lemma DefineStart(src: string, i: nat, eol: nat, n: nat, a: nat, p: nat, name: nat, j: nat)
    requires DefineAt(src, i, eol, n, a, p)
    requires i + 8 <= name <= j && (name < eol ==> !IsBlank(src[name]))
    requires forall k | i + 8 <= k < name && k < |src| :: IsBlank(src[k])
    requires forall k | name <= k < j && k < |src| :: src[k] != '(' && !IsBlank(src[k])
    requires j < eol ==> src[j] == '(' || IsBlank(src[j])
    ensures j == p
  {
    assert a < name ==> BlankAt(src, a);
    assert name < a ==> BlankAt(src, name);
    assert a == name;
    assert j < p ==> !BlankAt(src, j);
  }

  predicate BlankAt(src: string, k: nat) {
    k < |src| && IsBlank(src[k])
  }

  lemma MacroOnce(src: string, i: nat, eol: nat, n: nat, b: nat, c: nat)
    requires MacroAt(src, i, eol, n, b) && MacroAt(src, i, eol, n, c)
    ensures b == c
  {
    var a, p :| DefineAt(src, i, eol, n, a, p) && b == BodyAfter(src, p, eol);
    var d, q :| DefineAt(src, i, eol, n, d, q) && c == BodyAfter(src, q, eol);
    DefineStart(src, i, eol, n, a, p, d, q);
  }

  // ---- escapes ----

  // How many backslashes stand together just before `k`, not counting any before `lo`.
  function Slashes(src: string, lo: nat, k: nat): (n: nat)
    requires lo <= k <= |src|
    decreases k
  {
    if k == lo || src[k - 1] != '\\' then 0 else 1 + Slashes(src, lo, k - 1)
  }

  // The character at `k` of the literal opening at `i` is escaped: an odd number of backslashes stand before it.
  predicate Escaped(src: string, i: nat, k: nat)
    requires i < k <= |src|
  {
    Slashes(src, i + 1, k) % 2 == 1
  }

  // After an unescaped backslash comes an escaped character, and after that one that is not; after any
  // other character that is not escaped comes another.
  lemma EscapedNext(src: string, i: nat, j: nat)
    requires i < j < |src| && !Escaped(src, i, j)
    ensures src[j] == '\\' ==> Escaped(src, i, j + 1)
    ensures src[j] == '\\' && j + 1 < |src| ==> !Escaped(src, i, j + 2)
    ensures src[j] != '\\' ==> !Escaped(src, i, j + 1)
  {
    if src[j] == '\\' && j + 1 < |src| && src[j + 1] == '\\' {
      assert Slashes(src, i + 1, j + 2) == 1 + Slashes(src, i + 1, j + 1) == 2 + Slashes(src, i + 1, j);
    }
  }

  // A char literal ends past its first unescaped quote, or before the first newline, escaped or not.
  predicate StopsChar(src: string, i: nat, k: nat)
    requires i < k < |src|
  {
    src[k] == '\n' || (src[k] == '\'' && !Escaped(src, i, k))
  }

  predicate CharEnds(src: string, i: nat, n: nat, e: nat) {
    && i < e <= n <= |src|
    && var quoted := e > i + 1 && src[e - 1] == '\'' && !Escaped(src, i, e - 1);
    && (forall k | i < k < (if quoted then e - 1 else e) :: !StopsChar(src, i, k))
    && (!quoted && e < n ==> src[e] == '\n')
  }

  lemma CharEndsOnce(src: string, i: nat, n: nat, e: nat, f: nat)
    requires CharEnds(src, i, n, e) && CharEnds(src, i, n, f)
    ensures e == f
  {
    hide Escaped;
    CharStop(src, i, n, e);
    CharStop(src, i, n, f);
  }

  // The character that ended it, unless the text did.
  lemma CharStop(src: string, i: nat, n: nat, e: nat)
    requires CharEnds(src, i, n, e)
    ensures e == n || (StopsChar(src, i, e) && src[e] == '\n') || (i + 1 < e && StopsChar(src, i, e - 1))
    ensures i + 1 < e && StopsChar(src, i, e - 1) ==> src[e - 1] == '\''
    ensures forall k | i < k < e - 1 :: !StopsChar(src, i, k)
  {
    hide Escaped;
  }

  predicate OneChar(src: string, i: nat, n: nat) {
    i + 2 < n <= |src| && src[i + 1] != '\\' && src[i + 2] == '\''
  }

  predicate OneEscape(src: string, i: nat, n: nat) {
    i + 3 < n <= |src| && src[i + 1] == '\\' && src[i + 2] != '\n' && src[i + 3] == '\''
  }

  // The end of the char literal whose quote is at `i`, and whether it is one that is read two ways.
  method CyrCharEnd(src: string, i: nat, n: nat) returns (e: nat, hazard: bool)
    requires i < n <= |src| && src[i] == '\''
    ensures i < e <= n
    ensures if OneChar(src, i, n) then e == i + 3
            else if OneEscape(src, i, n) then e == i + 4
            else CharEnds(src, i, n, e)
    ensures hazard <==> OneChar(src, i, n) && src[i + 1] in "'\n"
  {
    if i + 2 < n && src[i + 1] != '\\' && src[i + 2] == '\'' {
      return i + 3, src[i + 1] in "'\n";
    }
    if i + 3 < n && src[i + 1] == '\\' && src[i + 2] != '\n' && src[i + 3] == '\'' {
      return i + 4, false;
    }
    var j := i + 1;
    while j < n
      invariant i < j && (j <= n ==> !Escaped(src, i, j))
      invariant forall k | i < k < j && k < n :: !StopsChar(src, i, k)
    {
      EscapedNext(src, i, j);
      if src[j] == '\n' {
        return j, false;
      }
      if src[j] == '\\' {
        if j + 1 < n && src[j + 1] == '\n' {
          return j + 1, false;
        }
        j := j + 2;
        continue;
      }
      if src[j] == '\'' {
        return j + 1, false;
      }
      j := j + 1;
    }
    return n, false;
  }

  // A string ends past its first unescaped closing quote. A C literal without one on its line ends with
  // the line: only an escaped newline is inside it.
  predicate StringEnds(src: string, i: nat, lang: Lang, n: nat, e: nat, closed: bool) {
    && i < e <= n <= |src|
    && (closed ==> i + 2 <= e && src[e - 1] == src[i] && !Escaped(src, i, e - 1))
    && (forall k | i < k < (if closed then e - 1 else e) ::
          (src[k] == src[i] || (lang == C && src[k] == '\n') ==> Escaped(src, i, k)))
    && (!closed && e < n ==> lang == C && src[e] == '\n' && !Escaped(src, i, e))
  }

  lemma StringEndsOnce(src: string, i: nat, lang: Lang, n: nat, e: nat, closed: bool, f: nat, shut: bool)
    requires StringEnds(src, i, lang, n, e, closed) && StringEnds(src, i, lang, n, f, shut) && src[i] in "\"'"
    ensures e == f && closed == shut
  {
    hide Escaped;
  }

  // The end of the literal opening at `i`, and whether that is past its closing quote.
  method StringEnd(src: string, i: nat, lang: Lang, n: nat) returns (e: nat, closed: bool)
    requires i < n <= |src| && src[i] in "\"'"
    ensures StringEnds(src, i, lang, n, e, closed)
  {
    var q := src[i];
    var j := i + 1;
    while j < n && src[j] != q
      invariant i < j && (j <= n ==> !Escaped(src, i, j))
      invariant forall k | i < k < j && k < n :: (src[k] == q || (lang == C && src[k] == '\n') ==> Escaped(src, i, k))
    {
      EscapedNext(src, i, j);
      if src[j] == '\\' {
        j := j + 1;
      } else if src[j] == '\n' && lang == C {
        return j, false;
      }
      j := j + 1;
    }
    if j < n {
      return j + 1, true;
    }
    return n, false;
  }

  // The characters of a number so far run back from `i` to `k`.
  predicate NumberFrom(src: string, k: nat, i: nat, ab: Alphabet) {
    && k <= i <= |src|
    && (forall j | k <= j < i :: ab.alnum(src[j]) || src[j] in "_.'")
    && (k > 0 ==> !(ab.alnum(src[k - 1]) || src[k - 1] in "_.'"))
  }

  // A digit separator: a quote inside a number. What comes before it, back to the first character no
  // number has, starts with a digit or with a point and a digit.
  ghost predicate Separator(src: string, i: nat, ab: Alphabet) {
    && i + 1 < |src| && (ab.alnum(src[i + 1]) || src[i + 1] == '_')
    && exists k: nat :: k < i && NumberFrom(src, k, i, ab) && DigitFirst(src, k, i, ab)
  }

  predicate DigitFirst(src: string, k: nat, i: nat, ab: Alphabet)
    requires k < i <= |src|
  {
    ab.digit([src[k]]) || (src[k] == '.' && k + 1 < i && ab.digit([src[k + 1]]))
  }

  lemma OneNumber(src: string, k: nat, m: nat, i: nat, ab: Alphabet)
    requires NumberFrom(src, k, i, ab) && NumberFrom(src, m, i, ab)
    ensures k == m
  {
  }

  method DigitSep(src: string, i: nat, ab: Alphabet) returns (r: bool)
    requires i < |src|
    ensures r <==> Separator(src, i, ab)
  {
    if i + 1 >= |src| || !(ab.alnum(src[i + 1]) || src[i + 1] == '_') {
      return false;
    }
    var k := i - 1;
    while k >= 0 && (ab.alnum(src[k]) || src[k] in "_.'")
      invariant -1 <= k < i
      invariant forall j | k < j < i :: ab.alnum(src[j]) || src[j] in "_.'"
    {
      k := k - 1;
    }
    var start := k + 1;
    assert NumberFrom(src, start, i, ab);
    forall m: nat | NumberFrom(src, m, i, ab)
      ensures m == start
    {
      OneNumber(src, m, start, i, ab);
    }
    hide NumberFrom;
    if start >= i {
      return false;
    }
    return DigitFirst(src, start, i, ab);
  }

  // The spelling of a raw string's prefix. The search anchors its end at the quote, or at a newline
  // just before the quote.
  predicate RawWord(w: string) {
    w in ["u8R", "uR", "UR", "LR", "R", "uR\n", "UR\n", "LR\n", "R\n"]
  }

  // The leftmost such prefix before the quote at `i` stands alone, not at the end of a word.
  predicate RawPrefixed(src: string, i: nat, ab: Alphabet)
    requires i <= |src|
  {
    exists s: nat | (if i < 3 then 0 else i - 3) <= s < i ::
      && RawWord(src[s..i]) && (forall t: nat | (if i < 3 then 0 else i - 3) <= t < s :: !RawWord(src[t..i]))
      && !(s > 0 && (ab.alnum(src[s - 1]) || src[s - 1] == '_'))
  }

  predicate PlainDelimiter(d: string) {
    forall c | c in d :: c !in " \\)\t\n\""
  }

  // A raw string's quote at `i`, its parenthesis at `k`, and just past the first `)`, delimiter, quote, `e`.
  predicate RawString(src: string, i: nat, k: nat, e: nat) {
    && i < k < i + 18 && k < |src| && src[k] == '(' && (forall j | i < j < k :: src[j] != '(')
    && PlainDelimiter(src[i + 1..k])
    && var w := ")" + src[i + 1..k] + "\"";
    && k + 1 + |w| <= e && HasWord(src, w, e - |w|, |src|)
    && forall j: nat | k < j < e - |w| :: !HasWord(src, w, j, |src|)
  }

  lemma RawStringOnce(src: string, i: nat, k: nat, e: nat, j: nat, f: nat)
    requires RawString(src, i, k, e) && RawString(src, i, j, f)
    ensures k == j && e == f
  {
  }

  lemma RawStringEnd(src: string, i: nat, k: nat, e: nat)
    requires RawString(src, i, k, e)
    ensures i + 3 <= e <= |src| && src[e - 1] == '"'
  {
    hide PlainDelimiter;
    var v := ")" + src[i + 1..k];
    LastOf(src, v, e - |v| - 1);
  }

  // Just past the raw string whose quote is at `i`, if it is one.
  method RawEnd(src: string, i: nat, ab: Alphabet) returns (e: Option<nat>)
    requires i < |src| && src[i] == '"'
    ensures e.Some? ==> i + 2 <= e.value <= |src| && src[e.value - 1] == '"'
    ensures e.Some? ==> RawPrefixed(src, i, ab) && exists k :: RawString(src, i, k, e.value)
    ensures e == None ==> !RawPrefixed(src, i, ab) || forall k, x :: !RawString(src, i, k, x)
  {
    var s := if i < 3 then 0 else i - 3;
    while s < i && !RawWord(src[s..i])
      invariant s <= i
      invariant forall t: nat | (if i < 3 then 0 else i - 3) <= t < s :: !RawWord(src[t..i])
    {
      s := s + 1;
    }
    if s == i || (s > 0 && (ab.alnum(src[s - 1]) || src[s - 1] == '_')) {
      return None;
    }
    e := RawBody(src, i);
  }

  method RawBody(src: string, i: nat) returns (e: Option<nat>)
    requires i < |src| && src[i] == '"'
    ensures e.Some? ==> i + 2 <= e.value <= |src| && src[e.value - 1] == '"'
    ensures e.Some? ==> exists k :: RawString(src, i, k, e.value)
    ensures e == None ==> forall k, x :: !RawString(src, i, k, x)
  {
    hide RawString, FindWord, Find;
    var bound := if i + 18 <= |src| then i + 18 else |src|;
    var k := Find(src, '(', i + 1, bound);
    if k == bound {
      NoParenthesis(src, i, k);
      return None;
    }
    var delim := src[i + 1..k];
    if exists c :: c in delim && c in " \\)\t\n\"" {
      OneParenthesis(src, i, k);
      return None;
    }
    var w := ")" + delim + "\"";
    var f := FindWord(src, w, k + 1);
    if f == None {
      OneParenthesis(src, i, k);
      return None;
    }
    LastOf(src, ")" + delim, f.value);
    RawFound(src, i, k, f.value);
    return Some(f.value + |delim| + 2);
  }

  lemma NoParenthesis(src: string, i: nat, bound: nat)
    requires bound <= |src| && bound == (if i + 18 <= |src| then i + 18 else |src|)
    requires forall j | i < j < bound :: src[j] != '('
    ensures forall k, x :: !RawString(src, i, k, x)
  {
  }

  lemma OneParenthesis(src: string, i: nat, k: nat)
    requires i < k < |src| && src[k] == '(' && forall j | i < j < k :: src[j] != '('
    requires PlainDelimiter(src[i + 1..k]) ==> FindWord(src, ")" + src[i + 1..k] + "\"", k + 1) == None
    ensures forall m, x :: !RawString(src, i, m, x)
  {
    assert forall m: nat, x: nat | RawString(src, i, m, x) :: m == k;
  }

  lemma RawFound(src: string, i: nat, k: nat, f: nat)
    requires i < k < i + 18 && k < |src| && src[k] == '(' && forall j | i < j < k :: src[j] != '('
    requires PlainDelimiter(src[i + 1..k])
    requires FindWord(src, ")" + src[i + 1..k] + "\"", k + 1) == Some(f)
    ensures RawString(src, i, k, f + (k - i - 1) + 2)
  {
    hide FindWord, PlainDelimiter;
    assert |")" + src[i + 1..k] + "\""| == (k - i - 1) + 2;
  }

  lemma LastOf(src: string, v: string, at: nat)
    requires at + |v| + 1 <= |src| && src[at..at + |v| + 1] == v + "\""
    ensures src[at + |v|] == '"'
  {
    assert src[at + |v|] == src[at..at + |v| + 1][|v|] == (v + "\"")[|v|];
  }

  const HEADER_WORDS: seq<string> := ["include", "include_next", "import"]

  // The line at `i` includes a header: a `#`, one of the words, and a `<` just before `h`, with blanks between.
  ghost predicate HeaderAt(src: string, i: nat, h: nat) {
    i <= |src|
    && var a := SkipBlanks(src, i);
    a < |src| && src[a] == '#'
    && var b := SkipBlanks(src, a + 1);
    exists w :: 0 <= w < 3 && HeaderWord(src, b, w, h)
  }

  predicate HeaderWord(src: string, b: nat, w: nat, h: nat)
    requires w < 3
  {
    && HasWord(src, HEADER_WORDS[w], b, |src|)
    && var m := SkipBlanks(src, b + |HEADER_WORDS[w]|);
    m < |src| && src[m] == '<' && h == m + 1
  }

  lemma HeaderAtOnce(src: string, i: nat, h: nat, g: nat)
    requires HeaderAt(src, i, h) && HeaderAt(src, i, g)
    ensures h == g
  {
    var b := SkipBlanks(src, SkipBlanks(src, i) + 1);
    var w :| 0 <= w < 3 && HeaderWord(src, b, w, h);
    var v :| 0 <= v < 3 && HeaderWord(src, b, v, g);
    hide SkipBlanks;
    if w != v {
      OneHeaderWord(src, b, w, h, v, g);
    }
  }

  // Of the words, only the first two begin alike, and after the shorter one the longer has no blank.
  lemma OneHeaderWord(src: string, b: nat, w: nat, h: nat, v: nat, g: nat)
    requires w < 3 && v < 3 && HeaderWord(src, b, w, h) && HeaderWord(src, b, v, g)
    ensures w == v
  {
    LetterOf(src, b, w);
    LetterOf(src, b, v);
    hide HeaderWord, SkipBlanks;
  }

  // What tells the words apart: the second letter, and what follows the seventh.
  lemma LetterOf(src: string, b: nat, w: nat)
    requires w < 3 && exists h :: HeaderWord(src, b, w, h)
    ensures b + 8 <= |src| || w == 2
    ensures b + 2 <= |src| && (if w == 2 then src[b + 1] == 'm' else src[b + 1] == 'n')
    ensures w == 0 ==> src[b + 7] != '_'
    ensures w == 1 ==> src[b + 7] == '_'
  {
    var word := HEADER_WORDS[w];
    assert src[b + 1] == src[b..b + |word|][1] == word[1];
    if w == 1 {
      assert src[b + 7] == src[b..b + |word|][7] == word[7];
    }
  }

  // What leads up to an included header's name is on one line, and opens no literal and no comment.
  lemma HeaderInside(src: string, i: nat, h: nat)
    requires HeaderAt(src, i, h)
    ensures i < h <= |src| && src[h - 1] == '<'
    ensures forall k | i <= k < h :: src[k] !in "/\"'\n"
  {
    var a := SkipBlanks(src, i);
    var b := SkipBlanks(src, a + 1);
    var w :| 0 <= w < 3 && HeaderWord(src, b, w, h);
    hide SkipBlanks;
    var word := HEADER_WORDS[w];
    PlainWord(w);
    WordPlain(src, word, b);
  }

  lemma WordPlain(src: string, w: string, b: nat)
    requires HasWord(src, w, b, |src|) && forall k | 0 <= k < |w| :: w[k] !in "/\"'\n"
    ensures forall k | b <= k < b + |w| :: src[k] !in "/\"'\n"
  {
    forall k | b <= k < b + |w|
      ensures src[k] !in "/\"'\n"
    {
      assert src[k] == src[b..b + |w|][k - b] == w[k - b];
    }
  }

  lemma PlainWord(w: nat)
    requires w < 3
    ensures forall k | 0 <= k < |HEADER_WORDS[w]| :: HEADER_WORDS[w][k] !in "/\"'\n"
  {
    assert w == 0 || w == 1 || w == 2;
  }

  // Just past the `<` of an include line starting at `i`.
  method HeaderOpen(src: string, i: nat) returns (h: Option<nat>)
    requires i <= |src|
    ensures h.Some? ==> i < h.value <= |src| && HeaderAt(src, i, h.value)
    ensures h == None ==> forall x :: !HeaderAt(src, i, x)
  {
    var j := SkipBlanks(src, i);
    if j >= |src| || src[j] != '#' {
      return None;
    }
    j := SkipBlanks(src, j + 1);
    var w := 0;
    while w < 3
      invariant 0 <= w <= 3
      invariant forall v, x | 0 <= v < w :: !HeaderWord(src, j, v, x)
    {
      if HasWord(src, HEADER_WORDS[w], j, |src|) {
        var m := SkipBlanks(src, j + |HEADER_WORDS[w]|);
        if m < |src| && src[m] == '<' {
          assert HeaderWord(src, j, w, m + 1);
          return Some(m + 1);
        }
      }
      w := w + 1;
    }
    return None;
  }

  function SkipBlanks(src: string, i: nat): (j: nat)
    requires i <= |src|
    ensures i <= j <= |src|
    ensures forall k | i <= k < j :: IsBlank(src[k])
    ensures j < |src| ==> !IsBlank(src[j])
    decreases |src| - i
  {
    if i < |src| && IsBlank(src[i]) then SkipBlanks(src, i + 1) else i
  }
}
