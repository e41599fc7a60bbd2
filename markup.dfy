/**
 * Text and markup vocabulary of the main-slider title animator
 * (assets/js/tidytouch.js, lines 5-94): the whitespace test behind
 * `trim()` and `\s`, the `split(/(\s+)/)` of a text buffer, the pieces the
 * animator appends to its output, how each piece is rendered, the
 * tag-name rule that drives the `div` stack, and the erasure of output
 * pieces back to the text and tags they came from.
 */
module Markup {

  // ---------------------------------------------------------------------
  // Whitespace

  /** A character that JavaScript's `trim()` removes and that `\s` matches:
      the ECMAScript WhiteSpace and LineTerminator code points. */
  predicate IsSpace(c: char) {
    || c in {'\t', '\n', '\U{000B}', '\U{000C}', '\r', ' ', '\U{00A0}', '\U{1680}'}
    || ('\U{2000}' <= c <= '\U{200A}')
    || c in {'\U{2028}', '\U{2029}', '\U{202F}', '\U{205F}', '\U{3000}', '\U{FEFF}'}
  }

  /** `s.trim()` is a non-empty (truthy) string. */
  predicate HasText(s: string) {
    exists i | 0 <= i < |s| :: !IsSpace(s[i])
  }

  predicate AllSpace(s: string) {
    forall i | 0 <= i < |s| :: IsSpace(s[i])
  }

  predicate NoSpace(s: string) {
    forall i | 0 <= i < |s| :: !IsSpace(s[i])
  }

  /** Number of non-whitespace characters of s, i.e. how many character
      spans the animator wraps for it. */
  function NonSpaceCount(s: string): nat {
    if s == [] then 0 else (if IsSpace(s[0]) then 0 else 1) + NonSpaceCount(s[1..])
  }

  lemma {:induction false} NonSpaceCountAppend(a: string, b: string)
    ensures NonSpaceCount(a + b) == NonSpaceCount(a) + NonSpaceCount(b)
    decreases |a|
  {
    if a == [] {
      assert a + b == b;
    } else {
      assert (a + b)[1..] == a[1..] + b;
      NonSpaceCountAppend(a[1..], b);
    }
  }

  lemma {:induction false} NoTextCountsZero(s: string)
    requires !HasText(s)
    ensures NonSpaceCount(s) == 0
    decreases |s|
  {
    if s != [] {
      var rest := s[1..];
      assert forall i | 0 <= i < |rest| :: rest[i] == s[i + 1];
      NoTextCountsZero(rest);
    }
  }

  // ---------------------------------------------------------------------
  // Sequences of pieces, flattened

  /** Concatenation of f(x) over xs, left to right. */
  function Flatten<T, U>(f: T -> seq<U>, xs: seq<T>): seq<U> {
    if xs == [] then [] else f(xs[0]) + Flatten(f, xs[1..])
  }

  lemma {:induction false} FlattenAppend<T, U>(f: T -> seq<U>, a: seq<T>, b: seq<T>)
    ensures Flatten(f, a + b) == Flatten(f, a) + Flatten(f, b)
    decreases |a|
  {
    if a == [] {
      assert a + b == b;
    } else {
      assert (a + b)[1..] == a[1..] + b;
      FlattenAppend(f, a[1..], b);
    }
  }

  lemma FlattenCons<T, U>(f: T -> seq<U>, x: T, xs: seq<T>)
    ensures Flatten(f, [x] + xs) == f(x) + Flatten(f, xs)
  {
    assert ([x] + xs)[1..] == xs;
  }

  lemma FlattenOne<T, U>(f: T -> seq<U>, x: T)
    ensures Flatten(f, [x]) == f(x)
  {
    assert [x][1..] == [];
  }

  /** Flattening through an intermediate sequence: when each x stands for
      e(x), and h over e(x) gives g(x), then h over the whole intermediate
      sequence gives g over xs. */
  lemma {:induction false} FlattenThrough<A, B, C>(g: A -> seq<C>, e: A -> seq<B>, h: B -> seq<C>, xs: seq<A>)
    requires forall i | 0 <= i < |xs| :: g(xs[i]) == Flatten(h, e(xs[i]))
    ensures Flatten(g, xs) == Flatten(h, Flatten(e, xs))
    decreases |xs|
  {
    if xs != [] {
      FlattenThrough(g, e, h, xs[1..]);
      FlattenAppend(h, e(xs[0]), Flatten(e, xs[1..]));
    }
  }

  function Id(s: string): string { s }

  /** The strings of ss joined with no separator. */
  function Concat(ss: seq<string>): string {
    Flatten(Id, ss)
  }

  // ---------------------------------------------------------------------
  // `buffer.split(/(\s+)/)`

  /** The longest prefix of s whose characters are all whitespace (when
      `space`) or all non-whitespace (when `!space`). */
  function LeadingRun(s: string, space: bool): (r: string)
    ensures r <= s
    ensures forall i | 0 <= i < |r| :: IsSpace(r[i]) == space
    ensures |r| < |s| ==> IsSpace(s[|r|]) != space
  {
    if s == [] || IsSpace(s[0]) != space then [] else [s[0]] + LeadingRun(s[1..], space)
  }

  /** What `s.split(/(\s+)/)` returns: the separator is captured, so the
      result alternates between non-whitespace runs (at even positions,
      possibly empty at either end) and maximal whitespace runs (at odd
      positions), and joining it gives s back. */
  function SplitRuns(s: string): (r: seq<string>)
    ensures Alternates(r)
    ensures Concat(r) == s
    ensures forall k | 0 < k < |r| - 1 && k % 2 == 0 :: r[k] != []
    ensures s != [] && !IsSpace(s[0]) ==> r[0] != []
    decreases |s|
  {
    var word := LeadingRun(s, false);
    var rest := s[|word|..];
    if rest == [] then
      SplitLast(s, word);
      [word]
    else
      var gap := LeadingRun(rest, true);
      var tail := SplitRuns(rest[|gap|..]);
      SplitCons(s, word, gap, tail);
      SplitInterior(rest, gap, tail);
      [word, gap] + tail
  }

  /** The gaps are maximal: the word after a gap that is not the last
      run starts with the character that ended the gap. */
  lemma SplitInterior(rest: string, gap: string, tail: seq<string>)
    requires rest != [] && gap == LeadingRun(rest, true)
    requires Alternates(tail) && Concat(tail) == rest[|gap|..]
    requires forall k | 0 < k < |tail| - 1 && k % 2 == 0 :: tail[k] != []
    requires rest[|gap|..] != [] && !IsSpace(rest[|gap|..][0]) ==> tail[0] != []
    ensures forall k | 2 <= k < |tail| + 1 && k % 2 == 0 :: tail[k - 2] != []
  {
    if |tail| > 1 {
      assert tail == [tail[0], tail[1]] + tail[2..];
      JoinThree(tail[0], tail[1], tail[2..]);
      assert rest[|gap|..] != [];
      assert IsSpace(rest[|gap|]) != true;
      assert rest[|gap|..][0] == rest[|gap|];
    }
  }

  lemma SplitLast(s: string, word: string)
    requires word == LeadingRun(s, false) && s[|word|..] == []
    ensures Alternates([word]) && Concat([word]) == s
  {
    assert s == word;
    FlattenOne(Id, word);
  }

  lemma SplitCons(s: string, word: string, gap: string, tail: seq<string>)
    requires word == LeadingRun(s, false) && s[|word|..] != []
    requires gap == LeadingRun(s[|word|..], true)
    requires Alternates(tail) && Concat(tail) == s[|word|..][|gap|..]
    ensures Alternates([word, gap] + tail) && Concat([word, gap] + tail) == s
  {
    var rest := s[|word|..];
    assert rest[0] == s[|word|];
    AlternatesCons(word, gap, tail);
    JoinThree(word, gap, tail);
    assert s == word + (gap + rest[|gap|..]);
  }

  lemma JoinThree(word: string, gap: string, tail: seq<string>)
    ensures Concat([word, gap] + tail) == word + (gap + Concat(tail))
  {
    FlattenAppend(Id, [word, gap], tail);
    assert [word, gap] == [word] + [gap];
    FlattenAppend(Id, [word], [gap]);
    FlattenOne(Id, word);
    FlattenOne(Id, gap);
  }

  /** Odd length; non-whitespace runs at even positions, non-empty
      whitespace runs at odd positions. */
  predicate Alternates(r: seq<string>) {
    && |r| % 2 == 1
    && (forall k | 0 <= k < |r| && k % 2 == 0 :: NoSpace(r[k]))
    && (forall k | 0 <= k < |r| && k % 2 == 1 :: r[k] != [] && AllSpace(r[k]))
  }

  lemma AlternatesCons(word: string, gap: string, tail: seq<string>)
    requires NoSpace(word) && gap != [] && AllSpace(gap) && Alternates(tail)
    ensures Alternates([word, gap] + tail)
  {
    var r := [word, gap] + tail;
    forall k | 2 <= k < |r| ensures r[k] == tail[k - 2] && (k % 2 == (k - 2) % 2) {}
  }

  // ---------------------------------------------------------------------
  // Output pieces and their rendering

  /** One append to the animator's output accumulator. Delays are in
      hundredths of a second. */
  datatype Piece =
    | Tag(text: string)          // a complete tag, copied verbatim
    | Space(text: string)        // a whitespace run (or an empty run) copied verbatim
    | WordOpen                   // the per-word inline-block wrapper, opening
    | WordClose                  // the per-word inline-block wrapper, closing
    | Glyph(c: char, delay: nat) // one non-whitespace character in its delay span

  const WordOpenText := "<span style=\"display:inline-block;\">"
  const SpanClose := "</span>"

  function Digit(n: nat): char
    requires n < 10
  {
    ('0' as int + n) as char
  }

  /** Decimal digits of n, most significant first, no leading zeros. */
  function Decimal(n: nat): (r: string)
    ensures |r| >= 1
    ensures forall i | 0 <= i < |r| :: '0' <= r[i] <= '9'
    ensures r[0] == '0' <==> n == 0
    ensures n == 0 ==> r == "0"
  {
    if n < 10 then [Digit(n)] else Decimal(n / 10) + [Digit(n % 10)]
  }

  /** Value of a string of decimal digits. */
  function DigitsValue(s: string): nat {
    if s == [] then 0
    else
      var d := s[|s| - 1] as int - '0' as int;
      DigitsValue(s[..|s| - 1]) * 10 + (if 0 <= d < 10 then d else 0)
  }

  lemma {:induction false} DecimalRoundTrip(n: nat)
    ensures DigitsValue(Decimal(n)) == n
  {
    if n >= 10 {
      DecimalRoundTrip(n / 10);
      var r := Decimal(n);
      assert r[..|r| - 1] == Decimal(n / 10);
    }
  }

  /** `(d / 100).toFixed(2)` for a delay of d hundredths. */
  function Seconds(d: nat): string {
    Decimal(d / 100) + "." + [Digit(d / 10 % 10), Digit(d % 10)]
  }

  /** Reading the rendered delay back gives the delay: the integer part,
      a point, and exactly two decimals. */
  lemma SecondsRoundTrip(d: nat)
    ensures var s := Seconds(d);
      && |s| >= 4 && s[|s| - 3] == '.'
      && (forall i | 0 <= i < |s| && i != |s| - 3 :: '0' <= s[i] <= '9')
      && (s[0] != '0' || s[1] == '.')
      && DigitsValue(s[..|s| - 3]) * 100 + DigitsValue(s[|s| - 2..]) == d
  {
    var s := Seconds(d);
    assert s[..|s| - 3] == Decimal(d / 100);
    DecimalRoundTrip(d / 100);
    var two := s[|s| - 2..];
    var a, b, c := d / 100, d / 10 % 10, d % 10;
    assert two == [Digit(b), Digit(c)];
    assert two[..1] == [Digit(b)];
    assert [Digit(b)][..0] == [];
    assert DigitsValue([Digit(b)]) == b;
    assert DigitsValue(two) == b * 10 + c;
    var q := d / 10;
    assert d == q * 10 + c;
    assert q == (q / 10) * 10 + b;
    assert q / 10 == a;
  }

  /** The text a piece appends to the output. */
  function Render(p: Piece): string {
    match p
    case Tag(t) => t
    case Space(w) => w
    case WordOpen => WordOpenText
    case WordClose => SpanClose
    case Glyph(c, d) => "<span style=\"animation-delay:" + Seconds(d) + "s\">" + [c] + SpanClose
  }

  function RenderAll(ps: seq<Piece>): string {
    Flatten(Render, ps)
  }

  // ---------------------------------------------------------------------
  // What the output says about the input

  /** A unit of the input as the animator reads it: a text character, or a
      complete tag from `<` through `>`. */
  datatype Lexeme = TextChar(c: char) | WholeTag(t: string)

  function TextCharOf(c: char): seq<Lexeme> { [TextChar(c)] }

  /** The characters of s as text lexemes. */
  function TextChars(s: string): seq<Lexeme> {
    Flatten(TextCharOf, s)
  }

  /** The input a piece stands for, with every inserted wrapper removed. */
  function Erase(p: Piece): seq<Lexeme> {
    match p
    case Tag(t) => [WholeTag(t)]
    case Space(w) => TextChars(w)
    case WordOpen => []
    case WordClose => []
    case Glyph(c, _) => [TextChar(c)]
  }

  function EraseAll(ps: seq<Piece>): seq<Lexeme> {
    Flatten(Erase, ps)
  }

  function LexemeText(l: Lexeme): string {
    match l
    case TextChar(c) => [c]
    case WholeTag(t) => t
  }

  /** The characters a sequence of lexemes spells. */
  function Unlex(ls: seq<Lexeme>): string {
    Flatten(LexemeText, ls)
  }

  function TagOfPiece(p: Piece): seq<string> { if p.Tag? then [p.text] else [] }
  function TagOfLexeme(l: Lexeme): seq<string> { if l.WholeTag? then [l.t] else [] }

  /** The tags among the output pieces, in order. */
  function TagsOf(ps: seq<Piece>): seq<string> { Flatten(TagOfPiece, ps) }

  /** The complete tags among the lexemes, in order. */
  function LexTags(ls: seq<Lexeme>): seq<string> { Flatten(TagOfLexeme, ls) }

  function GlyphCharOf(p: Piece): string { if p.Glyph? then [p.c] else [] }
  function GlyphDelayOf(p: Piece): seq<nat> { if p.Glyph? then [p.delay] else [] }
  function VisibleOf(l: Lexeme): string { if l.TextChar? && !IsSpace(l.c) then [l.c] else [] }

  /** Characters wrapped in delay spans, in emission order. */
  function GlyphChars(ps: seq<Piece>): string { Flatten(GlyphCharOf, ps) }

  /** Delays of the delay spans, in emission order. */
  function GlyphDelays(ps: seq<Piece>): seq<nat> { Flatten(GlyphDelayOf, ps) }

  /** The non-whitespace text characters among the lexemes, in order. */
  function VisibleChars(ls: seq<Lexeme>): string { Flatten(VisibleOf, ls) }

  // ---------------------------------------------------------------------
  // Tag names and the div stack

  /** A character of the regular-expression class `\w` (no `u` flag). */
  predicate IsWordChar(c: char) {
    'a' <= c <= 'z' || 'A' <= c <= 'Z' || '0' <= c <= '9' || c == '_'
  }

  function ToLower(c: char): char {
    if 'A' <= c <= 'Z' then (c as int - 'A' as int + 'a' as int) as char else c
  }

  /** `s.toLowerCase()` on ASCII: no upper-case letter is left, and only
      upper-case letters change. */
  function LowerAll(s: string): (r: string)
    ensures |r| == |s|
    ensures forall i | 0 <= i < |s| :: r[i] == ToLower(s[i])
    ensures forall i | 0 <= i < |r| :: !('A' <= r[i] <= 'Z')
    ensures forall i | 0 <= i < |r| :: r[i] == s[i] || ('A' <= s[i] <= 'Z' && r[i] as int == s[i] as int + 32)
  {
    seq(|s|, i requires 0 <= i < |s| => ToLower(s[i]))
  }

  /** Lowering twice is lowering once, and text with no upper-case letter
      is left alone. */
  lemma LowerAllIdempotent(s: string)
    ensures LowerAll(LowerAll(s)) == LowerAll(s)
    ensures (forall i | 0 <= i < |s| :: !('A' <= s[i] <= 'Z')) ==> LowerAll(s) == s
  {
  }

  function LeadingWordChars(s: string): (r: string)
    ensures r <= s
    ensures forall i | 0 <= i < |r| :: IsWordChar(r[i])
    ensures |r| < |s| ==> !IsWordChar(s[|r|])
  {
    if s == [] || !IsWordChar(s[0]) then [] else [s[0]] + LeadingWordChars(s[1..])
  }

  /** `/^<\//.test(t)` */
  predicate IsClosing(t: string) {
    |t| >= 2 && t[0] == '<' && t[1] == '/'
  }

  /** The lowercased group of `t.match(/^<\/?(\w+)/)`, or "" when it does
      not match. */
  function TagName(t: string): string {
    if t == [] || t[0] != '<' then ""
    else LowerAll(LeadingWordChars(if IsClosing(t) then t[2..] else t[1..]))
  }

  /** The tag stack after the complete tag t: a `div` opening tag pushes,
      a `div` closing tag pops (nothing on an empty stack), any other tag
      leaves it alone. */
  function NextStack(stack: seq<string>, t: string): seq<string> {
    if TagName(t) != "div" then stack
    else if !IsClosing(t) then stack + ["div"]
    else if stack == [] then stack
    else stack[..|stack| - 1]
  }

  /** Where a prefix of the output leaves a reader: which divs are open and
      whether a word wrapper is open. */
  datatype Ctx = Ctx(stack: seq<string>, inWord: bool)

  const Outside := Ctx([], false)

  function Track(c: Ctx, p: Piece): Ctx {
    match p
    case Tag(t) => c.(stack := NextStack(c.stack, t))
    case WordOpen => c.(inWord := true)
    case WordClose => c.(inWord := false)
    case _ => c
  }

  function TrackAll(c: Ctx, ps: seq<Piece>): Ctx {
    if ps == [] then c else Track(TrackAll(c, ps[..|ps| - 1]), ps[|ps| - 1])
  }

  lemma {:induction false} TrackAllAppend(c: Ctx, a: seq<Piece>, b: seq<Piece>)
    ensures TrackAll(c, a + b) == TrackAll(TrackAll(c, a), b)
    decreases |b|
  {
    if b == [] {
      assert a + b == a;
    } else {
      var b' := b[..|b| - 1];
      assert (a + b)[..|a + b| - 1] == a + b';
      TrackAllAppend(c, a, b');
    }
  }
}
