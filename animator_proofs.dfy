/**
 * What the title animator (assets/js/tidytouch.js, lines 5-94) promises
 * about its output, proved of `Animator.Transform`:
 *
 *  - with the inserted wrappers erased, the output is the input as the
 *    animator reads it: text characters and complete tags, in order
 *    (`EraseTransform`, against the reference lexer `Lexemes`);
 *  - for input whose every `<` is closed by a `>`, that gives the input
 *    back character for character (`RoundTrip`);
 *  - tags are copied verbatim and in order (`TagsPreserved`);
 *  - exactly the non-whitespace text characters are animated, in order
 *    (`GlyphsAreVisibleText`), the k-th of them with a delay of
 *    0.05 * (k + 1) seconds (`DelaysIncrease`);
 *  - the manual-container flag is set exactly while a `div` is open
 *    (`ManualIffDivOpen`), and a character sits in an inline-block word
 *    wrapper exactly when no `div` is open around it (`WrappedIffNoDiv`).
 */
module AnimatorProofs {
  import opened Markup
  import opened Animator

  // ---------------------------------------------------------------------
  // A reference reading of the input

  /** Lexer state: the lexemes read so far, whether a tag is open, and the
      characters of the open tag. */
  datatype Lex = Lex(done: seq<Lexeme>, inTag: bool, pending: string)

  /** A `<` opens a tag (dropping any tag still open), a `>` closes the open
      tag, anything else extends the open tag or is a text character. */
  function LexStep(l: Lex, c: char): Lex {
    if c == '<' then l.(inTag := true, pending := "<")
    else if !l.inTag then l.(done := l.done + [TextChar(c)])
    else if c == '>' then l.(done := l.done + [WholeTag(l.pending + [c])], inTag := false, pending := "")
    else l.(pending := l.pending + [c])
  }

  function LexOf(s: string): Lex {
    if s == [] then Lex([], false, "") else LexStep(LexOf(s[..|s| - 1]), s[|s| - 1])
  }

  /** The input as the animator reads it; a tag left open at the end is
      not part of it. */
  function Lexemes(s: string): seq<Lexeme> {
    LexOf(s).done
  }

  // ---------------------------------------------------------------------
  // Erasure

  lemma EraseAllAppend(a: seq<Piece>, b: seq<Piece>)
    ensures EraseAll(a + b) == EraseAll(a) + EraseAll(b)
  {
    FlattenAppend(Erase, a, b);
  }

  lemma TextCharsSnoc(s: string, c: char)
    ensures TextChars(s + [c]) == TextChars(s) + [TextChar(c)]
  {
    FlattenAppend(TextCharOf, s, [c]);
    FlattenOne(TextCharOf, c);
  }

  lemma {:induction false} EraseWrapChars(w: string, d: nat)
    ensures EraseAll(WrapChars(w, d)) == TextChars(w)
    decreases |w|
  {
    if w != [] {
      EraseWrapChars(w[1..], After(w[0], d));
      FlattenOne(TextCharOf, w[0]);
      assert TextChars(w) == [TextChar(w[0])] + TextChars(w[1..]);
    }
  }

  lemma EraseRun(w: string, m: bool, d: nat)
    ensures EraseAll(RunPieces(w, m, d)) == TextChars(w)
  {
    if HasText(w) {
      var open: seq<Piece> := if m then [] else [WordOpen];
      var close: seq<Piece> := if m then [] else [WordClose];
      EraseAllAppend(open + WrapChars(w, d), close);
      EraseAllAppend(open, WrapChars(w, d));
      EraseWrapChars(w, d);
      FlattenOne(Erase, WordOpen);
      FlattenOne(Erase, WordClose);
    } else {
      FlattenOne(Erase, Space(w));
    }
  }

  lemma {:induction false} EraseFlushWords(words: seq<string>, m: bool, d: nat)
    ensures EraseAll(FlushWords(words, m, d)) == TextChars(Concat(words))
    decreases |words|
  {
    if words != [] {
      var d' := d + 5 * NonSpaceCount(words[0]);
      EraseFlushWords(words[1..], m, d');
      EraseAllAppend(RunPieces(words[0], m, d), FlushWords(words[1..], m, d'));
      EraseRun(words[0], m, d);
      ConcatCons(words);
      FlattenAppend(TextCharOf, words[0], Concat(words[1..]));
    }
  }

  /** Flushing the buffer puts out its characters and nothing else. */
  lemma EraseFlush(b: string, m: bool, d: nat)
    ensures EraseAll(FlushPieces(b, m, d)) == TextChars(b)
  {
    if HasText(b) {
      EraseFlushWords(SplitRuns(b), m, d);
    } else {
      FlattenOne(Erase, Space(b));
    }
  }

  /** How the scan's variables stand to the reference lexer after the same
      input: the output and the text buffer hold what the lexer has read,
      and both agree on the open tag. */
  predicate Simulates(st: Scan, l: Lex) {
    && EraseAll(st.pieces) + TextChars(st.buffer) == l.done
    && st.inTag == l.inTag
    && st.tag == l.pending
    && (st.inTag ==> st.buffer == "")
  }

  lemma {:induction false} ScanSimulatesLex(s: string)
    ensures Simulates(Scanned(s), LexOf(s))
    decreases |s|
  {
    if s != [] {
      var p, c := s[..|s| - 1], s[|s| - 1];
      ScanSimulatesLex(p);
      var st, l := Scanned(p), LexOf(p);
      if c == '<' {
        EraseAllAppend(st.pieces, FlushPieces(st.buffer, st.manual, st.delay));
        EraseFlush(st.buffer, st.manual, st.delay);
        assert TextChars("") == [];
      } else if st.inTag {
        if c == '>' {
          EraseAllAppend(st.pieces, [Tag(st.tag + [c])]);
          FlattenOne(Erase, Tag(st.tag + [c]));
          assert TextChars("") == [];
        }
      } else {
        TextCharsSnoc(st.buffer, c);
      }
    }
  }

  /** Erasing the inserted wrappers from the output gives the input as the
      animator reads it. */
  lemma EraseTransform(s: string)
    ensures EraseAll(Transform(s)) == Lexemes(s)
  {
    ScanSimulatesLex(s);
    var st := Scanned(s);
    EraseAllAppend(st.pieces, FlushPieces(st.buffer, st.manual, st.delay));
    EraseFlush(st.buffer, st.manual, st.delay);
  }

  // ---------------------------------------------------------------------
  // Round trip

  /** The `<` at position i is closed: a `>` follows it before any other
      `<`. */
  predicate TagClosed(s: string, i: nat) {
    exists j | i < j < |s| :: s[j] == '>' && forall k | i < k < j :: s[k] != '<'
  }

  /** Every `<` of s opens a tag that is closed. */
  predicate WellFormed(s: string) {
    forall i | 0 <= i < |s| && s[i] == '<' :: TagClosed(s, i)
  }

  /** The open tag of the lexer is the tail of the input from its `<`, and
      holds no `>` after that `<`. */
  predicate Shape(l: Lex, s: string) {
    && (!l.inTag ==> l.pending == "")
    && (l.inTag ==>
         && 1 <= |l.pending| <= |s|
         && l.pending == s[|s| - |l.pending|..]
         && l.pending[0] == '<'
         && forall k | 1 <= k < |l.pending| :: l.pending[k] != '>')
  }

  lemma {:induction false} LexShape(s: string)
    ensures Shape(LexOf(s), s)
    decreases |s|
  {
    if s != [] {
      var p, c := s[..|s| - 1], s[|s| - 1];
      LexShape(p);
      var l := LexOf(p);
      if c != '<' && l.inTag && c != '>' {
        assert l.pending + [c] == s[|s| - |l.pending| - 1..];
      }
    }
  }

  /** In well-formed input a `<` never arrives while a tag is open. */
  lemma NoOpenTagBeforeLt(s: string, n: nat)
    requires WellFormed(s) && n < |s|
    ensures LexOf(s[..n]).inTag ==> s[n] != '<'
  {
    var l := LexOf(s[..n]);
    LexShape(s[..n]);
    if l.inTag {
      var i0 := n - |l.pending|;
      assert s[i0] == l.pending[0];
      forall k | i0 < k < n
        ensures s[k] != '>'
      {
        assert s[k] == l.pending[k - i0];
      }
      var j :| i0 < j < |s| && s[j] == '>' && forall k | i0 < k < j :: s[k] != '<';
      assert n <= j;
      if n < j {
        assert i0 < n < j;
      }
    }
  }

  /** A tag still open at the end of the input is an unclosed `<`. */
  lemma OpenTagAtEndIllFormed(s: string)
    ensures LexOf(s).inTag ==> !WellFormed(s)
  {
    var l := LexOf(s);
    LexShape(s);
    if l.inTag {
      var i0 := |s| - |l.pending|;
      assert s[i0] == l.pending[0];
      forall j | i0 < j < |s|
        ensures s[j] != '>'
      {
        assert s[j] == l.pending[j - i0];
      }
      assert !TagClosed(s, i0);
    }
  }

  lemma UnlexSnoc(ls: seq<Lexeme>, x: Lexeme)
    ensures Unlex(ls + [x]) == Unlex(ls) + LexemeText(x)
  {
    FlattenAppend(LexemeText, ls, [x]);
    FlattenOne(LexemeText, x);
  }

  /** On well-formed input the lexemes read so far, followed by the open
      tag, spell the input read so far. */
  lemma {:induction false} UnlexPrefix(s: string, n: nat)
    requires WellFormed(s) && n <= |s|
    ensures Unlex(LexOf(s[..n]).done) + LexOf(s[..n]).pending == s[..n]
  {
    if n > 0 {
      var p, c := s[..n - 1], s[n - 1];
      assert s[..n][..n - 1] == p;
      assert s[..n] == p + [c];
      UnlexPrefix(s, n - 1);
      NoOpenTagBeforeLt(s, n - 1);
      LexShape(p);
      var l := LexOf(p);
      if c == '<' {
      } else if !l.inTag {
        UnlexSnoc(l.done, TextChar(c));
      } else if c == '>' {
        UnlexSnoc(l.done, WholeTag(l.pending + [c]));
      }
    }
  }

  /** Well-formed input is spelled back exactly by what the animator
      reads of it. */
  lemma LexemesSpellInput(s: string)
    requires WellFormed(s)
    ensures Unlex(Lexemes(s)) == s
  {
    UnlexPrefix(s, |s|);
    assert s[..|s|] == s;
    OpenTagAtEndIllFormed(s);
    LexShape(s);
  }

  /** For well-formed input, erasing the inserted wrappers from the
      animator's output gives the input back. */
  lemma RoundTrip(s: string)
    requires WellFormed(s)
    ensures Unlex(EraseAll(Transform(s))) == s
  {
    EraseTransform(s);
    LexemesSpellInput(s);
  }

  // ---------------------------------------------------------------------
  // Tags

  lemma {:induction false} NoTagsInText(w: string)
    ensures LexTags(TextChars(w)) == []
    decreases |w|
  {
    if w != [] {
      NoTagsInText(w[1..]);
      FlattenAppend(TagOfLexeme, [TextChar(w[0])], TextChars(w[1..]));
      FlattenOne(TagOfLexeme, TextChar(w[0]));
    }
  }

  /** The tags among any output pieces are the tags they erase to. */
  lemma TagsOfErased(ps: seq<Piece>)
    ensures TagsOf(ps) == LexTags(EraseAll(ps))
  {
    forall i | 0 <= i < |ps|
      ensures TagOfPiece(ps[i]) == Flatten(TagOfLexeme, Erase(ps[i]))
    {
      match ps[i]
      case Tag(t) => FlattenOne(TagOfLexeme, WholeTag(t));
      case Space(w) => NoTagsInText(w);
      case Glyph(c, _) => FlattenOne(TagOfLexeme, TextChar(c));
      case _ =>
    }
    FlattenThrough(TagOfPiece, Erase, TagOfLexeme, ps);
  }

  /** Every complete tag of the input is copied to the output verbatim and
      in order, and the output has no other tags among its pieces. */
  lemma TagsPreserved(s: string)
    ensures TagsOf(Transform(s)) == LexTags(Lexemes(s))
  {
    TagsOfErased(Transform(s));
    EraseTransform(s);
  }

  // ---------------------------------------------------------------------
  // Animated characters

  /** A copied run holds only whitespace; an animated character is not
      whitespace. */
  predicate Shaped(p: Piece) {
    && (p.Space? ==> AllSpace(p.text))
    && (p.Glyph? ==> !IsSpace(p.c))
  }

  predicate AllShaped(ps: seq<Piece>) {
    forall i | 0 <= i < |ps| :: Shaped(ps[i])
  }

  lemma AllShapedAppend(a: seq<Piece>, b: seq<Piece>)
    requires AllShaped(a) && AllShaped(b)
    ensures AllShaped(a + b)
  {
    forall i | 0 <= i < |a + b|
      ensures Shaped((a + b)[i])
    {
      if i < |a| {
        assert (a + b)[i] == a[i];
      } else {
        assert (a + b)[i] == b[i - |a|];
      }
    }
  }

  lemma {:induction false} ShapedWrapChars(w: string, d: nat)
    ensures AllShaped(WrapChars(w, d))
    decreases |w|
  {
    if w != [] {
      ShapedWrapChars(w[1..], After(w[0], d));
      var p := CharPiece(w[0], d);
      assert p.Space? ==> p.text == [w[0]];
      AllShapedAppend([p], WrapChars(w[1..], After(w[0], d)));
    }
  }

  lemma ShapedRun(w: string, m: bool, d: nat)
    ensures AllShaped(RunPieces(w, m, d))
  {
    if HasText(w) {
      var open: seq<Piece> := if m then [] else [WordOpen];
      var close: seq<Piece> := if m then [] else [WordClose];
      ShapedWrapChars(w, d);
      AllShapedAppend(open, WrapChars(w, d));
      AllShapedAppend(open + WrapChars(w, d), close);
    }
  }

  lemma {:induction false} ShapedFlushWords(words: seq<string>, m: bool, d: nat)
    ensures AllShaped(FlushWords(words, m, d))
    decreases |words|
  {
    if words != [] {
      var d' := d + 5 * NonSpaceCount(words[0]);
      ShapedRun(words[0], m, d);
      ShapedFlushWords(words[1..], m, d');
      AllShapedAppend(RunPieces(words[0], m, d), FlushWords(words[1..], m, d'));
    }
  }

  lemma ShapedFlush(b: string, m: bool, d: nat)
    ensures AllShaped(FlushPieces(b, m, d))
  {
    if HasText(b) {
      ShapedFlushWords(SplitRuns(b), m, d);
    }
  }

  lemma {:induction false} ShapedScanned(s: string)
    ensures AllShaped(Scanned(s).pieces)
    decreases |s|
  {
    if s != [] {
      var p, c := s[..|s| - 1], s[|s| - 1];
      ShapedScanned(p);
      var st := Scanned(p);
      if c == '<' {
        ShapedFlush(st.buffer, st.manual, st.delay);
        AllShapedAppend(st.pieces, FlushPieces(st.buffer, st.manual, st.delay));
      } else if st.inTag && c == '>' {
        AllShapedAppend(st.pieces, [Tag(st.tag + [c])]);
      }
    }
  }

  lemma ShapedTransform(s: string)
    ensures AllShaped(Transform(s))
  {
    var st := Scanned(s);
    ShapedScanned(s);
    ShapedFlush(st.buffer, st.manual, st.delay);
    AllShapedAppend(st.pieces, FlushPieces(st.buffer, st.manual, st.delay));
  }

  lemma {:induction false} NoVisibleInSpace(w: string)
    requires AllSpace(w)
    ensures VisibleChars(TextChars(w)) == []
    decreases |w|
  {
    if w != [] {
      NoVisibleInSpace(w[1..]);
      FlattenAppend(VisibleOf, [TextChar(w[0])], TextChars(w[1..]));
      FlattenOne(VisibleOf, TextChar(w[0]));
    }
  }

  /** In shaped pieces the animated characters are the non-whitespace
      text characters they erase to. */
  lemma GlyphsErased(ps: seq<Piece>)
    requires AllShaped(ps)
    ensures GlyphChars(ps) == VisibleChars(EraseAll(ps))
  {
    forall i | 0 <= i < |ps|
      ensures GlyphCharOf(ps[i]) == Flatten(VisibleOf, Erase(ps[i]))
    {
      assert Shaped(ps[i]);
      match ps[i]
      case Tag(t) => FlattenOne(VisibleOf, WholeTag(t));
      case Space(w) => NoVisibleInSpace(w);
      case Glyph(c, _) => FlattenOne(VisibleOf, TextChar(c));
      case _ =>
    }
    FlattenThrough(GlyphCharOf, Erase, VisibleOf, ps);
  }

  /** Exactly the non-whitespace text characters of the input are wrapped
      in delay spans, in input order; whitespace and tags never are. */
  lemma GlyphsAreVisibleText(s: string)
    ensures GlyphChars(Transform(s)) == VisibleChars(Lexemes(s))
  {
    ShapedTransform(s);
    GlyphsErased(Transform(s));
    EraseTransform(s);
  }

  // ---------------------------------------------------------------------
  // Delays

  /** n delays 0.05 s apart, the first a hundredths of a second. */
  function Ramp(a: nat, n: nat): seq<nat> {
    seq(n, i requires 0 <= i < n => a + 5 * i)
  }

  lemma RampAppend(a: nat, n: nat, m: nat)
    ensures Ramp(a, n) + Ramp(a + 5 * n, m) == Ramp(a, n + m)
  {
    var x, y := Ramp(a, n) + Ramp(a + 5 * n, m), Ramp(a, n + m);
    forall i | 0 <= i < n + m
      ensures x[i] == y[i]
    {
      if i >= n {
        assert x[i] == Ramp(a + 5 * n, m)[i - n];
      }
    }
  }

  lemma GlyphDelaysAppend(a: seq<Piece>, b: seq<Piece>)
    ensures GlyphDelays(a + b) == GlyphDelays(a) + GlyphDelays(b)
  {
    FlattenAppend(GlyphDelayOf, a, b);
  }

  /** Two stretches of output whose delays follow on from each other
      give one unbroken run of delays. */
  lemma DelaysJoin(a: seq<Piece>, b: seq<Piece>, d: nat, n: nat, m: nat)
    requires GlyphDelays(a) == Ramp(d, n)
    requires GlyphDelays(b) == Ramp(d + 5 * n, m)
    ensures GlyphDelays(a + b) == Ramp(d, n + m)
  {
    GlyphDelaysAppend(a, b);
    RampAppend(d, n, m);
  }

  lemma {:induction false} DelaysOfWrapChars(w: string, d: nat)
    ensures GlyphDelays(WrapChars(w, d)) == Ramp(d, NonSpaceCount(w))
    decreases |w|
  {
    if w != [] {
      var d' := After(w[0], d);
      DelaysOfWrapChars(w[1..], d');
      FlattenCons(GlyphDelayOf, CharPiece(w[0], d), WrapChars(w[1..], d'));
      if !IsSpace(w[0]) {
        RampAppend(d, 1, NonSpaceCount(w[1..]));
      }
    }
  }

  lemma DelaysOfRun(w: string, m: bool, d: nat)
    ensures GlyphDelays(RunPieces(w, m, d)) == Ramp(d, NonSpaceCount(w))
  {
    if HasText(w) {
      var open: seq<Piece> := if m then [] else [WordOpen];
      var close: seq<Piece> := if m then [] else [WordClose];
      DelaysOfWrapChars(w, d);
      GlyphDelaysAppend(open, WrapChars(w, d));
      GlyphDelaysAppend(open + WrapChars(w, d), close);
      FlattenOne(GlyphDelayOf, WordOpen);
      FlattenOne(GlyphDelayOf, WordClose);
    } else {
      NoTextCountsZero(w);
      FlattenOne(GlyphDelayOf, Space(w));
    }
  }

  lemma {:induction false} DelaysOfFlushWords(words: seq<string>, m: bool, d: nat)
    ensures GlyphDelays(FlushWords(words, m, d)) == Ramp(d, NonSpaceCount(Concat(words)))
    decreases |words|
  {
    if words != [] {
      var n0, rest := NonSpaceCount(words[0]), Concat(words[1..]);
      var n1 := NonSpaceCount(rest);
      ConcatCons(words);
      NonSpaceCountAppend(words[0], rest);
      var d' := d + 5 * n0;
      var head, tail := RunPieces(words[0], m, d), FlushWords(words[1..], m, d');
      assert FlushWords(words, m, d) == head + tail;
      DelaysOfRun(words[0], m, d);
      DelaysOfFlushWords(words[1..], m, d');
      DelaysJoin(head, tail, d, n0, n1);
    }
  }

  /** A flush continues the delays from the counter: one per
      non-whitespace character of the buffer, 0.05 s apart. */
  lemma DelaysOfFlush(b: string, m: bool, d: nat)
    ensures GlyphDelays(FlushPieces(b, m, d)) == Ramp(d, NonSpaceCount(b))
  {
    if HasText(b) {
      DelaysOfFlushWords(SplitRuns(b), m, d);
    } else {
      NoTextCountsZero(b);
      FlattenOne(GlyphDelayOf, Space(b));
    }
  }

  /** The delays put out so far run 0.05 s, 0.10 s, ... and the counter
      holds the next one. */
  lemma {:induction false} DelaysOfScanned(s: string)
    ensures var st := Scanned(s); var n := |GlyphDelays(st.pieces)|;
      GlyphDelays(st.pieces) == Ramp(5, n) && st.delay == 5 + 5 * n
    decreases |s|
  {
    if s != [] {
      var p, c := s[..|s| - 1], s[|s| - 1];
      DelaysOfScanned(p);
      var st := Scanned(p);
      var n := |GlyphDelays(st.pieces)|;
      if c == '<' {
        DelaysOfFlush(st.buffer, st.manual, st.delay);
        GlyphDelaysAppend(st.pieces, FlushPieces(st.buffer, st.manual, st.delay));
        RampAppend(5, n, NonSpaceCount(st.buffer));
      } else if st.inTag && c == '>' {
        GlyphDelaysAppend(st.pieces, [Tag(st.tag + [c])]);
        FlattenOne(GlyphDelayOf, Tag(st.tag + [c]));
      }
    }
  }

  lemma {:induction false} DelaysMatchGlyphs(ps: seq<Piece>)
    ensures |GlyphDelays(ps)| == |GlyphChars(ps)|
    decreases |ps|
  {
    if ps != [] {
      DelaysMatchGlyphs(ps[1..]);
    }
  }

  /** The k-th animated character (counting from 0) gets the delay
      0.05 * (k + 1) seconds, and there is one delay per visible text
      character of the input. */
  lemma DelaysIncrease(s: string)
    ensures var g := GlyphDelays(Transform(s));
      && |g| == |VisibleChars(Lexemes(s))|
      && forall k | 0 <= k < |g| :: g[k] == 5 * (k + 1)
  {
    var st := Scanned(s);
    DelaysOfScanned(s);
    var n := |GlyphDelays(st.pieces)|;
    DelaysOfFlush(st.buffer, st.manual, st.delay);
    GlyphDelaysAppend(st.pieces, FlushPieces(st.buffer, st.manual, st.delay));
    RampAppend(5, n, NonSpaceCount(st.buffer));
    DelaysMatchGlyphs(Transform(s));
    GlyphsAreVisibleText(s);
  }

  // ---------------------------------------------------------------------
  // The manual-container flag and the word wrappers

  /** The tag stack only ever holds "div". */
  predicate DivStack(stack: seq<string>) {
    forall i | 0 <= i < |stack| :: stack[i] == "div"
  }

  /** `insideManualDiv` is set exactly while some `div` opened in the input
      has not been closed, and the stack holds nothing but those divs. */
  lemma {:induction false} ManualIffDivOpen(s: string)
    ensures var st := Scanned(s); DivStack(st.stack) && (st.manual <==> st.stack != [])
    decreases |s|
  {
    if s != [] {
      var p, c := s[..|s| - 1], s[|s| - 1];
      ManualIffDivOpen(p);
      var st := Scanned(p);
      if c != '<' && st.inTag && c == '>' {
        var t := st.tag + [c];
        if TagName(t) == "div" {
          var next := NextStack(st.stack, t);
          assert DivStack(next);
          if IsClosing(t) && next != [] {
            assert next[0] == "div";
          }
        }
      }
    }
  }

  /** A piece that leaves a reader's context alone. */
  predicate Plain(p: Piece) {
    p.Space? || p.Glyph?
  }

  lemma {:induction false} PlainPrefixes(c: Ctx, ps: seq<Piece>, k: nat)
    requires forall i | 0 <= i < |ps| :: Plain(ps[i])
    requires k <= |ps|
    ensures TrackAll(c, ps[..k]) == c
    decreases k
  {
    if k > 0 {
      assert ps[..k][..k - 1] == ps[..k - 1];
      PlainPrefixes(c, ps, k - 1);
    }
  }

  lemma {:induction false} PlainWrapChars(w: string, d: nat)
    ensures forall i | 0 <= i < |WrapChars(w, d)| :: Plain(WrapChars(w, d)[i])
    decreases |w|
  {
    if w != [] {
      PlainWrapChars(w[1..], After(w[0], d));
      var rest := WrapChars(w[1..], After(w[0], d));
      assert WrapChars(w, d) == [CharPiece(w[0], d)] + rest;
      forall i | 1 <= i < |WrapChars(w, d)|
        ensures WrapChars(w, d)[i] == rest[i - 1]
      {}
    }
  }

  /** Pieces appended in context c, at the end of which the context is c
      again, and at each animated character of which the context is c with
      a word wrapper open exactly when m is false. */
  predicate Framed(c: Ctx, ps: seq<Piece>, m: bool) {
    && TrackAll(c, ps) == c
    && forall k | 0 <= k < |ps| && ps[k].Glyph? :: TrackAll(c, ps[..k]) == c.(inWord := !m)
  }

  lemma FramedAppend(c: Ctx, a: seq<Piece>, b: seq<Piece>, m: bool)
    requires Framed(c, a, m) && Framed(c, b, m)
    ensures Framed(c, a + b, m)
  {
    TrackAllAppend(c, a, b);
    forall k | 0 <= k < |a + b| && (a + b)[k].Glyph?
      ensures TrackAll(c, (a + b)[..k]) == c.(inWord := !m)
    {
      if k < |a| {
        assert (a + b)[..k] == a[..k];
      } else {
        assert (a + b)[..k] == a + b[..k - |a|];
        assert (a + b)[k] == b[k - |a|];
        TrackAllAppend(c, a, b[..k - |a|]);
      }
    }
  }

  lemma FramedRun(c: Ctx, w: string, m: bool, d: nat)
    requires !c.inWord
    ensures Framed(c, RunPieces(w, m, d), m)
  {
    var ps := RunPieces(w, m, d);
    if HasText(w) {
      var W := WrapChars(w, d);
      PlainWrapChars(w, d);
      if m {
        assert ps == W;
        PlainPrefixes(c, W, |W|);
        assert W[..|W|] == W;
        forall k | 0 <= k < |W| ensures TrackAll(c, W[..k]) == c {
          PlainPrefixes(c, W, k);
        }
      } else {
        var c' := c.(inWord := true);
        assert ps == [WordOpen] + W + [WordClose];
        TrackAllAppend(c, [WordOpen] + W, [WordClose]);
        TrackAllAppend(c, [WordOpen], W);
        assert TrackAll(c, [WordOpen]) == c' by {
          assert [WordOpen][..0] == [];
        }
        PlainPrefixes(c', W, |W|);
        assert W[..|W|] == W;
        assert TrackAll(c, ps) == c by {
          assert ps[..|ps| - 1] == [WordOpen] + W;
        }
        forall k | 0 <= k < |ps| && ps[k].Glyph?
          ensures TrackAll(c, ps[..k]) == c'
        {
          assert 1 <= k <= |W|;
          assert ps[..k] == [WordOpen] + W[..k - 1];
          TrackAllAppend(c, [WordOpen], W[..k - 1]);
          PlainPrefixes(c', W, k - 1);
        }
      }
    } else {
      assert [Space(w)][..0] == [];
    }
  }

  lemma {:induction false} FramedFlushWords(c: Ctx, words: seq<string>, m: bool, d: nat)
    requires !c.inWord
    ensures Framed(c, FlushWords(words, m, d), m)
    decreases |words|
  {
    if words != [] {
      var d' := d + 5 * NonSpaceCount(words[0]);
      FramedRun(c, words[0], m, d);
      FramedFlushWords(c, words[1..], m, d');
      FramedAppend(c, RunPieces(words[0], m, d), FlushWords(words[1..], m, d'), m);
    } else {
      assert FlushWords(words, m, d) == [];
    }
  }

  lemma FramedFlush(c: Ctx, b: string, m: bool, d: nat)
    requires !c.inWord
    ensures Framed(c, FlushPieces(b, m, d), m)
  {
    if HasText(b) {
      FramedFlushWords(c, SplitRuns(b), m, d);
    } else {
      assert [Space(b)][..0] == [];
    }
  }

  /** At every animated character, a word wrapper is open exactly when no
      div is open. */
  predicate WrapRule(ps: seq<Piece>) {
    forall k | 0 <= k < |ps| && ps[k].Glyph? ::
      TrackAll(Outside, ps[..k]).inWord <==> TrackAll(Outside, ps[..k]).stack == []
  }

  lemma WrapRuleFlush(ps: seq<Piece>, stack: seq<string>, f: seq<Piece>, m: bool)
    requires WrapRule(ps) && TrackAll(Outside, ps) == Ctx(stack, false)
    requires Framed(Ctx(stack, false), f, m) && (m <==> stack != [])
    ensures WrapRule(ps + f) && TrackAll(Outside, ps + f) == Ctx(stack, false)
  {
    var c := Ctx(stack, false);
    TrackAllAppend(Outside, ps, f);
    forall k | 0 <= k < |ps + f| && (ps + f)[k].Glyph?
      ensures TrackAll(Outside, (ps + f)[..k]).inWord <==> TrackAll(Outside, (ps + f)[..k]).stack == []
    {
      if k < |ps| {
        assert (ps + f)[..k] == ps[..k];
      } else {
        assert (ps + f)[..k] == ps + f[..k - |ps|];
        assert (ps + f)[k] == f[k - |ps|];
        TrackAllAppend(Outside, ps, f[..k - |ps|]);
      }
    }
  }

  lemma WrapRuleTag(ps: seq<Piece>, t: string)
    requires WrapRule(ps)
    ensures WrapRule(ps + [Tag(t)])
  {
    var qs := ps + [Tag(t)];
    forall k | 0 <= k < |qs| && qs[k].Glyph?
      ensures TrackAll(Outside, qs[..k]).inWord <==> TrackAll(Outside, qs[..k]).stack == []
    {
      assert k < |ps|;
      assert qs[..k] == ps[..k];
    }
  }

  lemma {:induction false} WrapRuleScanned(s: string)
    ensures var st := Scanned(s);
      WrapRule(st.pieces) && TrackAll(Outside, st.pieces) == Ctx(st.stack, false)
    decreases |s|
  {
    if s != [] {
      var p, c := s[..|s| - 1], s[|s| - 1];
      WrapRuleScanned(p);
      ManualIffDivOpen(p);
      var st := Scanned(p);
      if c == '<' {
        FramedFlush(Ctx(st.stack, false), st.buffer, st.manual, st.delay);
        WrapRuleFlush(st.pieces, st.stack, FlushPieces(st.buffer, st.manual, st.delay), st.manual);
      } else if st.inTag && c == '>' {
        var t := st.tag + [c];
        WrapRuleTag(st.pieces, t);
        var qs := st.pieces + [Tag(t)];
        assert qs[..|qs| - 1] == st.pieces;
      }
    }
  }

  /** Every animated character sits in an inline-block word wrapper
      exactly when no div is open around it in the output, and the output
      ends with no wrapper left open. */
  lemma WrappedIffNoDiv(s: string)
    ensures var out := Transform(s);
      && (forall k | 0 <= k < |out| && out[k].Glyph? ::
            TrackAll(Outside, out[..k]).inWord <==> TrackAll(Outside, out[..k]).stack == [])
      && !TrackAll(Outside, out).inWord
  {
    var st := Scanned(s);
    WrapRuleScanned(s);
    ManualIffDivOpen(s);
    FramedFlush(Ctx(st.stack, false), st.buffer, st.manual, st.delay);
    WrapRuleFlush(st.pieces, st.stack, FlushPieces(st.buffer, st.manual, st.delay), st.manual);
  }
}
