/**
 * The main-slider title animator (assets/js/tidytouch.js, lines 5-94).
 *
 * The source is one forward scan over an element's HTML with a text
 * buffer, a tag buffer, an output accumulator, a `div` stack, a
 * manual-container flag and a delay counter. `Animate` is that scan;
 * `WrapWord` and `FlushBuffer` are the `wrapWord` closure and the flush
 * that the source writes out twice (at each `<` and after the loop).
 *
 * Each of them is proved against a specification function that lists the
 * pieces it appends (one piece per `+=` on the output): `WordPieces`,
 * `FlushPieces`, and `Transform`, which folds `Step` over the input.
 * The properties of `Transform` are proved in module AnimatorProofs.
 *
 * Delays are counted in hundredths of a second: the source's
 * `delay = 0.05` and `delay += 0.05` are 5 and `+ 5` here.
 */
module Animator {
  import opened Markup

  // ---------------------------------------------------------------------
  // Specification

  /** What `wrapWord`'s loop appends for the characters of w, the delay
      counter standing at d before the first one. */
  function WrapChars(w: string, d: nat): seq<Piece> {
    if w == [] then []
    else [CharPiece(w[0], d)] + WrapChars(w[1..], After(w[0], d))
  }

  /** The piece `wrapWord`'s loop appends for character c when the delay
      counter stands at d: a delay span, or the character itself. */
  function CharPiece(c: char, d: nat): Piece {
    if IsSpace(c) then Space([c]) else Glyph(c, d)
  }

  /** What `wrapWord(w, manual)` returns, as pieces: the inline-block
      wrapper only outside a manual `div`. */
  function WordPieces(w: string, manual: bool, d: nat): seq<Piece> {
    (if manual then [] else [WordOpen]) + WrapChars(w, d) + (if manual then [] else [WordClose])
  }

  /** What the flush loop `for (const word of words)` appends. */
  function FlushWords(words: seq<string>, manual: bool, d: nat): seq<Piece> {
    if words == [] then []
    else RunPieces(words[0], manual, d) + FlushWords(words[1..], manual, d + 5 * NonSpaceCount(words[0]))
  }

  /** What the flush loop appends for one element of the split buffer. */
  function RunPieces(w: string, manual: bool, d: nat): seq<Piece> {
    if HasText(w) then WordPieces(w, manual, d) else [Space(w)]
  }

  /** What flushing the text buffer appends: a buffer with text is split
      into runs, one without text is copied as it is. */
  function FlushPieces(buffer: string, manual: bool, d: nat): seq<Piece> {
    if HasText(buffer) then FlushWords(SplitRuns(buffer), manual, d) else [Space(buffer)]
  }

  /** The scan's variables: output so far (as pieces), `buffer`,
      `tagBuffer`, `insideTag`, `tagStack`, `insideManualDiv`, `delay`. */
  datatype Scan = Scan(
    pieces: seq<Piece>,
    buffer: string,
    tag: string,
    inTag: bool,
    stack: seq<string>,
    manual: bool,
    delay: nat)

  const Start := Scan([], "", "", false, [], false, 5)

  /** One iteration of the `while` loop on character c. */
  function Step(st: Scan, c: char): Scan {
    if c == '<' then
      st.(pieces := st.pieces + FlushPieces(st.buffer, st.manual, st.delay),
          delay := st.delay + 5 * NonSpaceCount(st.buffer),
          buffer := "", inTag := true, tag := "<")
    else if st.inTag then
      var t := st.tag + [c];
      if c == '>' then
        var stack := NextStack(st.stack, t);
        st.(pieces := st.pieces + [Tag(t)], tag := "", inTag := false, stack := stack,
            manual := if TagName(t) != "div" then st.manual
                      else if !IsClosing(t) then true
                      else "div" in stack)
      else
        st.(tag := t)
    else
      st.(buffer := st.buffer + [c])
  }

  /** The scan's variables after the loop has read all of s. */
  function Scanned(s: string): Scan {
    if s == [] then Start else Step(Scanned(s[..|s| - 1]), s[|s| - 1])
  }

  /** Everything the animator appends for the input s: the loop, then the
      final flush. A tag still open at the end is not appended. */
  function Transform(s: string): seq<Piece> {
    var st := Scanned(s);
    st.pieces + FlushPieces(st.buffer, st.manual, st.delay)
  }

  // ---------------------------------------------------------------------
  // The scan

  lemma RenderAllAppend(a: seq<Piece>, b: seq<Piece>)
    ensures RenderAll(a + b) == RenderAll(a) + RenderAll(b)
  {
    FlattenAppend(Render, a, b);
  }

  lemma RenderOne(p: Piece)
    ensures RenderAll([p]) == Render(p)
  {
    FlattenOne(Render, p);
  }

  lemma RenderCons(p: Piece, ps: seq<Piece>)
    ensures RenderAll([p] + ps) == Render(p) + RenderAll(ps)
  {
    RenderAllAppend([p], ps);
    RenderOne(p);
  }

  /** The delay counter after `wrapWord` has seen c. */
  function After(c: char, d: nat): nat {
    if IsSpace(c) then d else d + 5
  }

  lemma WrapCharsStep(word: string, j: nat, d: nat)
    requires j < |word|
    ensures RenderAll(WrapChars(word[j..], d))
      == Render(CharPiece(word[j], d)) + RenderAll(WrapChars(word[j + 1..], After(word[j], d)))
  {
    assert word[j..][1..] == word[j + 1..];
    RenderCons(CharPiece(word[j], d), WrapChars(word[j + 1..], After(word[j], d)));
  }

  lemma CountStep(word: string, j: nat)
    requires j < |word|
    ensures NonSpaceCount(word[j..]) == (if IsSpace(word[j]) then 0 else 1) + NonSpaceCount(word[j + 1..])
  {
    assert word[j..][1..] == word[j + 1..];
  }

  /** One iteration of `wrapWord`'s loop keeps its invariant. */
  lemma WrapAdvance(word: string, j: nat, d: nat, result: string, total: string, piece: string)
    requires j < |word|
    requires result + RenderAll(WrapChars(word[j..], d)) == total
    requires piece == Render(CharPiece(word[j], d))
    ensures (result + piece) + RenderAll(WrapChars(word[j + 1..], After(word[j], d))) == total
  {
    WrapCharsStep(word, j, d);
  }

  /** `wrapWord(word, isManualDiv)` together with its update of the shared
      delay counter. */
  method WrapWord(word: string, isManualDiv: bool, delay: nat) returns (result: string, delay': nat)
    ensures result == RenderAll(WordPieces(word, isManualDiv, delay))
    ensures delay' == delay + 5 * NonSpaceCount(word)
  {
    ghost var total := (if isManualDiv then "" else WordOpenText) + RenderAll(WrapChars(word, delay));
    result := if isManualDiv then "" else WordOpenText;
    delay' := delay;
    assert word[0..] == word;
    for j := 0 to |word|
      invariant result + RenderAll(WrapChars(word[j..], delay')) == total
      invariant delay + 5 * NonSpaceCount(word) == delay' + 5 * NonSpaceCount(word[j..])
    {
      CountStep(word, j);
      var piece, next := WrapChar(word[j], delay');
      WrapAdvance(word, j, delay', result, total, piece);
      result, delay' := result + piece, next;
    }
    assert word[|word|..] == [];
    if !isManualDiv {
      result := result + SpanClose;
    }
    WordPiecesRender(word, isManualDiv, delay);
  }

  /** The body of `wrapWord`'s loop for character c, the counter standing
      at delay: a delay span and a step of the counter, or the character
      itself. */
  method WrapChar(c: char, delay: nat) returns (piece: string, delay': nat)
    ensures piece == Render(CharPiece(c, delay))
    ensures delay' == After(c, delay)
  {
    if !IsSpace(c) {
      piece := "<span style=\"animation-delay:" + Seconds(delay) + "s\">" + [c] + SpanClose;
      delay' := delay + 5;
    } else {
      piece := [c];
      delay' := delay;
    }
  }

  lemma WordPiecesRender(word: string, manual: bool, d: nat)
    ensures RenderAll(WordPieces(word, manual, d))
      == (if manual then "" else WordOpenText) + RenderAll(WrapChars(word, d)) + (if manual then "" else SpanClose)
  {
    var open: seq<Piece> := if manual then [] else [WordOpen];
    var close: seq<Piece> := if manual then [] else [WordClose];
    RenderOne(WordOpen);
    RenderOne(WordClose);
    RenderAllAppend(open + WrapChars(word, d), close);
    RenderAllAppend(open, WrapChars(word, d));
  }

  /** The flush of the text buffer (lines 36-46, repeated at 80-90). */
  method FlushBuffer(buffer: string, insideManualDiv: bool, delay: nat) returns (text: string, delay': nat)
    ensures text == RenderAll(FlushPieces(buffer, insideManualDiv, delay))
    ensures delay' == delay + 5 * NonSpaceCount(buffer)
  {
    if HasText(buffer) {
      var words := SplitRuns(buffer);
      text, delay' := FlushRuns(words, insideManualDiv, delay);
    } else {
      NoTextCountsZero(buffer);
      RenderOne(Space(buffer));
      text, delay' := buffer, delay;
    }
  }

  /** The loop `for (const word of words)` of the flush: runs with text
      go through `wrapWord`, the others are appended as they are. */
  method FlushRuns(words: seq<string>, insideManualDiv: bool, delay: nat) returns (text: string, delay': nat)
    ensures text == RenderAll(FlushWords(words, insideManualDiv, delay))
    ensures delay' == delay + 5 * NonSpaceCount(Concat(words))
  {
    ghost var total := RenderAll(FlushWords(words, insideManualDiv, delay));
    text, delay' := "", delay;
    assert words[0..] == words;
    for k := 0 to |words|
      invariant text + RenderAll(FlushWords(words[k..], insideManualDiv, delay')) == total
      invariant delay + 5 * NonSpaceCount(Concat(words)) == delay' + 5 * NonSpaceCount(Concat(words[k..]))
    {
      ConcatCountStep(words, k);
      var piece, next := FlushRun(words[k], insideManualDiv, delay');
      FlushAdvance(words, k, insideManualDiv, delay', text, total, piece, next);
      text, delay' := text + piece, next;
    }
    assert words[|words|..] == [];
  }

  /** The body of the flush loop for one run of the split buffer: a run
      with text goes through `wrapWord`, another is appended as it is. */
  method FlushRun(word: string, insideManualDiv: bool, delay: nat) returns (piece: string, delay': nat)
    ensures piece == RenderAll(RunPieces(word, insideManualDiv, delay))
    ensures delay' == delay + 5 * NonSpaceCount(word)
  {
    if HasText(word) {
      piece, delay' := WrapWord(word, insideManualDiv, delay);
    } else {
      NoTextCountsZero(word);
      RenderOne(Space(word));
      piece, delay' := word, delay;
    }
  }

  /** One iteration of the flush loop keeps its invariant. */
  lemma FlushAdvance(words: seq<string>, k: nat, manual: bool, d: nat, text: string, total: string, piece: string, next: nat)
    requires k < |words|
    requires text + RenderAll(FlushWords(words[k..], manual, d)) == total
    requires piece == RenderAll(RunPieces(words[k], manual, d))
    requires next == d + 5 * NonSpaceCount(words[k])
    ensures (text + piece) + RenderAll(FlushWords(words[k + 1..], manual, next)) == total
  {
    assert words[k..][1..] == words[k + 1..];
    var head, tail := RunPieces(words[k], manual, d), FlushWords(words[k + 1..], manual, next);
    assert FlushWords(words[k..], manual, d) == head + tail;
    RenderAllAppend(head, tail);
  }

  lemma ConcatCountStep(words: seq<string>, k: nat)
    requires k < |words|
    ensures NonSpaceCount(Concat(words[k..])) == NonSpaceCount(words[k]) + NonSpaceCount(Concat(words[k + 1..]))
  {
    assert words[k..][1..] == words[k + 1..];
    ConcatCons(words[k..]);
    NonSpaceCountAppend(words[k], Concat(words[k + 1..]));
  }

  lemma ConcatCons(words: seq<string>)
    requires words != []
    ensures Concat(words) == words[0] + Concat(words[1..])
  {
    assert words == [words[0]] + words[1..];
    FlattenAppend(Id, [words[0]], words[1..]);
    FlattenOne(Id, words[0]);
  }

  /** The title animator on one element's HTML: the `while` loop over the
      characters and the final flush. */
  method Animate(originalHtml: string) returns (newHtml: string)
    ensures newHtml == RenderAll(Transform(originalHtml))
  {
    newHtml := "";
    var i := 0;
    var delay: nat := 5;
    var insideTag := false;
    var tagBuffer := "";
    var tagStack: seq<string> := [];
    var buffer := "";
    var insideManualDiv := false;

    while i < |originalHtml|
      invariant 0 <= i <= |originalHtml|
      invariant Scanned(originalHtml[..i])
        == Scan(Scanned(originalHtml[..i]).pieces, buffer, tagBuffer, insideTag, tagStack, insideManualDiv, delay)
      invariant newHtml == RenderAll(Scanned(originalHtml[..i]).pieces)
    {
      var ch := originalHtml[i];
      ghost var before := Scanned(originalHtml[..i]);
      assert originalHtml[..i + 1][..i] == originalHtml[..i];
      assert Scanned(originalHtml[..i + 1]) == Step(before, ch);

      if ch == '<' {
        var flushed;
        flushed, delay := FlushBuffer(buffer, insideManualDiv, delay);
        RenderAllAppend(before.pieces, FlushPieces(before.buffer, before.manual, before.delay));
        newHtml := newHtml + flushed;
        buffer := "";
        insideTag := true;
        tagBuffer := "<";
      } else if insideTag {
        tagBuffer := tagBuffer + [ch];
        if ch == '>' {
          insideTag := false;
          var isClosing := IsClosing(tagBuffer);
          var tagName := TagName(tagBuffer);
          if tagName == "div" {
            if !isClosing {
              tagStack := tagStack + ["div"];
              insideManualDiv := true;
            } else {
              if tagStack != [] {
                tagStack := tagStack[..|tagStack| - 1];
              }
              insideManualDiv := "div" in tagStack;
            }
          }
          RenderAllAppend(before.pieces, [Tag(tagBuffer)]);
          RenderOne(Tag(tagBuffer));
          newHtml := newHtml + tagBuffer;
          tagBuffer := "";
        }
      } else {
        buffer := buffer + [ch];
      }
      i := i + 1;
    }

    assert originalHtml[..i] == originalHtml;
    var flushed;
    flushed, delay := FlushBuffer(buffer, insideManualDiv, delay);
    RenderAllAppend(Scanned(originalHtml).pieces, FlushPieces(buffer, insideManualDiv, Scanned(originalHtml).delay));
    newHtml := newHtml + flushed;
  }
}
