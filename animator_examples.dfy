/**
 * Worked inputs for the title animator (assets/js/tidytouch.js, lines
 * 5-94): plain words, a manual `div`, and an unclosed `<`.
 */
module AnimatorExamples {
  import opened Markup
  import opened Animator
  import opened AnimatorProofs

  lemma ExampleScan()
    ensures Scanned("a b") == Start.(buffer := "a b")
  {
    assert "a b"[..2] == "a ";
    assert "a b"[..2][..1] == "a";
    assert "a"[..0] == "";
  }

  lemma ExampleSplit()
    ensures SplitRuns("a b") == ["a", " ", "b"]
  {
    assert !IsSpace('a') && IsSpace(' ') && !IsSpace('b');
    assert LeadingRun("b", false) == "b";
    assert SplitRuns("b") == ["b"];
    assert LeadingRun(" b", true) == " ";
    assert LeadingRun("a b", false) == "a";
  }

  /** A one-letter word outside a manual div: wrapper, glyph, wrapper. */
  lemma LetterRun(c: char, d: nat)
    requires !IsSpace(c)
    ensures RunPieces([c], false, d) == [WordOpen, Glyph(c, d), WordClose]
    ensures NonSpaceCount([c]) == 1
  {
    assert HasText([c]) by { assert !IsSpace([c][0]); }
    assert [c][1..] == [];
    assert WrapChars([c], d) == [Glyph(c, d)];
  }

  lemma ExampleFlush()
    ensures FlushWords(["a", " ", "b"], false, 5) == [WordOpen, Glyph('a', 5), WordClose, Space(" "), WordOpen, Glyph('b', 10), WordClose]
  {
    var words := ["a", " ", "b"];
    LetterRun('a', 5);
    LetterRun('b', 10);
    assert !HasText(" ");
    assert NonSpaceCount(" ") == 0;
    assert words[1..] == [" ", "b"] && words[1..][1..] == ["b"] && ["b"][1..] == [];
    assert FlushWords(["b"], false, 10) == [WordOpen, Glyph('b', 10), WordClose];
    assert FlushWords([" ", "b"], false, 10) == [Space(" "), WordOpen, Glyph('b', 10), WordClose];
  }

  lemma ExampleWords()
    ensures Transform("a b") == [WordOpen, Glyph('a', 5), WordClose, Space(" "), WordOpen, Glyph('b', 10), WordClose]
  {
    ExampleScan();
    ExampleSplit();
    ExampleFlush();
    assert HasText("a b") by { assert !IsSpace("a b"[0]); }
  }

  lemma ExampleGlyph()
    ensures Render(Glyph('a', 5)) == "<span style=\"animation-delay:0.05s\">a</span>"
  {
    assert Seconds(5) == "0.05";
  }

  lemma ExampleUnclosed()
    ensures Lexemes("a<b") == [TextChar('a')]
    ensures EraseAll(Transform("a<b")) == [TextChar('a')]
    ensures !WellFormed("a<b")
  {
    assert "a<b"[..2] == "a<";
    assert "a<b"[..2][..1] == "a";
    assert "a"[..0] == "";
    assert !TagClosed("a<b", 1);
    EraseTransform("a<b");
  }

  lemma ExampleDivName()
    ensures TagName("<div>") == "div" && !IsClosing("<div>")
    ensures TagName("</DIV>") == "div" && IsClosing("</DIV>")
  {
    assert "<div>"[1..] == "div>";
    assert LeadingWordChars("div>") == "div";
    assert LowerAll("div") == "div";
    assert "</DIV>"[2..] == "DIV>";
    assert LeadingWordChars("DIV>") == "DIV";
    assert LowerAll("DIV") == "div" by {
      assert ToLower('D') == 'd' && ToLower('I') == 'i' && ToLower('V') == 'v';
    }
  }

  lemma ExampleDivScan()
    ensures var st := Scanned("<div>x");
      st.pieces == [Space(""), Tag("<div>")] && st.buffer == "x" && st.manual && st.stack == ["div"] && st.delay == 5
  {
    var s := "<div>x";
    assert s[..5] == "<div>";
    assert "<div>"[..4] == "<div";
    assert "<div"[..3] == "<di";
    assert "<di"[..2] == "<d";
    assert "<d"[..1] == "<";
    assert "<"[..0] == "";
    ExampleDivName();
    assert FlushPieces("", false, 5) == [Space("")];
    var s1 := Start.(pieces := [Space("")], inTag := true, tag := "<");
    assert Scanned("<") == s1;
    assert Scanned("<d") == s1.(tag := "<d");
    assert Scanned("<di") == s1.(tag := "<di");
    assert Scanned("<div") == s1.(tag := "<div");
    assert "<div" + ['>'] == "<div>";
    assert NextStack([], "<div>") == ["div"];
    assert Scanned("<div>") == s1.(pieces := [Space(""), Tag("<div>")], tag := "", inTag := false, stack := ["div"], manual := true);
  }

  lemma ExampleDivNoWrapper()
    ensures Transform("<div>x") == [Space(""), Tag("<div>"), Glyph('x', 5)]
  {
    ExampleDivScan();
    ExampleManualFlush();
    assert [Space(""), Tag("<div>")] + [Glyph('x', 5)] == [Space(""), Tag("<div>"), Glyph('x', 5)];
  }

  lemma ExampleManualFlush()
    ensures FlushPieces("x", true, 5) == [Glyph('x', 5)]
  {
    assert HasText("x") by { assert !IsSpace("x"[0]); }
    assert LeadingRun("x", false) == "x";
    assert SplitRuns("x") == ["x"];
    assert WrapChars("x", 5) == [Glyph('x', 5)];
    assert FlushWords(["x"], true, 5) == [Glyph('x', 5)];
  }

  /** A `<` inside a tag drops the partial tag `<b` and starts a new one. */
  lemma ExampleRestartedTag()
    ensures Lexemes("<b<i>x") == [WholeTag("<i>"), TextChar('x')]
    ensures EraseAll(Transform("<b<i>x")) == [WholeTag("<i>"), TextChar('x')]
  {
    assert "<b<i>x"[..5] == "<b<i>";
    assert "<b<i>"[..4] == "<b<i";
    assert "<b<i"[..3] == "<b<";
    assert "<b<"[..2] == "<b";
    assert "<b"[..1] == "<";
    assert "<"[..0] == "";
    assert LexOf("<b<") == Lex([], true, "<");
    assert LexOf("<b<i") == Lex([], true, "<i");
    assert "<i" + ['>'] == "<i>";
    assert LexOf("<b<i>") == Lex([WholeTag("<i>")], false, "");
    EraseTransform("<b<i>x");
  }
}
