// Reading back the ordinates part of a well-known text written by a point or
// a polyline: the keyword, the flag letter and the parentheses are removed and
// the padding trimmed, which leaves exactly the vertex text.

module WktLaws {
  import opened DotNetText
  import opened GeometryHelper

  /** The characters of number texts and of the spaces between them. */
  const VertexChars: set<char> := {'0', '1', '2', '3', '4', '5', '6', '7', '8', '9', '.', '-', ' '}

  /** The characters of the vertex texts of a polyline, which commas separate. */
  const TextChars: set<char> := VertexChars + {','}

  /** A keyword of a well-known text: upper-case letters other than Z and M. */
  predicate Keyword(k: string)
  {
    && |k| > 0
    && forall ch :: ch in k ==> 'A' <= ch <= 'Y' && ch != 'M'
  }

  lemma KeywordsAreKeywords()
    ensures Keyword("POINT") && Keyword("LINESTRING")
  {
  }

  /** The keyword and the dimension letter in front of the vertex text of a geometry without M. */
  function Prefix(keyword: string, hasZ: bool): string
  {
    keyword + (if hasZ then " Z" else "")
  }

  /** Without M, the head of a well-known text is the keyword, then " Z" when the geometry has Z. */
  lemma PrefixShape(keyword: string, hasZ: bool)
    requires Keyword(keyword)
    ensures WktPrefix(keyword, hasZ, false) == Prefix(keyword, hasZ)
  {
    assert keyword[|keyword| - 1] in keyword;
    if hasZ {
      assert keyword + " " + "Z" + "" == keyword + " Z";
    } else {
      assert keyword + " " + "" + "" == keyword + " ";
      TrimEndDrops(keyword, " ", {' '});
    }
  }

  /** A vertex text: characters of numbers, spaces and commas, neither starting nor ending with white space. */
  predicate VertexText(core: string)
  {
    && (forall ch :: ch in core ==> ch in TextChars)
    && core != [] && core[0] !in WhiteSpace && core[|core| - 1] !in WhiteSpace
  }

  /** A framed vertex text has no lower-case letter, a Z exactly after a Z prefix, and no M. */
  lemma FramedTextLetters(keyword: string, hasZ: bool, core: string)
    requires Keyword(keyword) && VertexText(core)
    ensures var text := Prefix(keyword, hasZ) + " (" + core + ")";
      && ToUpper(text) == text
      && ('Z' in text <==> hasZ)
      && 'M' !in text
  {
    var text := Prefix(keyword, hasZ) + " (" + core + ")";
    FramedChars(keyword, hasZ, core);
    forall i | 0 <= i < |text|
      ensures !IsLowerAscii(text[i])
    {
      assert text[i] in text;
    }
    ToUpperIdentity(text);
  }

  /** The characters of a framed vertex text: those of the keyword and of vertex texts, parentheses, and Z after a Z prefix. */
  lemma FramedChars(keyword: string, hasZ: bool, core: string)
    requires VertexText(core)
    ensures var text := Prefix(keyword, hasZ) + " (" + core + ")";
      && (forall ch :: ch in text ==> ch in keyword || ch in TextChars || ch == '(' || ch == ')' || (hasZ && ch == 'Z'))
      && (hasZ ==> 'Z' in text)
  {
    var dim: string := if hasZ then " Z" else "";
    assert forall ch :: ch in dim ==> ch == ' ' || ch == 'Z';
    assert forall ch :: ch in " (" ==> ch == ' ' || ch == '(';
    if hasZ {
      assert 'Z' in dim;
    }
  }

  /** The keyword removed from a framed vertex text leaves what follows it. */
  lemma StripKeyword(keyword: string, hasZ: bool, core: string)
    requires Keyword(keyword) && VertexText(core)
    ensures RemoveAll(Prefix(keyword, hasZ) + " (" + core + ")", keyword)
         == (if hasZ then " Z" else "") + " (" + core + ")"
  {
    var dim: string := if hasZ then " Z" else "";
    assert Prefix(keyword, hasZ) + " (" == keyword + (dim + " (");
    assert keyword[0] in keyword;
    assert keyword[0] !in dim + " (";
    RemoveLeadingFramed(keyword, dim + " (", core, ")");
  }

  /** Every Z removed from what follows the keyword leaves spaces, the opening parenthesis, the text and the closing one. */
  lemma StripZ(hasZ: bool, core: string)
    requires VertexText(core)
    ensures RemoveAll((if hasZ then " Z" else "") + " (" + core + ")", "Z")
         == (if hasZ then "  (" else " (") + core + ")"
  {
    var open: string := (if hasZ then " Z" else "") + " (";
    RemoveCharFramed(open, core, ")", 'Z');
    WithoutAbsent(" (", 'Z');
    if hasZ {
      assert open == [' '] + (['Z'] + " (");
      WithoutCons('Z', " (", 'Z');
      WithoutCons(' ', ['Z'] + " (", 'Z');
    }
    WithoutAbsent(")", 'Z');
  }

  /** The keyword and every Z removed from a framed vertex text leave spaces, the opening parenthesis, the text and the closing one. */
  lemma StripKeywordAndZ(keyword: string, hasZ: bool, core: string)
    requires Keyword(keyword) && VertexText(core)
    ensures RemoveAll(RemoveAll(Prefix(keyword, hasZ) + " (" + core + ")", keyword), "Z")
         == (if hasZ then "  (" else " (") + core + ")"
  {
    StripKeyword(keyword, hasZ, core);
    StripZ(hasZ, core);
  }

  /** With no M to remove, removing the opening parenthesis leaves the padding, the text and the closing one. */
  lemma StripOpening(hasZ: bool, core: string)
    requires VertexText(core)
    ensures var rest := (if hasZ then "  (" else " (") + core + ")";
      RemoveAll(RemoveAll(rest, "M"), "(") == (if hasZ then "  " else " ") + core + ")"
  {
    var open: string := if hasZ then "  (" else " (";
    assert 'M' !in TextChars && '(' !in TextChars;
    RemoveAbsent(open + core + ")", "M");
    RemoveCharFramed(open, core, ")", '(');
    OpeningWithout(hasZ);
    WithoutAbsent(")", '(');
  }

  /** The opening parenthesis removed from the padded opening leaves the padding. */
  lemma OpeningWithout(hasZ: bool)
    ensures Without(if hasZ then "  (" else " (", '(') == if hasZ then "  " else " "
  {
    var pad: string := if hasZ then "  " else " ";
    assert (if hasZ then "  (" else " (") == pad + "(";
    WithoutAppend(pad, "(", '(');
    WithoutAbsent(pad, '(');
    assert "(" == ['('] + "";
    WithoutCons('(', "", '(');
  }

  /** Removing the closing parenthesis and trimming the padding leave the vertex text. */
  lemma StripClosing(pad: string, core: string)
    requires VertexText(core)
    requires forall i :: 0 <= i < |pad| ==> pad[i] == ' '
    ensures Trim(RemoveAll(pad + core + ")", ")")) == core
  {
    assert ')' !in TextChars;
    RemoveCharFramed(pad, core, ")", ')');
    WithoutAbsent(pad, ')');
    WithoutCons(')', "", ')');
    assert ")" == [')'] + "";
    assert pad + core + "" == pad + core;
    TrimPadded(pad, core, "", WhiteSpace);
  }

  /** With no M to remove, removing both parentheses and trimming leave the vertex text. */
  lemma StripParentheses(hasZ: bool, core: string)
    requires VertexText(core)
    ensures var rest := (if hasZ then "  (" else " (") + core + ")";
      Trim(RemoveAll(RemoveAll(RemoveAll(rest, "M"), "("), ")")) == core
  {
    StripOpening(hasZ, core);
    StripClosing(if hasZ then "  " else " ", core);
  }

  /**
   * Reading the ordinates part back from a framed vertex text: the text is
   * already upper-case, holds a Z exactly when the prefix announces it and no
   * M, and the keyword, the letters and the parentheses removed and the
   * padding trimmed leave the vertex text.
   */
  lemma FramedCoordinatesText(keyword: string, hasZ: bool, core: string)
    requires Keyword(keyword) && VertexText(core)
    ensures var text := Prefix(keyword, hasZ) + " (" + core + ")";
      && ToUpper(text) == text
      && ('Z' in text <==> hasZ)
      && 'M' !in text
      && CoordinatesText(keyword, text) == core
  {
    FramedTextLetters(keyword, hasZ, core);
    StripKeywordAndZ(keyword, hasZ, core);
    StripParentheses(hasZ, core);
  }
}
