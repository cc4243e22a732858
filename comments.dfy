/** `convertToBlockComment`: a documentation comment becomes a JSDoc block
    indented for the module body. */
module Comments {
  import opened Seqs
  import opened JsString

  /** `line.replace(/\*\//g, '*\\/')`: every star-slash, left to right and
      without overlap, becomes star-backslash-slash. */
  function EscapeClose(s: string): (r: string)
    ensures s != [] ==> r != [] && r[0] == s[0]
    decreases |s|
  {
    if s == [] then []
    else if |s| >= 2 && s[0] == '*' && s[1] == '/' then "*\\/" + EscapeClose(s[2..])
    else [s[0]] + EscapeClose(s[1..])
  }

  /** Escaping is the global replace: split the line at every star-slash
      and join the pieces with star-backslash-slash. */
  lemma {:induction false} EscapeCloseIsReplaceAll(s: string)
    ensures EscapeClose(s) == Join(Split(s, "*/"), "*\\/")
    decreases |s|
  {
    if |s| < 2 {
      EscapeCloseShort(s);
    } else if s[0] == '*' && s[1] == '/' {
      EscapeCloseIsReplaceAll(s[2..]);
      ReplaceAllCut(s);
    } else {
      EscapeCloseIsReplaceAll(s[1..]);
      ReplaceAllShift(s);
    }
  }

  /** A line too short to hold a star-slash is one piece, kept as it is. */
  lemma EscapeCloseShort(s: string)
    requires |s| < 2
    ensures EscapeClose(s) == Join(Split(s, "*/"), "*\\/")
  {
    if |s| == 1 {
      assert [s[0]] == s;
    }
  }

  /** The step of `EscapeCloseIsReplaceAll` at a star-slash. */
  lemma ReplaceAllCut(s: string)
    requires |s| >= 2 && s[0] == '*' && s[1] == '/'
    requires EscapeClose(s[2..]) == Join(Split(s[2..], "*/"), "*\\/")
    ensures EscapeClose(s) == Join(Split(s, "*/"), "*\\/")
  {
    assert s[..2] == "*/";
    JoinEmptyHead(Split(s[2..], "*/"), "*\\/");
  }

  /** The step of `EscapeCloseIsReplaceAll` at any other character. */
  lemma ReplaceAllShift(s: string)
    requires |s| >= 2 && !(s[0] == '*' && s[1] == '/')
    requires EscapeClose(s[1..]) == Join(Split(s[1..], "*/"), "*\\/")
    ensures EscapeClose(s) == Join(Split(s, "*/"), "*\\/")
  {
    assert s[..2] != "*/" by {
      assert s[..2][0] == s[0] && s[..2][1] == s[1];
    }
    var rest := Split(s[1..], "*/");
    JoinExtendHead([s[0]], rest[0], rest[1..], "*\\/");
    HeadTail(rest);
  }

  /** After escaping no star-slash is left. */
  lemma {:induction false} EscapeCloseRemovesClose(s: string)
    ensures !HasClose(EscapeClose(s))
    decreases |s|
  {
    if s == [] {
    } else if |s| >= 2 && s[0] == '*' && s[1] == '/' {
      EscapeCloseRemovesClose(s[2..]);
      HasCloseConcat("*\\/", EscapeClose(s[2..]));
      assert !HasClose("*\\/") by {
        assert "*\\/"[1..] == "\\/";
        assert "\\/"[1..] == "/";
      }
    } else {
      EscapeCloseRemovesClose(s[1..]);
      HasCloseConcat([s[0]], EscapeClose(s[1..]));
    }
  }

  /** A line without a star-slash is left as it is. */
  lemma {:induction false} EscapeCloseKeepsPlain(s: string)
    requires !HasClose(s)
    ensures EscapeClose(s) == s
    decreases |s|
  {
    if s != [] {
      EscapeCloseKeepsPlain(s[1..]);
      assert [s[0]] + s[1..] == s;
    }
  }

  /** Escaping adds no line break. */
  lemma {:induction false} EscapeCloseNoNewline(s: string)
    requires '\n' !in s
    ensures '\n' !in EscapeClose(s)
    decreases |s|
  {
    if s != [] {
      if |s| >= 2 && s[0] == '*' && s[1] == '/' {
        EscapeCloseNoNewline(s[2..]);
      } else {
        EscapeCloseNoNewline(s[1..]);
      }
    }
  }

  /** The opening put before the first line. */
  const Opening: string := "  /**\n   * "

  /** The prefix of every later line. */
  const LinePrefix: string := "   * "

  /** The closing line pushed after the mapped lines. */
  const Closing: string := "   */"

  /** The `map` callback: the first line opens the block and is emitted
      unescaped; every later line is prefixed and escaped. */
  function IndentLine(line: string, index: nat): string
  {
    if index == 0 then Opening + line else LinePrefix + EscapeClose(line)
  }

  function IndentLines(lines: seq<string>): (r: seq<string>)
    ensures |r| == |lines|
    ensures forall i :: 0 <= i < |lines| ==> r[i] == IndentLine(lines[i], i)
  {
    seq(|lines|, i requires 0 <= i < |lines| => IndentLine(lines[i], i))
  }

  /** `lines.map(...)`: the comment's lines, opened or prefixed. */
  function CommentLines(input: string): seq<string>
  {
    IndentLines(Split(input, "\n"))
  }

  /** The lines of the block before the closing line, joined. */
  function CommentBody(input: string): string
  {
    Join(CommentLines(input), "\n")
  }

  /** `convertToBlockComment(inputString)`: the mapped lines with the
      closing line pushed after them, joined. */
  function ConvertToBlockComment(input: string): string
  {
    Join(CommentLines(input) + [Closing], "\n")
  }

  /** The later lines, prefixed and escaped. */
  function LaterLines(lines: seq<string>): (r: seq<string>)
    ensures |r| == |lines|
    ensures forall i :: 0 <= i < |lines| ==> r[i] == LinePrefix + EscapeClose(lines[i])
  {
    seq(|lines|, i requires 0 <= i < |lines| => LinePrefix + EscapeClose(lines[i]))
  }

  /** For n input lines the block has n + 2 lines: the opening line, the
      line prefix and the first line, the line prefix and each later line
      escaped, then the closing line. */
  lemma BlockCommentLines(input: string)
    ensures Split(ConvertToBlockComment(input), "\n") ==
      ["  /**", LinePrefix + Split(input, "\n")[0]]
      + LaterLines(Split(input, "\n")[1..]) + [Closing]
    ensures |Split(ConvertToBlockComment(input), "\n")| == |Split(input, "\n")| + 2
  {
    var lines := Split(input, "\n");
    var tail := LaterLines(lines[1..]) + [Closing];
    IndentedWithClosing(lines);
    OpeningLineJoin(lines[0], tail);
    var out := ["  /**", LinePrefix + lines[0]] + tail;
    SplitPiecesFree(input, "\n");
    BlockLinesFree(lines, out);
    SplitJoin(out, "\n");
  }

  /** The indented lines and the closing line: the opened first line, then
      the later lines, then the closing line. */
  lemma IndentedWithClosing(lines: seq<string>)
    requires |lines| >= 1
    ensures IndentLines(lines) + [Closing]
      == [Opening + lines[0]] + (LaterLines(lines[1..]) + [Closing])
  {
    assert IndentLines(lines)[1..] == LaterLines(lines[1..]);
  }

  /** The opening's line break splits the opened first line in two. */
  lemma OpeningLineJoin(line: string, tail: seq<string>)
    ensures Join([Opening + line] + tail, "\n") == Join(["  /**", LinePrefix + line] + tail, "\n")
  {
    assert Opening + line == "  /**" + "\n" + (LinePrefix + line);
    JoinSplitHead("  /**", LinePrefix + line, tail, "\n");
  }

  /** No line of the block holds a line break when no comment line does. */
  lemma BlockLinesFree(lines: seq<string>, out: seq<string>)
    requires |lines| >= 1
    requires forall k :: 0 <= k < |lines| ==> '\n' !in lines[k]
    requires out == ["  /**", LinePrefix + lines[0]] + LaterLines(lines[1..]) + [Closing]
    ensures forall k :: 0 <= k < |out| ==> '\n' !in out[k]
  {
    forall k | 0 <= k < |out| ensures '\n' !in out[k] {
      if 2 <= k < |out| - 1 {
        assert out[k] == LinePrefix + EscapeClose(lines[k - 1]);
        EscapeCloseNoNewline(lines[k - 1]);
      }
    }
  }

  /** A run of later lines, joined, holds no star-slash. */
  lemma {:induction false} LaterLinesNoClose(lines: seq<string>)
    ensures !HasClose(Join(LaterLines(lines), "\n"))
    decreases |lines|
  {
    if |lines| == 1 {
      EscapeCloseRemovesClose(lines[0]);
      PrefixedNoClose(EscapeClose(lines[0]));
    } else if |lines| > 1 {
      var rest := LaterLines(lines[1..]);
      assert LaterLines(lines)[1..] == rest;
      LaterLinesNoClose(lines[1..]);
      EscapeCloseRemovesClose(lines[0]);
      PrefixedNoClose(EscapeClose(lines[0]));
      var head := LinePrefix + EscapeClose(lines[0]);
      assert Join(LaterLines(lines), "\n") == head + ("\n" + Join(rest, "\n"));
      HasCloseConcat("\n", Join(rest, "\n"));
      HasCloseConcat(head, "\n" + Join(rest, "\n"));
    }
  }

  /** The line prefix adds no star-slash in front of a line without one. */
  lemma PrefixedNoClose(s: string)
    requires !HasClose(s)
    ensures !HasClose(LinePrefix + s)
  {
    HasCloseConcat(LinePrefix, s);
    assert !HasClose(LinePrefix) by {
      assert LinePrefix[1..] == "  * ";
      assert LinePrefix[2..] == " * ";
      assert LinePrefix[3..] == "* ";
      assert LinePrefix[4..] == " ";
    }
  }

  /** The opening holds no star-slash and ends in a space. */
  lemma OpeningNoClose()
    ensures !HasClose(Opening) && Opening[|Opening| - 1] == ' '
  {
    HasCloseAt(Opening);
    forall i | 0 <= i < |Opening| - 1 ensures !(Opening[i] == '*' && Opening[i + 1] == '/') {
      assert Opening[i + 1] == '/' ==> i + 1 == 2;
    }
  }

  /** The block is its body followed by the closing line, and the body holds
      a star-slash exactly when the first comment line does: later lines are
      escaped, the first is not, so a star-slash on the first line ends the
      block early. */
  lemma BlockCommentCloses(input: string)
    ensures ConvertToBlockComment(input) == CommentBody(input) + "\n" + Closing
    ensures HasClose(CommentBody(input)) <==> HasClose(Split(input, "\n")[0])
  {
    var lines := Split(input, "\n");
    JoinAppend(IndentLines(lines), [Closing], "\n");
    BodyCloses(lines);
  }

  /** The joined indented lines hold a star-slash exactly when the first
      line does. */
  lemma BodyCloses(lines: seq<string>)
    requires |lines| >= 1
    ensures HasClose(Join(IndentLines(lines), "\n")) <==> HasClose(lines[0])
  {
    var first := Opening + lines[0];
    FirstLineCloses(lines[0]);
    if |lines| > 1 {
      var rest := Join(LaterLines(lines[1..]), "\n");
      BodyShape(lines);
      LaterLinesNoClose(lines[1..]);
      HasCloseConcat("\n", rest);
      HasCloseConcat(first, "\n" + rest);
    }
  }

  /** The first line holds a star-slash after the opening exactly when it
      holds one on its own. */
  lemma FirstLineCloses(line: string)
    ensures HasClose(Opening + line) <==> HasClose(line)
  {
    OpeningNoClose();
    HasCloseConcat(Opening, line);
  }

  /** With more than one line, the body is the opened first line, a line
      break, and the later lines joined. */
  lemma BodyShape(lines: seq<string>)
    requires |lines| > 1
    ensures Join(IndentLines(lines), "\n")
      == (Opening + lines[0]) + ("\n" + Join(LaterLines(lines[1..]), "\n"))
  {
    var ind := IndentLines(lines);
    assert ind[1..] == LaterLines(lines[1..]);
    assert Join(ind, "\n") == ind[0] + "\n" + Join(ind[1..], "\n");
  }
}
