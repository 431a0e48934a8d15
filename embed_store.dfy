// The chunk renderer of parser/embed_store.py: `chunk_to_text` turns a code
// chunk into the labelled text that is handed to the embedding model.

module EmbedStore {
  import opened Text

  /** The fields of a code chunk that the renderer reads. The name, the
      comments and the body are text; the line numbers are Python integers. */
  datatype CodeChunk = CodeChunk(
    functionName: string,
    lineStart: int,
    lineEnd: int,
    comments: string,
    functionBody: string)

  /** The four labelled parts of the rendering, in order. */
  function Parts(c: CodeChunk): seq<string>
  {
    [ "Function: " + c.functionName,
      "Lines: " + IntToDecimal(c.lineStart) + "-" + IntToDecimal(c.lineEnd),
      "comments: " + c.comments,
      "code:\n" + c.functionBody ]
  }

  /** `chunk_to_text`: the four parts joined by "\n". */
  function ChunkToText(c: CodeChunk): string
  {
    Join(Parts(c), "\n")
  }

  /** The rendering is exactly the four parts, in order, separated by single
      newlines: name, line range, comments, then "code:", a newline and the
      body. */
  lemma ChunkToTextLayout(c: CodeChunk)
    ensures ChunkToText(c)
         == ("Function: " + c.functionName) + "\n"
          + ("Lines: " + IntToDecimal(c.lineStart) + "-" + IntToDecimal(c.lineEnd)) + "\n"
          + ("comments: " + c.comments) + "\n"
          + ("code:\n" + c.functionBody)
  {
    var p := Parts(c);
    JoinFour(p[0], p[1], p[2], p[3], "\n");
  }

  /** The same layout, grouped the way the text is read back: the first part,
      a newline, and the rest. */
  lemma ChunkToTextNested(c: CodeChunk)
    ensures var p := Parts(c);
      ChunkToText(c) == p[0] + "\n" + (p[1] + "\n" + (p[2] + "\n" + p[3]))
  {
    var p := Parts(c);
    JoinFour(p[0], p[1], p[2], p[3], "\n");
  }

  /** The rendering starts with "Function: " followed by the function name. */
  lemma ChunkToTextStartsWithName(c: CodeChunk)
    ensures "Function: " + c.functionName <= ChunkToText(c)
  {
    ChunkToTextNested(c);
    var p := Parts(c);
    var rest := "\n" + (p[1] + "\n" + (p[2] + "\n" + p[3]));
    assert ChunkToText(c) == p[0] + rest;
    assert (p[0] + rest)[..|p[0]|] == p[0];
  }

  /** The rendering ends with the body, verbatim, right after "code:\n". */
  lemma ChunkToTextEndsWithBody(c: CodeChunk)
    ensures var r := ChunkToText(c);
      |r| >= |c.functionBody| + 6 && r[|r| - |c.functionBody| - 6..] == "code:\n" + c.functionBody
  {
    ChunkToTextLayout(c);
    var p := Parts(c);
    var front := p[0] + "\n" + p[1] + "\n" + p[2] + "\n";
    assert ChunkToText(c) == front + p[3];
    assert (front + p[3])[|front|..] == p[3];
  }

  /** The length of the rendering is the sum of the lengths of the four parts
      and of the three separators: the rendered fields plus 37 characters of
      labels and separators. */
  lemma ChunkToTextLength(c: CodeChunk)
    ensures |ChunkToText(c)| == |Parts(c)[0]| + |Parts(c)[1]| + |Parts(c)[2]| + |Parts(c)[3]| + 3
    ensures |ChunkToText(c)|
         == |c.functionName| + |IntToDecimal(c.lineStart)| + |IntToDecimal(c.lineEnd)|
          + |c.comments| + |c.functionBody| + 37
  {
    ChunkToTextLayout(c);
  }

  /** When the name holds no newline, the second line of the rendering is
      "Lines: ", the decimal start line, "-" and the decimal end line. */
  lemma ChunkToTextLinesPart(c: CodeChunk)
    requires '\n' !in c.functionName
    ensures var lines := SplitOn(ChunkToText(c), '\n');
      |lines| >= 2 && lines[1] == "Lines: " + IntToDecimal(c.lineStart) + "-" + IntToDecimal(c.lineEnd)
  {
    ChunkToTextNested(c);
    var p := Parts(c);
    NoNewlineInParts(c);
    var r2 := p[2] + "\n" + p[3];
    SplitOnAfter(p[0], '\n', p[1] + "\n" + r2);
    SplitOnAfter(p[1], '\n', r2);
  }

  /** Only the free text of the name and the comments can put a newline into
      the first three parts. */
  lemma NoNewlineInParts(c: CodeChunk)
    ensures '\n' !in Parts(c)[1]
    ensures '\n' !in c.functionName ==> '\n' !in Parts(c)[0]
    ensures '\n' !in c.comments ==> '\n' !in Parts(c)[2]
  {
    NoNewlineInDecimal(c.lineStart);
    NoNewlineInDecimal(c.lineEnd);
  }

  lemma NoNewlineInDecimal(i: int)
    ensures '\n' !in IntToDecimal(i)
  {
    var r := IntToDecimal(i);
    forall j | 0 <= j < |r| ensures r[j] != '\n' {
      if i < 0 && j > 0 {
        assert r[j] == r[1..][j - 1];
      }
    }
  }

  // ---------------------------------------------------------------------------
  // Reading a rendering back
  // ---------------------------------------------------------------------------

  /** Cuts `t` at its first newline. */
  function SplitFirst(t: string): (r: Option<(string, string)>)
    ensures r.Some? ==> '\n' !in r.value.0 && t == r.value.0 + "\n" + r.value.1
    ensures r.None? ==> '\n' !in t
  {
    var k := IndexOf(t, '\n');
    if k == |t| then
      assert t[..k] == t;
      None
    else
      assert t == t[..k] + "\n" + t[k + 1..];
      Some((t[..k], t[k + 1..]))
  }

  lemma SplitFirstOf(a: string, b: string)
    requires '\n' !in a
    ensures SplitFirst(a + "\n" + b) == Some((a, b))
  {
    var t := a + "\n" + b;
    IndexOfAfter(a, '\n', b);
    assert t[..|a|] == a;
    assert t[|a| + 1..] == b;
  }

  /** Reads "<start>-<end>" as two integers in `str` form: the separator is
      the first '-' after the first character (a leading '-' is the sign of the
      start line). */
  function ParseLineRange(s: string): Option<(int, int)>
  {
    if s == [] then None
    else
      var k := 1 + IndexOf(s[1..], '-');
      if k >= |s| then None
      else
        match (ParseInt(s[..k]), ParseInt(s[k + 1..]))
        case (Some(a), Some(b)) => Some((a, b))
        case _ => None
  }

  lemma ParseLineRangeOf(a: int, b: int)
    ensures ParseLineRange(IntToDecimal(a) + "-" + IntToDecimal(b)) == Some((a, b))
  {
    var x := IntToDecimal(a);
    var y := IntToDecimal(b);
    var s := x + "-" + y;
    assert '-' !in x[1..] by {
      forall j | 0 <= j < |x| - 1 ensures x[1..][j] != '-' {
        if a >= 0 { assert x[1..][j] == x[j + 1]; }
      }
    }
    assert s[1..] == x[1..] + "-" + y;
    IndexOfAfter(x[1..], '-', y);
    assert s[..|x|] == x;
    assert s[|x| + 1..] == y;
    IntToDecimalRoundTrip(a);
    IntToDecimalRoundTrip(b);
  }

  /** Reads a rendering back into a chunk: the text is cut at its first three
      newlines and the four pieces are read by `ParseLabelled`. */
  function ParseChunkText(t: string): Option<CodeChunk>
  {
    match SplitFirst(t)
    case None => None
    case Some((l1, r1)) =>
      match SplitFirst(r1)
      case None => None
      case Some((l2, r2)) =>
        match SplitFirst(r2)
        case None => None
        case Some((l3, r3)) => ParseLabelled(l1, l2, l3, r3)
  }

  /** Each of the first three lines must carry its label, the rest must start
      with "code:\n", and the line range must be in the form the renderer
      writes. */
  function ParseLabelled(l1: string, l2: string, l3: string, r3: string): Option<CodeChunk>
  {
    if !("Function: " <= l1 && "Lines: " <= l2 && "comments: " <= l3 && "code:\n" <= r3) then None
    else
      match ParseLineRange(l2[7..])
      case None => None
      case Some((a, b)) =>
        if l2 != "Lines: " + IntToDecimal(a) + "-" + IntToDecimal(b) then None
        else Some(CodeChunk(l1[10..], a, b, l3[10..], r3[6..]))
  }

  lemma ParseChunkTextOfLines(l1: string, l2: string, l3: string, r3: string)
    requires '\n' !in l1 && '\n' !in l2 && '\n' !in l3
    ensures ParseChunkText(l1 + "\n" + (l2 + "\n" + (l3 + "\n" + r3))) == ParseLabelled(l1, l2, l3, r3)
  {
    SplitFirstOf(l1, l2 + "\n" + (l3 + "\n" + r3));
    SplitFirstOf(l2, l3 + "\n" + r3);
    SplitFirstOf(l3, r3);
  }

  lemma ParseLabelledParts(c: CodeChunk)
    ensures var p := Parts(c); ParseLabelled(p[0], p[1], p[2], p[3]) == Some(c)
  {
    var p := Parts(c);
    assert p[1][7..] == IntToDecimal(c.lineStart) + "-" + IntToDecimal(c.lineEnd);
    ParseLineRangeOf(c.lineStart, c.lineEnd);
    assert p[0][10..] == c.functionName;
    assert p[2][10..] == c.comments;
    assert p[3][6..] == c.functionBody;
  }

  lemma ParseLabelledSound(l1: string, l2: string, l3: string, r3: string, c: CodeChunk)
    requires ParseLabelled(l1, l2, l3, r3) == Some(c)
    ensures var p := Parts(c); l1 == p[0] && l2 == p[1] && l3 == p[2] && r3 == p[3]
  {
    assert l1 == Parts(c)[0] by { LabelThenRest("Function: ", l1); }
    assert l3 == Parts(c)[2] by { LabelThenRest("comments: ", l3); }
    assert r3 == Parts(c)[3] by { LabelThenRest("code:\n", r3); }
  }

  /** A text that starts with `tag` is the tag followed by the rest. */
  lemma LabelThenRest(tag: string, l: string)
    requires tag <= l
    ensures l == tag + l[|tag|..]
  {
  }

  /** Round trip: when neither the name nor the comments hold a newline, the
      name, line range, comments and body are read back exactly from the
      rendering. */
  lemma {:induction false} ChunkTextRoundTrip(c: CodeChunk)
    requires '\n' !in c.functionName && '\n' !in c.comments
    ensures ParseChunkText(ChunkToText(c)) == Some(c)
  {
    ChunkToTextNested(c);
    NoNewlineInParts(c);
    var p := Parts(c);
    ParseChunkTextOfLines(p[0], p[1], p[2], p[3]);
    ParseLabelledParts(c);
  }

  /** The other direction: whatever reads back as a chunk is that chunk's
      rendering, and its name and comments hold no newline. */
  lemma ParseChunkTextSound(t: string, c: CodeChunk)
    requires ParseChunkText(t) == Some(c)
    ensures '\n' !in c.functionName && '\n' !in c.comments
    ensures ChunkToText(c) == t
  {
    var (l1, r1) := SplitFirst(t).value;
    var (l2, r2) := SplitFirst(r1).value;
    var (l3, r3) := SplitFirst(r2).value;
    assert ParseLabelled(l1, l2, l3, r3) == Some(c);
    ParseLabelledSound(l1, l2, l3, r3, c);
    forall j | 0 <= j < |c.functionName| ensures c.functionName[j] != '\n' {
      assert c.functionName[j] == l1[10 + j];
    }
    forall j | 0 <= j < |c.comments| ensures c.comments[j] != '\n' {
      assert c.comments[j] == l3[10 + j];
    }
    ChunkToTextNested(c);
  }

  /** Equal chunks render to equal text, and for chunks whose name and
      comments hold no newline the converse holds too: the rendering tells
      every such chunk apart. */
  lemma ChunkToTextInjective(c1: CodeChunk, c2: CodeChunk)
    requires '\n' !in c1.functionName && '\n' !in c1.comments
    requires '\n' !in c2.functionName && '\n' !in c2.comments
    ensures ChunkToText(c1) == ChunkToText(c2) <==> c1 == c2
  {
    ChunkTextRoundTrip(c1);
    ChunkTextRoundTrip(c2);
  }
}
