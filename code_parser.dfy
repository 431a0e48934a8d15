// The function extraction loop of parser/code_parser.py
// (`extract_functions_from_file`). The tree-sitter parse is not modelled: its
// result enters as the sequence of nodes that the walk over the syntax tree
// visits, in visiting order, and the file's text enters as a string.

module CodeParser {
  import opened Text

  /** A tree-sitter point: a 0-based row and a column. */
  datatype Point = Point(row: nat, column: nat)

  /** The parts of a syntax-tree node that the extractor reads: its type and
      its start and end points. */
  datatype Node = Node(kind: string, startPoint: Point, endPoint: Point)

  predicate IsFunctionDefinition(n: Node)
  {
    n.kind == "function_definition"
  }

  /** The function-definition nodes among `nodes`, in visiting order. */
  function FunctionNodes(nodes: seq<Node>): (r: seq<Node>)
    ensures forall i :: 0 <= i < |r| ==> IsFunctionDefinition(r[i])
  {
    if nodes == [] then []
    else
      var last := nodes[|nodes| - 1];
      FunctionNodes(nodes[..|nodes| - 1]) + (if IsFunctionDefinition(last) then [last] else [])
  }

  /** Every function-definition node is kept as often as it is visited, and no
      other node is kept. */
  lemma {:induction false} FunctionNodesCount(nodes: seq<Node>, n: Node)
    ensures multiset(FunctionNodes(nodes))[n] == if IsFunctionDefinition(n) then multiset(nodes)[n] else 0
  {
    if nodes != [] {
      var last := nodes[|nodes| - 1];
      assert nodes == nodes[..|nodes| - 1] + [last];
      FunctionNodesCount(nodes[..|nodes| - 1], n);
    }
  }

  /** One more visited node adds that node to the selection exactly when it is
      a function definition. */
  lemma FunctionNodesStep(nodes: seq<Node>, i: nat)
    requires i < |nodes|
    ensures FunctionNodes(nodes[..i + 1])
         == FunctionNodes(nodes[..i]) + (if IsFunctionDefinition(nodes[i]) then [nodes[i]] else [])
  {
    assert nodes[..i + 1][..i] == nodes[..i];
  }

  /** Selecting function definitions commutes with concatenation, so the
      selection keeps the visiting order of the walk. */
  lemma {:induction false} FunctionNodesAppend(a: seq<Node>, b: seq<Node>)
    ensures FunctionNodes(a + b) == FunctionNodes(a) + FunctionNodes(b)
    decreases |b|
  {
    if b == [] {
      assert a + b == a;
    } else {
      assert (a + b)[..|a + b| - 1] == a + b[..|b| - 1];
      FunctionNodesAppend(a, b[..|b| - 1]);
    }
  }

  /** The text kept for one function node: the lines from its start row to its
      end row, both included, joined by "\n" (the slice
      `lines[start:end+1]`, with Python's clamping). */
  function Entry(lines: seq<string>, n: Node): string
  {
    Join(PySlice(lines, n.startPoint.row, n.endPoint.row + 1), "\n")
  }

  /** The entries of the nodes `fs`, one per node, in order. */
  function Entries(lines: seq<string>, fs: seq<Node>): (r: seq<string>)
    ensures |r| == |fs|
    ensures forall i :: 0 <= i < |fs| ==> r[i] == Entry(lines, fs[i])
  {
    if fs == [] then [] else Entries(lines, fs[..|fs| - 1]) + [Entry(lines, fs[|fs| - 1])]
  }

  lemma EntriesSnoc(lines: seq<string>, fs: seq<Node>, n: Node)
    ensures Entries(lines, fs + [n]) == Entries(lines, fs) + [Entry(lines, n)]
  {
    assert (fs + [n])[..|fs|] == fs;
  }

  /** `extract_functions_from_file` after parsing: one entry per
      function-definition node, in visiting order, each made of the node's
      rows of `code.splitlines()`. */
  method ExtractFunctionsFromFile(code: string, nodes: seq<Node>) returns (functions: seq<string>)
    ensures functions == Entries(SplitLines(code), FunctionNodes(nodes))
  {
    functions := [];
    for i := 0 to |nodes|
      invariant functions == Entries(SplitLines(code), FunctionNodes(nodes[..i]))
    {
      var node := nodes[i];
      FunctionNodesStep(nodes, i);
      if node.kind == "function_definition" {
        var start := node.startPoint.row;
        var end := node.endPoint.row;
        var lines := SplitLines(code);
        EntriesSnoc(lines, FunctionNodes(nodes[..i]), node);
        functions := functions + [Join(PySlice(lines, start, end + 1), "\n")];
      }
    }
    assert nodes[..|nodes|] == nodes;
  }

  /** Only the rows of a node's points matter: the columns are dropped.
      That the entry is then made of whole lines is `EntryLineCount`. */
  lemma EntryIgnoresColumns(lines: seq<string>, n: Node, m: Node)
    requires n.startPoint.row == m.startPoint.row && n.endPoint.row == m.endPoint.row
    ensures Entry(lines, n) == Entry(lines, m)
  {
  }

  /** A node whose rows lie within the file yields exactly its
      `end - start + 1` lines: splitting the entry at "\n" gives those lines
      back, and the entry holds exactly `end - start` newlines. */
  lemma EntryLineCount(code: string, n: Node)
    requires n.startPoint.row <= n.endPoint.row < |SplitLines(code)|
    ensures var lines := SplitLines(code);
      && SplitOn(Entry(lines, n), '\n') == lines[n.startPoint.row..n.endPoint.row + 1]
      && multiset(Entry(lines, n))['\n'] == n.endPoint.row - n.startPoint.row
  {
    EntryOfLines(SplitLines(code), n);
  }

  lemma EntryOfLines(lines: seq<string>, n: Node)
    requires n.startPoint.row <= n.endPoint.row < |lines|
    requires forall i :: 0 <= i < |lines| ==> NoLineBreak(lines[i])
    ensures SplitOn(Entry(lines, n), '\n') == lines[n.startPoint.row..n.endPoint.row + 1]
    ensures multiset(Entry(lines, n))['\n'] == n.endPoint.row - n.startPoint.row
  {
    PySliceWithin(lines, n.startPoint.row, n.endPoint.row + 1);
    JoinLinesSplitOn(lines[n.startPoint.row..n.endPoint.row + 1]);
  }

  /** Python's slice clamping: an end row past the last line keeps only the
      lines that exist, and a start row at or past the line count (or after
      the end row) yields the empty text. */
  lemma EntryClamped(lines: seq<string>, n: Node)
    ensures n.startPoint.row <= n.endPoint.row && n.startPoint.row < |lines| <= n.endPoint.row
            ==> Entry(lines, n) == Join(lines[n.startPoint.row..], "\n")
    ensures n.startPoint.row >= |lines| || n.startPoint.row > n.endPoint.row ==> Entry(lines, n) == ""
  {
    if n.startPoint.row <= n.endPoint.row && n.startPoint.row < |lines| <= n.endPoint.row {
      assert PySlice(lines, n.startPoint.row, n.endPoint.row + 1) == lines[n.startPoint.row..];
    }
  }

  // ---------------------------------------------------------------------------
  // Rows as tree-sitter counts them
  // ---------------------------------------------------------------------------

  /** The rows of `code` as tree-sitter numbers them: a row ends at each '\n'
      and only there (`code.split("\n")`). */
  function Rows(code: string): seq<string>
  {
    SplitOn(code, '\n')
  }

  /** The extraction loop with the rows cut where tree-sitter cuts them, so
      that the row numbers of a node index the right lines. */
  method ExtractFunctionsByRows(code: string, nodes: seq<Node>) returns (functions: seq<string>)
    ensures functions == Entries(Rows(code), FunctionNodes(nodes))
  {
    functions := [];
    for i := 0 to |nodes|
      invariant functions == Entries(Rows(code), FunctionNodes(nodes[..i]))
    {
      var node := nodes[i];
      FunctionNodesStep(nodes, i);
      if node.kind == "function_definition" {
        var start := node.startPoint.row;
        var end := node.endPoint.row;
        var lines := Rows(code);
        EntriesSnoc(lines, FunctionNodes(nodes[..i]), node);
        functions := functions + [Join(PySlice(lines, start, end + 1), "\n")];
      }
    }
    assert nodes[..|nodes|] == nodes;
  }

  /** On a file whose only line break is '\n', both ways of cutting lines
      give the same entry for a node that ends on a line `splitlines` gives
      (the row after a final newline is the only one they differ on). */
  lemma RowsAgreeOnNewlineText(code: string, n: Node)
    requires OnlyNewlineBreaks(code)
    requires n.endPoint.row < |SplitLines(code)|
    ensures Entry(SplitLines(code), n) == Entry(Rows(code), n)
  {
    SplitLinesIsSplitOnNewline(code);
    EntryOfPrefix(SplitLines(code), FinalPiece(code), n);
  }

  lemma EntryOfPrefix(lines: seq<string>, extra: seq<string>, n: Node)
    requires n.endPoint.row < |lines|
    ensures Entry(lines + extra, n) == Entry(lines, n)
  {
    PySlicePrefix(lines, extra, n.startPoint.row, n.endPoint.row + 1);
  }

  /** So on such a file the loop as written and the loop by rows build the
      same list whenever every function node ends on a line of the file. */
  lemma {:induction false} ExtractionsAgreeOnNewlineText(code: string, fs: seq<Node>)
    requires OnlyNewlineBreaks(code)
    requires forall i :: 0 <= i < |fs| ==> fs[i].endPoint.row < |SplitLines(code)|
    ensures Entries(SplitLines(code), fs) == Entries(Rows(code), fs)
  {
    if fs != [] {
      ExtractionsAgreeOnNewlineText(code, fs[..|fs| - 1]);
      RowsAgreeOnNewlineText(code, fs[|fs| - 1]);
    }
  }

  /** The text of the rows before row `s`, with the newline that ends the
      last of them. */
  function Before(rows: seq<string>, s: nat): string
    requires s <= |rows|
  {
    if s == 0 then "" else Join(rows[..s], "\n") + "\n"
  }

  /** The text of the rows after row `e`, with the newline that starts it. */
  function After(rows: seq<string>, e: nat): string
    requires e < |rows|
  {
    if e + 1 == |rows| then "" else "\n" + Join(rows[e + 1..], "\n")
  }

  lemma JoinBefore(rows: seq<string>, s: nat)
    requires s < |rows|
    ensures Join(rows, "\n") == Before(rows, s) + Join(rows[s..], "\n")
  {
    if s > 0 {
      assert Join(rows, "\n") == Join(rows[..s] + rows[s..], "\n") by {
        assert rows == rows[..s] + rows[s..];
      }
      JoinAppend(rows[..s], rows[s..], "\n");
    } else {
      assert rows[s..] == rows;
      assert "" + Join(rows, "\n") == Join(rows, "\n");
    }
  }

  lemma JoinAfter(rows: seq<string>, s: nat, e: nat)
    requires s <= e < |rows|
    ensures Join(rows[s..], "\n") == Join(rows[s..e + 1], "\n") + After(rows, e)
  {
    if e + 1 < |rows| {
      assert rows[s..] == rows[s..e + 1] + rows[e + 1..];
      JoinAppend(rows[s..e + 1], rows[e + 1..], "\n");
    } else {
      assert rows[s..] == rows[s..e + 1];
      assert Join(rows[s..e + 1], "\n") + "" == Join(rows[s..e + 1], "\n");
    }
  }

  lemma BeforeNewlines(rows: seq<string>, s: nat)
    requires s <= |rows|
    requires forall i :: 0 <= i < |rows| ==> '\n' !in rows[i]
    ensures var p := Before(rows, s); multiset(p)['\n'] == s && (p == [] || p[|p| - 1] == '\n')
  {
    if s > 0 {
      CountSeparators(rows[..s], '\n');
      assert "\n" == ['\n'];
    }
  }

  /** With rows cut at '\n', the entry of a node whose rows lie within the file
      is the exact source text of those rows: the code is the entry with the
      text of the earlier rows before it and the text of the later rows after
      it, where the text before holds exactly `start` newlines and ends at a
      row boundary, and the text after begins at one. */
  lemma RowEntryIsSourceText(code: string, n: Node)
    requires n.startPoint.row <= n.endPoint.row < |Rows(code)|
    ensures var rows := Rows(code);
      var p, q := Before(rows, n.startPoint.row), After(rows, n.endPoint.row);
      && code == p + Entry(rows, n) + q
      && multiset(p)['\n'] == n.startPoint.row
      && (p == [] || p[|p| - 1] == '\n')
      && (q == [] || q[0] == '\n')
  {
    var rows := Rows(code);
    var s, e := n.startPoint.row, n.endPoint.row;
    PySliceWithin(rows, s, e + 1);
    assert Entry(rows, n) == Join(rows[s..e + 1], "\n");
    RowsJoin(code);
    var p, q := Before(rows, s), After(rows, e);
    assert code == p + (Entry(rows, n) + q) by {
      JoinBefore(rows, s);
      JoinAfter(rows, s, e);
    }
    AppendAssoc(p, Entry(rows, n), q);
    BeforeNewlines(rows, s);
  }

  /** The rows joined by "\n" are the code again. */
  lemma RowsJoin(code: string)
    ensures Join(Rows(code), "\n") == code
  {
    assert "\n" == ['\n'];
    JoinSplitOn(code, '\n');
  }

  /** As written, the loop indexes `code.splitlines()` with tree-sitter's row
      numbers, but `splitlines` also ends a line at a form feed (and at the
      other breaks of `IsLineBreak`) where tree-sitter does not. In a file
      that starts with a form-feed line, the function on row 1 comes out as
      the empty text; cut at '\n', the same row is the function's source. */
  lemma FormFeedShiftsRows()
    ensures var code := "\U{C}\nint f(void) {}\n";
      var n := Node("function_definition", Point(1, 0), Point(1, 14));
      && Entry(SplitLines(code), n) == ""
      && Entry(Rows(code), n) == "int f(void) {}"
  {
    var fn := "int f(void) {}";
    NoBreakIn(fn);
    assert "\U{C}\nint f(void) {}\n" == "\U{C}\n" + fn + "\n";
    FormFeedLineBefore(fn, Node("function_definition", Point(1, 0), Point(1, 14)));
  }

  /** The same for any one-line function after a form-feed line. */
  lemma FormFeedLineBefore(fn: string, n: Node)
    requires NoLineBreak(fn) && n.startPoint.row == 1 && n.endPoint.row == 1
    ensures var code := "\U{C}\n" + fn + "\n";
      && Entry(SplitLines(code), n) == ""
      && Entry(Rows(code), n) == fn
  {
    FormFeedSplitLines(fn);
    FormFeedRows(fn);
    PySliceWithin(["", "", fn], 1, 2);
    PySliceWithin(["\U{C}", fn, ""], 1, 2);
  }

  lemma FormFeedSplitLines(fn: string)
    requires NoLineBreak(fn)
    ensures SplitLines("\U{C}\n" + fn + "\n") == ["", "", fn]
  {
    assert "\U{C}\n" + fn + "\n" == ['\U{C}'] + (['\n'] + (fn + "\n"));
    SplitLinesOneLine(fn);
    SplitLinesLeadingBreak('\n', fn + "\n");
    SplitLinesLeadingBreak('\U{C}', ['\n'] + (fn + "\n"));
  }

  lemma FormFeedRows(fn: string)
    requires NoLineBreak(fn)
    ensures Rows("\U{C}\n" + fn + "\n") == ["\U{C}", fn, ""]
  {
    NewlineIsLineBreak(fn);
    assert "\U{C}\n" + fn + "\n" == "\U{C}" + ['\n'] + (fn + "\n");
    SplitOnAfter("\U{C}", '\n', fn + "\n");
    RowsOneLine(fn);
  }

  /** A text whose every character is a letter, a space, a parenthesis or a
      brace holds no line break. */
  lemma NoBreakIn(t: string)
    requires forall j :: 0 <= j < |t| ==> t[j] == ' ' || t[j] == '(' || t[j] == ')' || t[j] == '{' || t[j] == '}' || 'a' <= t[j] <= 'z'
    ensures NoLineBreak(t)
  {
  }

  lemma SplitLinesOneLine(t: string)
    requires NoLineBreak(t)
    ensures SplitLines(t + "\n") == [t]
  {
    var s := t + "\n";
    assert s == t + ['\n'] + "";
    FirstLineBreakAfter(t, '\n', "");
    assert s[..|t|] == t;
    assert s[|t| + 1..] == [];
  }

  lemma RowsOneLine(t: string)
    requires '\n' !in t
    ensures SplitOn(t + "\n", '\n') == [t, ""]
  {
    assert t + "\n" == t + ['\n'] + "";
    SplitOnAfter(t, '\n', "");
    assert SplitOn("", '\n') == [""];
  }

  lemma SplitLinesLeadingBreak(c: char, t: string)
    requires IsLineBreak(c) && c != '\r'
    ensures SplitLines([c] + t) == [""] + SplitLines(t)
  {
    var s := [c] + t;
    assert s[..0] == "";
    assert s[1..] == t;
  }

  lemma {:induction false} FirstLineBreakAfter(a: string, c: char, b: string)
    requires NoLineBreak(a) && IsLineBreak(c)
    ensures FirstLineBreak(a + [c] + b) == |a|
  {
    if a != [] {
      assert (a + [c] + b)[1..] == a[1..] + [c] + b;
      FirstLineBreakAfter(a[1..], c, b);
    }
  }
}
