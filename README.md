# Code chunk rendering and function extraction

This project models the two pieces of logic in the code-search backend's
parser package that can be checked:

- `chunk_to_text` renders a code chunk as the text handed to the embedding
  model. The text is made of four labelled parts joined by single newlines:
  `Function: <name>`, `Lines: <start>-<end>`, `comments: <comments>`, and
  `code:`, a newline and the body.
- The loop of `extract_functions_from_file` walks the syntax tree of a C
  file. For every `function_definition` node it keeps the node's rows of
  `code.splitlines()`, from the start row to the end row, joined by `"\n"`.

Files:

- `text.dfy` (module `Text`) holds the Python operations the two functions
  use. These are `sep.join`, `str.splitlines` with Python's full set of line
  breaks, `str()` of an integer, and slicing with clamped bounds. `SplitOn`,
  a cut at every occurrence of one character like `str.split`, is not called
  by either function. It is the partner of `Join` in round-trip lemmas, and
  `CodeParser.Rows` uses it to give the rows as tree-sitter counts them.
  `SplitLines` also has an independent description, `LineSplit`: the text
  is rebuilt from its lines and their terminators.
- `embed_store.dfy` (module `EmbedStore`) models the renderer as a pure
  function. It also has a reader, `ParseChunkText`, that serves as the
  renderer's inverse.
- `code_parser.dfy` (module `CodeParser`) models the extraction loop as a
  method with a `for` loop. The method is proved against the specification
  function `Entries(SplitLines(code), FunctionNodes(nodes))`.

The tree-sitter parse is not modelled. Its result enters as the sequence of
nodes that the walk over the tree visits, in visiting order. Each node
carries its type and its start and end points (row, column). The file's text
enters as a string. Opening the file in text mode turns `"\r\n"` and `"\r"`
into `"\n"`, so the text never holds `'\r'`. Other line breaks that
`splitlines` knows, such as form feed, survive.

## Model

| member | source | states |
|---|---|---|
| EmbedStore.ChunkToTextLayout | parser/embed_store.py:11-17 | the rendering is exactly the four labelled parts, in order, with one "\n" between each two |
| EmbedStore.ChunkToTextStartsWithName | parser/embed_store.py:12-17 | the rendering starts with "Function: " followed by the function name |
| EmbedStore.ChunkToTextEndsWithBody | parser/embed_store.py:15-17 | the rendering ends with "code:\n" followed by the body, verbatim |
| EmbedStore.ChunkToTextLinesPart | parser/embed_store.py:13 | when the name holds no newline, the second line is "Lines: ", the decimal start, "-" and the decimal end |
| EmbedStore.ChunkToTextLength | parser/embed_store.py:11-17 | the length is the sum of the part lengths plus 3 separators; equally, the field lengths plus 37 label characters |
| EmbedStore.NoNewlineInParts | parser/embed_store.py:12-14 | the line-range part never holds a newline; the name and comments parts hold one only if their field does |
| EmbedStore.ParseLineRangeOf | parser/embed_store.py:13 | the rendered "<start>-<end>" reads back as the two integers, negative ones included |
| EmbedStore.ChunkTextRoundTrip | parser/embed_store.py:9-17 | when the name and comments hold no newline, reading the rendering back gives the chunk |
| EmbedStore.ParseChunkTextSound | parser/embed_store.py:9-17 | any text that reads back as a chunk is that chunk's rendering, and that chunk's name and comments hold no newline |
| EmbedStore.ChunkToTextInjective | parser/embed_store.py:9-17 | two chunks whose name and comments hold no newline render to equal text if and only if they are equal |
| Text.IntToDecimalRoundTrip | parser/embed_store.py:13 | `str()` of any integer, negative ones included, reads back as that integer |
| Text.Join | parser/embed_store.py:17 | the length of a join is the total length of the parts plus one separator between each two |
| Text.JoinSplitOn | parser/code_parser.py:24 | joining the pieces of a split with the same one-character separator gives the text back |
| Text.SplitOnJoin | parser/code_parser.py:24 | splitting a join of separator-free pieces gives the pieces back |
| Text.SplitLines | parser/code_parser.py:23 | no line holds a line break, and there are no lines exactly when the text is empty |
| Text.SplitLinesIsLineSplit | parser/code_parser.py:23 | for every text, the lines with their terminators rebuild the text. Each terminator is "\r\n" or one break character, and "\r" directly before "\n" is never a terminator alone. Only a last, non-empty line may lack one |
| Text.LineSplitUnique | parser/code_parser.py:23 | any lines and terminators that cut a text that way are exactly `SplitLines` and its terminators, so a final break adds no empty line |
| Text.SplitLinesJoin | parser/code_parser.py:23-24 | splitting a "\n"-join of break-free lines whose last line is not empty gives the lines back |
| Text.JoinSplitLines | parser/code_parser.py:23-24 | on text whose only break is '\n', joining its lines with "\n" gives the text back, less a final newline |
| Text.SplitLinesIsSplitOnNewline | parser/code_parser.py:23 | on such text, the lines are `split("\n")` without the empty piece after a final newline |
| Text.PySlice | parser/code_parser.py:24 | the slice has the clamped length, and each element is the source element at the same offset from the start |
| CodeParser.ExtractFunctionsFromFile | parser/code_parser.py:17-25 | the list built is one entry per function-definition node, in visiting order, each the node's rows of `splitlines` joined by "\n" |
| CodeParser.FunctionNodes | parser/code_parser.py:19-20 | every node kept is a function definition |
| CodeParser.FunctionNodesCount | parser/code_parser.py:19-20 | every function-definition node is kept as often as it is visited, and no other node is kept |
| CodeParser.FunctionNodesAppend | parser/code_parser.py:17-25 | selection commutes with concatenation, so the entries keep the walk's order |
| CodeParser.EntryIgnoresColumns | parser/code_parser.py:21-22 | two nodes with the same rows give the same entry, whatever their columns |
| CodeParser.EntryLineCount | parser/code_parser.py:23-24 | for rows within the file, the entry splits at "\n" into exactly lines start..end and holds exactly end - start newlines |
| CodeParser.EntryClamped | parser/code_parser.py:24 | an end row past the last line keeps only the existing lines; a start row at or past the line count, or after the end row, gives "" |
| CodeParser.FormFeedShiftsRows | parser/code_parser.py:21-24 | for "\f\nint f(void) {}\n" with a function on row 1, the loop as written yields "" while the row holds the function |
| CodeParser.ExtractFunctionsByRows | parser/code_parser.py:17-25 | the corrected loop: one entry per function-definition node, in order, each the node's rows cut at '\n' as tree-sitter counts them |
| CodeParser.RowEntryIsSourceText | parser/code_parser.py:21-24 | with rows cut at '\n', the code is the text before, the entry and the text after; the text before holds exactly `start` newlines and ends at a row boundary |
| CodeParser.RowsAgreeOnNewlineText | parser/code_parser.py:23-24 | on text whose only break is '\n', both ways of cutting give the same entry for a node ending on a line of the file |
| CodeParser.ExtractionsAgreeOnNewlineText | parser/code_parser.py:19-24 | on such text, the loop as written and the corrected loop build the same list when every node ends on a line of the file |

## Left out

- `generate_embedding` and the sentence-transformer model (parser/embed_store.py:7, 19-25) are left out. They are a foreign machine-learning model that produces floating-point vectors.
- The tree-sitter language and parser setup and the parse call (parser/code_parser.py:1-11, 16) are left out as a foreign library. The nodes the walk visits are an input sequence.
- The walk's visiting order is taken as given, and so is the behaviour of `walk()` itself. The loop treats `walk()` as a sequence of nodes, and the model does the same.
- The `language` parameter is left out. It only selects the tree-sitter grammar.
- Reading the file, including its `errors='ignore'` decoding (parser/code_parser.py:13-14), is left out as I/O. The text is an input string.
- The `__main__` demo blocks are left out as I/O and printing. So are the Streamlit frontend and the FastAPI backend, which are web plumbing with no logic.
- `CodeChunk` and `SimpleCppParser` are imported from parser/code_parser.py, where they are not defined, and `parse_directory` is called on a `SimpleCppParser` (parser/embed_store.py:29). None of them is part of this model. `CodeChunk` is modelled only by the five fields the renderer reads.
- Brace matching, signature scanning, comment normalisation, directory walking, record ids, embedding batching and vector-store writes are not implemented in the source. They are not modelled.
- CodeParser.ExtractFunctionsFromFile: the source recomputes `code.splitlines()` for every function node. The model does the same, and it always gives the same value.
- The line numbers of a chunk are Python integers of any size and sign. The model uses `int` and renders them as Python's `str()` does.
- Text.IntToDecimal: never fails. CPython refuses to convert an integer of more than 4300 digits and raises `ValueError` at parser/embed_store.py:13, which this model does not capture; no line number comes near that size.

## Findings

| source | as written | input that shows it | evidently intended | confidence | as-written member | corrected member |
|---|---|---|---|---|---|---|
| parser/code_parser.py:21-24 | tree-sitter's row numbers, which count only '\n', index the list from `code.splitlines()`, which also breaks lines at form feed, vertical tab, \x1c-\x1e, \x85, U+2028 and U+2029 | the file "\f\nint f(void) {}\n" with a function node on row 1 | the entry is the source text of the node's rows | medium, not executed | CodeParser.FormFeedShiftsRows | CodeParser.ExtractFunctionsByRows |

CodeParser.FormFeedShiftsRows describes that input. The loop as written
(CodeParser.ExtractFunctionsFromFile) yields the empty text for it, while
row 1 of the file is `int f(void) {}`.

The corrected loop, CodeParser.ExtractFunctionsByRows, cuts the text at '\n'.
CodeParser.RowEntryIsSourceText proves that each of its entries is exactly
the source text of the node's rows. CodeParser.ExtractionsAgreeOnNewlineText
proves that the two loops agree on files whose only line break is '\n'.
