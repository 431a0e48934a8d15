// The fragments of Python's `str` and `list` behaviour that the parser and the
// chunk renderer rely on: `sep.join(parts)`, `s.split(c)`, `s.splitlines()`,
// `str(i)` for an integer, and slicing with clamped bounds.

module Text {

  datatype Option<T> = None | Some(value: T)

  function Min(a: int, b: int): int { if a <= b then a else b }

  // ---------------------------------------------------------------------------
  // sep.join(parts)
  // ---------------------------------------------------------------------------

  /** The sum of the lengths of `parts`. */
  function TotalLength(parts: seq<string>): nat
  {
    if parts == [] then 0 else |parts[0]| + TotalLength(parts[1..])
  }

  /** Python's `sep.join(parts)`: the parts in order, one `sep` between each
      two neighbours, none before the first or after the last. */
  function Join(parts: seq<string>, sep: string): (r: string)
    ensures |r| == TotalLength(parts) + (if parts == [] then 0 else (|parts| - 1) * |sep|)
  {
    if parts == [] then ""
    else if |parts| == 1 then parts[0]
    else parts[0] + sep + Join(parts[1..], sep)
  }

  /** Joining two non-empty lists is joining each and putting one separator
      between the results. */
  lemma {:induction false} JoinAppend(xs: seq<string>, ys: seq<string>, sep: string)
    requires xs != [] && ys != []
    ensures Join(xs + ys, sep) == Join(xs, sep) + sep + Join(ys, sep)
  {
    if |xs| == 1 {
      assert (xs + ys)[1..] == ys;
    } else {
      assert (xs + ys)[1..] == xs[1..] + ys;
      JoinAppend(xs[1..], ys, sep);
    }
  }

  /** Joining four parts spelled out. */
  lemma JoinFour(a: string, b: string, c: string, d: string, sep: string)
    ensures Join([a, b, c, d], sep) == a + sep + (b + sep + (c + sep + d))
    ensures Join([a, b, c, d], sep) == a + sep + b + sep + c + sep + d
  {
    assert [c, d][1..] == [d];
    assert Join([c, d], sep) == c + sep + d;
    assert [b, c, d][1..] == [c, d];
    assert Join([b, c, d], sep) == b + sep + (c + sep + d);
    assert [a, b, c, d][1..] == [b, c, d];
    assert Join([a, b, c, d], sep) == a + sep + (b + sep + (c + sep + d));
  }

  // ---------------------------------------------------------------------------
  // s.split(c) for a one-character separator
  // ---------------------------------------------------------------------------

  /** The position of the first `c` in `s`, or `|s|` when there is none. */
  function IndexOf(s: string, c: char): (k: nat)
    ensures k <= |s| && c !in s[..k]
    ensures k < |s| ==> s[k] == c
  {
    if s == [] then 0
    else if s[0] == c then 0
    else
      var k := 1 + IndexOf(s[1..], c);
      assert s[..k] == [s[0]] + s[1..][..k - 1];
      k
  }

  /** Python's `s.split(c)`: the maximal `c`-free pieces between the
      occurrences of `c`, empty pieces included; there is always one piece
      more than there are separators. */
  function SplitOn(s: string, c: char): (r: seq<string>)
    ensures |r| == multiset(s)[c] + 1
    ensures forall i :: 0 <= i < |r| ==> c !in r[i]
    decreases |s|
  {
    var k := IndexOf(s, c);
    if k == |s| then
      assert s[..k] == s;
      [s]
    else
      assert s == s[..k] + [c] + s[k + 1..];
      [s[..k]] + SplitOn(s[k + 1..], c)
  }

  /** Splitting and joining back with the same separator gives the text back. */
  lemma {:induction false} JoinSplitOn(s: string, c: char)
    ensures Join(SplitOn(s, c), [c]) == s
    decreases |s|
  {
    var k := IndexOf(s, c);
    if k < |s| {
      var rest := SplitOn(s[k + 1..], c);
      assert SplitOn(s, c) == [s[..k]] + rest;
      JoinSplitOn(s[k + 1..], c);
      JoinAppend([s[..k]], rest, [c]);
      assert s == s[..k] + [c] + s[k + 1..];
    } else {
      assert SplitOn(s, c) == [s];
    }
  }

  /** Joining separator-free pieces and splitting again gives the pieces back. */
  lemma {:induction false} SplitOnJoin(xs: seq<string>, c: char)
    requires xs != []
    requires forall i :: 0 <= i < |xs| ==> c !in xs[i]
    ensures SplitOn(Join(xs, [c]), c) == xs
  {
    var s := Join(xs, [c]);
    if |xs| == 1 {
      assert IndexOf(s, c) == |s| by { IndexOfAbsent(s, c); }
      assert s[..|s|] == s;
    } else {
      var rest := Join(xs[1..], [c]);
      assert s == xs[0] + [c] + rest;
      IndexOfAfter(xs[0], c, rest);
      assert s[..|xs[0]|] == xs[0];
      assert s[|xs[0]| + 1..] == rest;
      SplitOnJoin(xs[1..], c);
      assert xs == [xs[0]] + xs[1..];
    }
  }

  lemma IndexOfAbsent(s: string, c: char)
    requires c !in s
    ensures IndexOf(s, c) == |s|
  {
  }

  lemma {:induction false} IndexOfAfter(a: string, c: char, b: string)
    requires c !in a
    ensures IndexOf(a + [c] + b, c) == |a|
  {
    if a != [] {
      assert (a + [c] + b)[1..] == a[1..] + [c] + b;
      IndexOfAfter(a[1..], c, b);
    }
  }

  /** Splitting text that starts with a separator-free piece and a separator
      yields that piece, then the pieces of the rest. */
  lemma SplitOnAfter(a: string, c: char, b: string)
    requires c !in a
    ensures SplitOn(a + [c] + b, c) == [a] + SplitOn(b, c)
  {
    var s := a + [c] + b;
    IndexOfAfter(a, c, b);
    assert s[..|a|] == a;
    assert s[|a| + 1..] == b;
  }

  /** A join of separator-free pieces holds exactly one separator fewer than
      there are pieces. */
  lemma CountSeparators(xs: seq<string>, c: char)
    requires xs != []
    requires forall i :: 0 <= i < |xs| ==> c !in xs[i]
    ensures multiset(Join(xs, [c]))[c] == |xs| - 1
  {
    SplitOnJoin(xs, c);
  }

  // ---------------------------------------------------------------------------
  // s.splitlines()
  // ---------------------------------------------------------------------------

  /** The characters at which Python's `str.splitlines` ends a line: line feed,
      carriage return, vertical tab, form feed, the file, group and record
      separators, next line, line separator and paragraph separator. */
  predicate IsLineBreak(ch: char)
  {
    || ch == '\n' || ch == '\r' || ch == '\U{B}' || ch == '\U{C}'
    || ch == '\U{1C}' || ch == '\U{1D}' || ch == '\U{1E}'
    || ch == '\U{85}' || ch == '\U{2028}' || ch == '\U{2029}'
  }

  predicate NoLineBreak(t: string)
  {
    forall j :: 0 <= j < |t| ==> !IsLineBreak(t[j])
  }

  /** The only line-break character that occurs in `s`, if any, is '\n'. */
  predicate OnlyNewlineBreaks(s: string)
  {
    forall j :: 0 <= j < |s| && IsLineBreak(s[j]) ==> s[j] == '\n'
  }

  /** The position of the first line-break character of `s`, or `|s|`. */
  function FirstLineBreak(s: string): (k: nat)
    ensures k <= |s| && NoLineBreak(s[..k])
    ensures k < |s| ==> IsLineBreak(s[k])
  {
    if s == [] then 0
    else if IsLineBreak(s[0]) then 0
    else
      var k := 1 + FirstLineBreak(s[1..]);
      assert s[..k] == [s[0]] + s[1..][..k - 1];
      k
  }

  /** Python's `s.splitlines()` (without `keepends`): the text cut at every line
      break, "\r\n" counting as one break; a break that ends the text opens no
      further, empty, line, and the empty text has no lines at all. */
  function SplitLines(s: string): (r: seq<string>)
    ensures forall i :: 0 <= i < |r| ==> NoLineBreak(r[i])
    ensures s != [] <==> r != []
    decreases |s|
  {
    if s == [] then []
    else
      var k := FirstLineBreak(s);
      if k == |s| then
        assert s[..k] == s;
        [s]
      else
        [s[..k]] + SplitLines(s[k + BreakWidth(s, k)..])
  }

  /** The length of the line break at `k`: two for "\r\n", one otherwise. */
  function BreakWidth(s: string, k: nat): nat
    requires k < |s|
  {
    if s[k] == '\r' && k + 1 < |s| && s[k + 1] == '\n' then 2 else 1
  }

  /** The text that ends each line of `SplitLines(s)`: the line break that
      follows it, or "" for a last line that runs to the end of the text. */
  function LineEnds(s: string): seq<string>
    decreases |s|
  {
    if s == [] then []
    else
      var k := FirstLineBreak(s);
      if k == |s| then [""]
      else [s[k..k + BreakWidth(s, k)]] + LineEnds(s[k + BreakWidth(s, k)..])
  }

  /** A line terminator as `splitlines` knows one: "\r\n", or a single
      line-break character. */
  predicate IsTerminator(t: string)
  {
    t == "\r\n" || (|t| == 1 && IsLineBreak(t[0]))
  }

  /** `lines` and `ends` cut `s` into lines the way `splitlines` is documented
      to: `s` is the first line, then its terminator, then the rest cut the
      same way, and the empty text has no lines. */
  predicate LineSplit(s: string, lines: seq<string>, ends: seq<string>)
    decreases |lines|
  {
    && |lines| == |ends|
    && if lines == [] then s == []
       else
         && LineHead(s, lines[0], ends[0], |lines| == 1)
         && LineSplit(s[|lines[0]| + |ends[0]|..], lines[1..], ends[1..])
  }

  /** `s` starts with the line `line` ended by `end`: the line holds no break;
      a "\r" directly followed by "\n" is one terminator; and only a `last`,
      non-empty line may lack a terminator. */
  predicate LineHead(s: string, line: string, end: string, last: bool)
  {
    && NoLineBreak(line)
    && (IsTerminator(end) || (last && end == "" && line != ""))
    && line + end <= s
    && (end != "\r\n" ==> !("\r\n" <= s[|line|..]))
  }

  /** A first line and a `LineSplit` of the rest make a `LineSplit`. */
  lemma {:induction false} LineSplitCons(s: string, line: string, end: string, lines: seq<string>, ends: seq<string>)
    requires LineHead(s, line, end, lines == [])
    requires LineSplit(s[|line| + |end|..], lines, ends)
    ensures LineSplit(s, [line] + lines, [end] + ends)
  {
    assert ([line] + lines)[1..] == lines && ([end] + ends)[1..] == ends;
  }

  /** `SplitLines` cuts every text as `LineSplit` describes. */
  lemma {:induction false} SplitLinesIsLineSplit(s: string)
    ensures LineSplit(s, SplitLines(s), LineEnds(s))
    decreases |s|
  {
    if s != [] {
      if FirstLineBreak(s) == |s| {
        LastLineHead(s);
        assert LineSplit(s[|s| + 0..], [], []);
        LineSplitCons(s, s, "", [], []);
      } else {
        SplitLinesIsLineSplit(s[FirstLineBreak(s) + BreakWidth(s, FirstLineBreak(s))..]);
        LineSplitAtBreak(s, FirstLineBreak(s), BreakWidth(s, FirstLineBreak(s)));
      }
    }
  }

  /** The step of `SplitLinesIsLineSplit` at the first break, at `k`, of
      width `w`. */
  lemma {:induction false} LineSplitAtBreak(s: string, k: nat, w: nat)
    requires k == FirstLineBreak(s) && k < |s| && w == BreakWidth(s, k)
    requires LineSplit(s[k + w..], SplitLines(s[k + w..]), LineEnds(s[k + w..]))
    ensures LineSplit(s, SplitLines(s), LineEnds(s))
  {
    SplitLinesAt(s, k, w);
    BreakHead(s, k, SplitLines(s[k + w..]) == []);
    assert |s[..k]| + |s[k..k + w]| == k + w;
    LineSplitCons(s, s[..k], s[k..k + w], SplitLines(s[k + w..]), LineEnds(s[k + w..]));
  }

  /** A text without a line break is one last line. */
  lemma {:induction false} LastLineHead(s: string)
    requires s != [] && FirstLineBreak(s) == |s|
    ensures SplitLines(s) == [s] && LineEnds(s) == [""]
    ensures LineHead(s, s, "", true)
  {
    assert s[..|s|] == s;
    assert s + "" == s;
  }

  /** The first line and the break after it start the text as `LineHead`
      describes. */
  lemma {:induction false} BreakHead(s: string, k: nat, last: bool)
    requires k == FirstLineBreak(s) && k < |s|
    ensures LineHead(s, s[..k], s[k..k + BreakWidth(s, k)], last)
  {
    assert IsTerminator(s[k..k + BreakWidth(s, k)]) by {
      assert s[k..k + BreakWidth(s, k)] == "\r\n" || s[k..k + BreakWidth(s, k)] == [s[k]];
    }
    assert s[..k] + s[k..k + BreakWidth(s, k)] <= s by {
      assert s[..k] + s[k..k + BreakWidth(s, k)] == s[..k + BreakWidth(s, k)];
    }
    assert s[|s[..k]|..] == s[k..];
  }

  /** `SplitLines` is the only way to cut a text as `LineSplit` describes: any
      lines and terminators that rebuild `s` that way are `SplitLines(s)` and
      `LineEnds(s)`. */
  lemma {:induction false} LineSplitUnique(s: string, lines: seq<string>, ends: seq<string>)
    requires LineSplit(s, lines, ends)
    ensures lines == SplitLines(s) && ends == LineEnds(s)
    decreases |lines|
  {
    if lines != [] {
      LineSplitFirst(s, lines, ends);
      if ends[0] != "" {
        LineSplitUnique(s[|lines[0]| + |ends[0]|..], lines[1..], ends[1..]);
        SplitLinesCons(s, lines, ends, |lines[0]|, |ends[0]|);
      }
    }
  }

  /** Lines and terminators that agree with `SplitLines` on the first line and
      its break, and on the rest of the text, agree on the whole. */
  lemma {:induction false} SplitLinesCons(s: string, lines: seq<string>, ends: seq<string>, k: nat, w: nat)
    requires k == FirstLineBreak(s) && k < |s| && w == BreakWidth(s, k)
    requires lines != [] && ends != []
    requires lines[0] == s[..k] && ends[0] == s[k..k + w]
    requires lines[1..] == SplitLines(s[k + w..]) && ends[1..] == LineEnds(s[k + w..])
    ensures lines == SplitLines(s) && ends == LineEnds(s)
  {
    SplitLinesAt(s, k, w);
    HeadTail(lines);
    HeadTail(ends);
  }

  /** A non-empty sequence is its first element followed by the rest. */
  lemma HeadTail<T>(xs: seq<T>)
    requires xs != []
    ensures xs == [xs[0]] + xs[1..]
  {
  }

  /** `SplitLinesAtBreak` with the first break's position `k` and width `w`
      named. */
  lemma {:induction false} SplitLinesAt(s: string, k: nat, w: nat)
    requires k == FirstLineBreak(s) && k < |s| && w == BreakWidth(s, k)
    ensures SplitLines(s) == [s[..k]] + SplitLines(s[k + w..])
    ensures LineEnds(s) == [s[k..k + w]] + LineEnds(s[k + w..])
  {
    SplitLinesAtBreak(s);
  }

  /** One step of `SplitLines` and `LineEnds` at the first line break. */
  lemma {:induction false} SplitLinesAtBreak(s: string)
    requires FirstLineBreak(s) < |s|
    ensures SplitLines(s)
         == [s[..FirstLineBreak(s)]] + SplitLines(s[FirstLineBreak(s) + BreakWidth(s, FirstLineBreak(s))..])
    ensures LineEnds(s)
         == [s[FirstLineBreak(s)..FirstLineBreak(s) + BreakWidth(s, FirstLineBreak(s))]]
            + LineEnds(s[FirstLineBreak(s) + BreakWidth(s, FirstLineBreak(s))..])
  {
  }

  /** The first line of a `LineSplit` runs up to the first line break, and
      without a terminator it is the whole text. */
  lemma {:induction false} LineSplitFirst(s: string, lines: seq<string>, ends: seq<string>)
    requires lines != [] && LineSplit(s, lines, ends)
    ensures FirstLineBreak(s) == |lines[0]| && s[..|lines[0]|] == lines[0]
    ensures ends[0] == "" ==> lines == [s] && ends == [""] && s != []
    ensures ends[0] != "" ==>
      && |lines[0]| < |s|
      && |ends[0]| == BreakWidth(s, |lines[0]|)
      && ends[0] == s[|lines[0]|..|lines[0]| + BreakWidth(s, |lines[0]|)]
      && LineSplit(s[|lines[0]| + |ends[0]|..], lines[1..], ends[1..])
  {
    assert LineHead(s, lines[0], ends[0], |lines| == 1);
    assert s[..|lines[0]|] == lines[0];
    if ends[0] == "" {
      assert s[|lines[0]| + 0..] == [];
      assert |s| == |lines[0]| && s[..|s|] == s;
      assert lines == [lines[0]] && ends == [ends[0]];
    } else {
      assert s[|lines[0]|] == ends[0][0];
      TerminatorAt(s, |lines[0]|, ends[0]);
    }
    FirstLineBreakAt(s, |lines[0]|);
  }

  /** A terminator found at `m` is the break `SplitLines` takes there. */
  lemma {:induction false} TerminatorAt(s: string, m: nat, t: string)
    requires IsTerminator(t) && m <= |s| && t <= s[m..]
    requires t != "\r\n" ==> !("\r\n" <= s[m..])
    ensures m < |s| && t == s[m..m + BreakWidth(s, m)]
  {
    assert t[0] == s[m];
  }

  /** The first line break of `s` is at `m` when none comes before `m` and
      one (or the end of the text) is at `m`. */
  lemma {:induction false} FirstLineBreakAt(s: string, m: nat)
    requires m <= |s| && NoLineBreak(s[..m])
    requires m < |s| ==> IsLineBreak(s[m])
    ensures FirstLineBreak(s) == m
    decreases m
  {
    if m > 0 {
      assert !IsLineBreak(s[0]) by { assert s[..m][0] == s[0]; }
      assert s[1..][..m - 1] == s[..m][1..];
      FirstLineBreakAt(s[1..], m - 1);
    }
  }

  lemma {:induction false} FirstLineBreakIsIndexOf(s: string)
    requires OnlyNewlineBreaks(s)
    ensures FirstLineBreak(s) == IndexOf(s, '\n')
  {
    if s != [] && !IsLineBreak(s[0]) {
      var t := s[1..];
      assert OnlyNewlineBreaks(t) by {
        forall j | 0 <= j < |t| ensures IsLineBreak(t[j]) ==> t[j] == '\n' {
          assert t[j] == s[j + 1];
        }
      }
      FirstLineBreakIsIndexOf(t);
    }
  }

  /** The piece that `split("\n")` gives after a final newline, and for the
      empty text, and that `splitlines` does not give. */
  function FinalPiece(s: string): seq<string>
  {
    if s == [] || s[|s| - 1] == '\n' then [""] else []
  }

  /** On text whose only line break is '\n', `splitlines` is `split("\n")`
      without the empty piece that `split` leaves after a final newline (or
      makes of the empty text). */
  lemma {:induction false} SplitLinesIsSplitOnNewline(s: string)
    requires OnlyNewlineBreaks(s)
    ensures SplitOn(s, '\n') == SplitLines(s) + FinalPiece(s)
    decreases |s|
  {
    if s != [] {
      FirstLineBreakIsIndexOf(s);
      if IndexOf(s, '\n') < |s| {
        SuffixOnlyNewlineBreaks(s, IndexOf(s, '\n'));
        SplitOnAtFirst(s, IndexOf(s, '\n'));
        SplitLinesAtNewline(s, IndexOf(s, '\n'));
        FinalPieceOfSuffix(s, IndexOf(s, '\n'));
        SplitLinesIsSplitOnNewline(s[IndexOf(s, '\n') + 1..]);
        AppendAssoc([s[..IndexOf(s, '\n')]], SplitLines(s[IndexOf(s, '\n') + 1..]), FinalPiece(s));
      } else {
        assert SplitOn(s, '\n') == [s] == SplitLines(s);
        assert !IsLineBreak(s[..IndexOf(s, '\n')][|s| - 1]);
      }
    }
  }

  lemma SuffixOnlyNewlineBreaks(s: string, k: nat)
    requires OnlyNewlineBreaks(s) && k < |s|
    ensures OnlyNewlineBreaks(s[k + 1..])
  {
    var t := s[k + 1..];
    forall j | 0 <= j < |t| ensures IsLineBreak(t[j]) ==> t[j] == '\n' {
      assert t[j] == s[k + 1 + j];
    }
  }

  lemma SplitOnAtFirst(s: string, k: nat)
    requires k < |s| && k == IndexOf(s, '\n')
    ensures SplitOn(s, '\n') == [s[..k]] + SplitOn(s[k + 1..], '\n')
  {
  }

  lemma SplitLinesAtNewline(s: string, k: nat)
    requires k < |s| && k == FirstLineBreak(s) && s[k] == '\n'
    ensures SplitLines(s) == [s[..k]] + SplitLines(s[k + 1..])
  {
    assert BreakWidth(s, k) == 1;
    SplitLinesAtBreak(s);
  }

  lemma FinalPieceOfSuffix(s: string, k: nat)
    requires k < |s| && s[k] == '\n'
    ensures FinalPiece(s[k + 1..]) == FinalPiece(s)
  {
    if k + 1 < |s| {
      assert s[k + 1..][|s| - k - 2] == s[|s| - 1];
    }
  }

  lemma AppendAssoc<T>(a: seq<T>, b: seq<T>, c: seq<T>)
    ensures a + (b + c) == a + b + c
  {
  }

  /** Every character of a "\n"-join of break-free lines that is a line break
      is a '\n'. */
  lemma {:induction false} JoinLinesOnlyNewlines(xs: seq<string>)
    requires forall i :: 0 <= i < |xs| ==> NoLineBreak(xs[i])
    ensures OnlyNewlineBreaks(Join(xs, "\n"))
  {
    if |xs| > 1 {
      JoinLinesOnlyNewlines(xs[1..]);
      var rest := Join(xs[1..], "\n");
      var s := Join(xs, "\n");
      forall j | 0 <= j < |s| ensures IsLineBreak(s[j]) ==> s[j] == '\n' {
        if j < |xs[0]| {
          assert s[j] == xs[0][j];
        } else if j > |xs[0]| {
          assert s[j] == rest[j - |xs[0]| - 1];
        }
      }
    }
  }

  lemma NewlineIsLineBreak(t: string)
    requires NoLineBreak(t)
    ensures '\n' !in t
  {
  }

  /** Break-free lines joined by "\n" are cut back into the same lines at
      '\n', and the joined text holds one newline fewer than there are lines. */
  lemma JoinLinesSplitOn(xs: seq<string>)
    requires xs != []
    requires forall i :: 0 <= i < |xs| ==> NoLineBreak(xs[i])
    ensures SplitOn(Join(xs, "\n"), '\n') == xs
    ensures multiset(Join(xs, "\n"))['\n'] == |xs| - 1
  {
    forall i | 0 <= i < |xs| ensures '\n' !in xs[i] {
      NewlineIsLineBreak(xs[i]);
    }
    assert "\n" == ['\n'];
    SplitOnJoin(xs, '\n');
    CountSeparators(xs, '\n');
  }

  /** Round trip from lines: joining break-free lines with "\n" and splitting
      the result with `splitlines` gives the lines back, provided the last line
      is not empty (a final empty line is not told apart from a trailing
      newline). */
  lemma SplitLinesJoin(xs: seq<string>)
    requires forall i :: 0 <= i < |xs| ==> NoLineBreak(xs[i])
    requires xs == [] || xs[|xs| - 1] != ""
    ensures SplitLines(Join(xs, "\n")) == xs
  {
    if xs != [] {
      JoinLinesOnlyNewlines(xs);
      JoinLinesSplitOn(xs);
      SplitLinesIsSplitOnNewline(Join(xs, "\n"));
      NoFinalPiece(xs);
      assert SplitLines(Join(xs, "\n")) + [] == SplitLines(Join(xs, "\n"));
    }
  }

  /** A "\n"-join of break-free lines whose last line is not empty does not
      end with a newline. */
  lemma NoFinalPiece(xs: seq<string>)
    requires xs != [] && xs[|xs| - 1] != ""
    requires forall i :: 0 <= i < |xs| ==> NoLineBreak(xs[i])
    ensures FinalPiece(Join(xs, "\n")) == []
  {
    JoinEndsWithLast(xs, "\n");
    assert !IsLineBreak(xs[|xs| - 1][|xs[|xs| - 1]| - 1]);
  }

  lemma {:induction false} JoinEndsWithLast(xs: seq<string>, sep: string)
    requires xs != [] && xs[|xs| - 1] != ""
    ensures var s := Join(xs, sep); s != [] && s[|s| - 1] == xs[|xs| - 1][|xs[|xs| - 1]| - 1]
  {
    if |xs| > 1 {
      JoinEndsWithLast(xs[1..], sep);
    }
  }

  /** Round trip from text: on text whose only line break is '\n', joining the
      lines with "\n" gives the text back, less a final newline. */
  lemma JoinSplitLines(s: string)
    requires OnlyNewlineBreaks(s)
    ensures Join(SplitLines(s), "\n") + (if s != [] && s[|s| - 1] == '\n' then "\n" else "") == s
  {
    var lines := SplitLines(s);
    SplitLinesIsSplitOnNewline(s);
    JoinSplitOn(s, '\n');
    assert "\n" == ['\n'];
    if s == [] {
    } else if s[|s| - 1] == '\n' {
      assert SplitOn(s, '\n') == lines + [""];
      JoinAppend(lines, [""], "\n");
      assert Join([""], "\n") == "";
    } else {
      assert SplitOn(s, '\n') == lines;
    }
  }

  // ---------------------------------------------------------------------------
  // xs[lo:hi]
  // ---------------------------------------------------------------------------

  /** Python's slice `xs[lo:hi]` for non-negative bounds: both bounds are
      clamped to the length, and a slice whose start is not before its end is
      empty. */
  function PySlice<T>(xs: seq<T>, lo: nat, hi: nat): (r: seq<T>)
    ensures |r| == if lo < hi && lo < |xs| then Min(hi, |xs|) - lo else 0
    ensures forall i :: 0 <= i < |r| ==> lo + i < |xs| && r[i] == xs[lo + i]
  {
    var a := Min(lo, |xs|);
    var b := Min(hi, |xs|);
    if a < b then xs[a..b] else []
  }

  /** A slice that ends within `xs` does not see what follows `xs`. */
  lemma PySlicePrefix<T>(xs: seq<T>, ys: seq<T>, lo: nat, hi: nat)
    requires hi <= |xs|
    ensures PySlice(xs + ys, lo, hi) == PySlice(xs, lo, hi)
  {
    if lo < hi {
      assert (xs + ys)[lo..hi] == xs[lo..hi];
    }
  }

  /** Within bounds, the Python slice is the plain subsequence. */
  lemma PySliceWithin<T>(xs: seq<T>, lo: nat, hi: nat)
    requires lo <= hi <= |xs|
    ensures PySlice(xs, lo, hi) == xs[lo..hi]
  {
  }

  // ---------------------------------------------------------------------------
  // str(i)
  // ---------------------------------------------------------------------------

  predicate IsDigit(ch: char) { '0' <= ch <= '9' }

  predicate AllDigits(s: string) { forall j :: 0 <= j < |s| ==> IsDigit(s[j]) }

  function DigitChar(d: nat): (ch: char)
    requires d < 10
    ensures IsDigit(ch)
  {
    ('0' as int + d) as char
  }

  function DigitValue(ch: char): (d: nat)
    requires IsDigit(ch)
    ensures d < 10 && DigitChar(d) == ch
  {
    ch as int - '0' as int
  }

  /** The decimal digits of `n`, most significant first, with no leading zero. */
  function NatToDecimal(n: nat): (r: string)
    ensures r != [] && AllDigits(r)
    ensures r[0] == '0' ==> n == 0
    decreases n
  {
    if n < 10 then [DigitChar(n)]
    else NatToDecimal(n / 10) + [DigitChar(n % 10)]
  }

  /** The number a string of decimal digits denotes. */
  function DecimalValue(s: string): nat
    requires AllDigits(s)
  {
    if s == [] then 0
    else 10 * DecimalValue(s[..|s| - 1]) + DigitValue(s[|s| - 1])
  }

  lemma {:induction false} DecimalRoundTrip(n: nat)
    ensures DecimalValue(NatToDecimal(n)) == n
    decreases n
  {
    if n >= 10 {
      var r := NatToDecimal(n);
      assert r[..|r| - 1] == NatToDecimal(n / 10);
      DecimalRoundTrip(n / 10);
    }
  }

  /** Python's `str(i)` for an `int`: a minus sign for negative values, then
      the decimal digits of the magnitude. CPython's limit on the number of
      digits it converts is not modelled. */
  function IntToDecimal(i: int): (r: string)
    ensures r != [] && (i < 0 <==> r[0] == '-')
    ensures i < 0 ==> |r| >= 2 && AllDigits(r[1..])
    ensures i >= 0 ==> AllDigits(r)
  {
    if i < 0 then "-" + NatToDecimal(-i) else NatToDecimal(i)
  }

  /** Reads an integer in the form `str` writes it: an optional minus sign and
      at least one digit, and nothing else. */
  function ParseInt(s: string): Option<int>
  {
    if s != [] && s[0] == '-' then
      if |s| >= 2 && AllDigits(s[1..]) then Some(0 - DecimalValue(s[1..]) as int) else None
    else if s != [] && AllDigits(s) then Some(DecimalValue(s))
    else None
  }

  /** `str` of an integer reads back as that integer. */
  lemma IntToDecimalRoundTrip(i: int)
    ensures ParseInt(IntToDecimal(i)) == Some(i)
  {
    if i < 0 {
      NegativeRoundTrip(i);
    } else {
      NonNegativeRoundTrip(i);
    }
  }

  lemma NegativeRoundTrip(i: int)
    requires i < 0
    ensures ParseInt(IntToDecimal(i)) == Some(i)
  {
    var d := NatToDecimal(-i);
    assert IntToDecimal(i) == "-" + d;
    ParseIntNegative(d);
    DecimalRoundTrip(-i);
    assert ParseInt("-" + d) == Some(i);
  }

  lemma NonNegativeRoundTrip(i: int)
    requires i >= 0
    ensures ParseInt(IntToDecimal(i)) == Some(i)
  {
    var d := NatToDecimal(i);
    assert IntToDecimal(i) == d;
    ParseIntDigits(d);
    DecimalRoundTrip(i);
  }

  lemma ParseIntDigits(d: string)
    requires d != [] && AllDigits(d)
    ensures ParseInt(d) == Some(DecimalValue(d))
  {
    assert IsDigit(d[0]);
  }

  lemma ParseIntNegative(d: string)
    requires d != [] && AllDigits(d)
    ensures ParseInt("-" + d) == Some(0 - DecimalValue(d))
  {
    assert ("-" + d)[1..] == d;
  }
}
