/** What searching a text line by line means, and what reading it through a 1024-byte window makes of it. */
module GrepSpec {
  const BUFSIZE := 1024

  predicate OccursAt(s: seq<char>, line: seq<char>, i: nat) {
    i + |s| <= |line| && line[i..i + |s|] == s
  }

  /** The line is the pattern with `a` before it and `b` behind it. */
  predicate Encloses(line: seq<char>, a: seq<char>, s: seq<char>, b: seq<char>) {
    line == a + s + b
  }

  /** The pattern stands somewhere in the line; an empty pattern is never searched for. */
  ghost predicate Matches(s: seq<char>, line: seq<char>) {
    s != [] && exists a, b :: Encloses(line, a, s, b)
  }

  lemma MatchesWhenEnclosed(s: seq<char>, line: seq<char>)
    ensures Matches(s, line) <==> s != [] && exists a, b :: line == a + s + b
  {
    if Matches(s, line) {
      var a, b :| Encloses(line, a, s, b);
      assert line == a + s + b;
    }
    if a, b :| s != [] && line == a + s + b {
      assert Encloses(line, a, s, b);
    }
  }

  lemma OneByteMatches(line: seq<char>, i: nat)
    requires i < |line|
    ensures Matches([line[i]], line)
  {
    assert Encloses(line, line[..i], [line[i]], line[i + 1..]);
  }

  /** Trying the pattern at every place of the line finds it wherever it stands. */
  lemma MatchesSomewhere(s: seq<char>, line: seq<char>)
    ensures Matches(s, line) <==> s != [] && exists i :: 0 <= i < |line| && OccursAt(s, line, i)
  {
    if Matches(s, line) {
      var a, b :| Encloses(line, a, s, b);
      assert line[|a|..|a| + |s|] == s;
      assert OccursAt(s, line, |a|);
    }
    if i :| 0 <= i < |line| && OccursAt(s, line, i) {
      assert Encloses(line, line[..i], s, line[i + |s|..]);
    }
  }

  ghost function Matching(s: seq<char>, lines: seq<seq<char>>): seq<seq<char>> {
    if lines == [] then []
    else (if Matches(s, lines[0]) then [lines[0]] else []) + Matching(s, lines[1..])
  }

  /** Length of the first line. */
  function LineLength(text: seq<char>): (n: nat)
    ensures n <= |text| && '\n' !in text[..n]
    ensures n < |text| ==> text[n] == '\n'
  {
    if text == [] || text[0] == '\n' then 0 else 1 + LineLength(text[1..])
  }

  /** The lines of a text; an unterminated last line counts if it is not empty. */
  function Lines(text: seq<char>): seq<seq<char>>
    decreases |text|
  {
    if text == [] then []
    else
      var n := LineLength(text);
      if n == |text| then [text] else [text[..n]] + Lines(text[n + 1..])
  }

  /** The lines with a newline behind each. */
  function Joined(lines: seq<seq<char>>): (text: seq<char>) {
    if lines == [] then [] else lines[0] + ['\n'] + Joined(lines[1..])
  }

  lemma JoinedCons(line: seq<char>, more: seq<seq<char>>)
    ensures Joined([line] + more) == line + ['\n'] + Joined(more)
  {
    assert ([line] + more)[1..] == more;
  }

  /** The lines cut into pieces no longer than the window: a piece of exactly 1024 bytes is cut
      before its newline has been seen. */
  function Pieces(text: seq<char>): seq<seq<char>>
    decreases |text|
  {
    if text == [] then []
    else
      var n := LineLength(text);
      if n >= BUFSIZE then [text[..BUFSIZE]] + Pieces(text[BUFSIZE..])
      else if n == |text| then [text]
      else [text[..n]] + Pieces(text[n + 1..])
  }

  /** What the streaming search finds; `stale` says that the byte behind the window started as a
      newline, which ends the line in progress the first time a full window stops inside one. */
  ghost function Streamed(s: seq<char>, text: seq<char>, stale: bool): seq<seq<char>>
    decreases |text|
  {
    if !stale || |text| < BUFSIZE then Matching(s, Pieces(text))
    else
      Matching(s, Pieces(text[..BUFSIZE])) +
      Streamed(s, text[BUFSIZE..], text[BUFSIZE - 1] == '\n')
  }

  /** The output for the found lines of one file. */
  function Report(fname: seq<char>, lines: seq<seq<char>>): seq<char> {
    if lines == [] then []
    else Report(fname, lines[..|lines| - 1]) + (fname + ":" + lines[|lines| - 1] + "\n")
  }

  lemma {:induction false} ReportSplit(fname: seq<char>, a: seq<seq<char>>, b: seq<seq<char>>)
    ensures Report(fname, a + b) == Report(fname, a) + Report(fname, b)
    decreases |b|
  {
    if b == [] {
      assert a + b == a;
    } else {
      ReportSplit(fname, a, b[..|b| - 1]);
      assert (a + b)[..|a + b| - 1] == a + b[..|b| - 1];
    }
  }

  lemma ReportOne(fname: seq<char>, line: seq<char>)
    ensures Report(fname, []) == [] && Report(fname, [line]) == fname + ":" + line + "\n"
  {
    assert [line][..0] == [];
  }

  lemma MatchingOne(s: seq<char>, line: seq<char>)
    ensures Matching(s, []) == []
    ensures Matching(s, [line]) == if s != [] && exists a, b :: line == a + s + b then [line] else []
  {
    MatchesWhenEnclosed(s, line);
    assert [line][1..] == [];
  }

  lemma {:induction false} MatchingSplit(s: seq<char>, a: seq<seq<char>>, b: seq<seq<char>>)
    ensures Matching(s, a + b) == Matching(s, a) + Matching(s, b)
    decreases |a|
  {
    if a == [] {
      assert a + b == b;
    } else {
      var line, more := a[0], a[1..];
      MatchingSplit(s, more, b);
      assert a + b == [line] + (more + b);
      MatchingCons(s, line, more + b);
    }
  }

  lemma {:induction false} LineLengthOf(line: seq<char>, rest: seq<char>)
    requires '\n' !in line
    ensures LineLength(line + rest) == |line| + LineLength(rest)
    decreases |line|
  {
    if line == [] {
      assert line + rest == rest;
    } else {
      LineLengthOf(line[1..], rest);
      assert (line + rest)[1..] == line[1..] + rest;
      assert (line + rest)[0] == line[0];
    }
  }

  /** What one line of a window contributes. */
  ghost function Found(s: seq<char>, line: seq<char>): seq<seq<char>> {
    if Matches(s, line) then [line] else []
  }

  lemma MatchingCons(s: seq<char>, line: seq<char>, more: seq<seq<char>>)
    ensures Matching(s, [line] + more) == Found(s, line) + Matching(s, more)
  {
    assert ([line] + more)[1..] == more;
  }

  lemma WholeLine(s: seq<char>, line: seq<char>, rest: seq<char>)
    requires '\n' !in line && |line| < BUFSIZE
    ensures Matching(s, Pieces(line + ['\n'] + rest)) == Found(s, line) + Matching(s, Pieces(rest))
  {
    var text := line + ['\n'] + rest;
    assert text == line + (['\n'] + rest);
    LineLengthOf(line, ['\n'] + rest);
    assert text[..|line|] == line && text[|line| + 1..] == rest;
    MatchingCons(s, line, Pieces(rest));
  }

  lemma FullPiece(s: seq<char>, piece: seq<char>, rest: seq<char>)
    requires '\n' !in piece && |piece| == BUFSIZE
    ensures Matching(s, Pieces(piece + rest)) == Found(s, piece) + Matching(s, Pieces(rest))
  {
    LineLengthOf(piece, rest);
    assert (piece + rest)[..BUFSIZE] == piece && (piece + rest)[BUFSIZE..] == rest;
    MatchingCons(s, piece, Pieces(rest));
  }

  lemma LastLine(s: seq<char>, line: seq<char>)
    requires '\n' !in line && |line| <= BUFSIZE
    ensures Matching(s, Pieces(line)) == Found(s, line)
  {
    assert line + [] == line;
    LineLengthOf(line, []);
    if line != [] {
      MatchingCons(s, line, []);
      if |line| == BUFSIZE {
        assert line[..BUFSIZE] == line;
      }
    }
  }

  lemma EmptyFirstLine(s: seq<char>, rest: seq<char>)
    ensures Matching(s, Pieces(['\n'] + rest)) == Matching(s, Pieces(rest))
  {
    assert [] + ['\n'] + rest == ['\n'] + rest;
    WholeLine(s, [], rest);
  }

  /** A terminated line that fits the window, with or without its newline. */
  lemma FittingLine(s: seq<char>, line: seq<char>, rest: seq<char>)
    requires '\n' !in line && |line| <= BUFSIZE
    ensures Matching(s, Pieces(line + ['\n'] + rest)) == Found(s, line) + Matching(s, Pieces(rest))
  {
    if |line| < BUFSIZE {
      WholeLine(s, line, rest);
    } else {
      assert line + ['\n'] + rest == line + (['\n'] + rest);
      FullPiece(s, line, ['\n'] + rest);
      EmptyFirstLine(s, rest);
    }
  }

  predicate AllFit(lines: seq<seq<char>>) {
    forall i :: 0 <= i < |lines| ==> |lines[i]| <= BUFSIZE
  }

  lemma FirstLine(s: seq<char>, text: seq<char>)
    requires LineLength(text) < |text|
    ensures var n := LineLength(text);
            && text == text[..n] + ['\n'] + text[n + 1..]
            && Matching(s, Lines(text)) == Found(s, text[..n]) + Matching(s, Lines(text[n + 1..]))
            && (AllFit(Lines(text)) <==> n <= BUFSIZE && AllFit(Lines(text[n + 1..])))
  {
    var n := LineLength(text);
    var more := Lines(text[n + 1..]);
    assert Lines(text) == [text[..n]] + more;
    MatchingCons(s, text[..n], more);
    assert forall i :: 0 <= i < |more| ==> Lines(text)[i + 1] == more[i];
    assert Lines(text)[0] == text[..n];
  }

  lemma OnlyLine(s: seq<char>, text: seq<char>)
    requires LineLength(text) == |text| > 0
    ensures Lines(text) == [text]
    ensures Matching(s, Lines(text)) == Found(s, text)
  {
    MatchingCons(s, text, []);
    assert [text] + [] == [text];
  }

  /** Lines of at most 1024 bytes are found exactly as a search of the whole text finds them. */
  lemma {:induction false} ShortLinesExact(s: seq<char>, text: seq<char>)
    requires AllFit(Lines(text))
    ensures Matching(s, Pieces(text)) == Matching(s, Lines(text))
    decreases |text|
  {
    var n := LineLength(text);
    if text == [] {
    } else if n == |text| {
      OnlyLine(s, text);
      assert |Lines(text)[0]| <= BUFSIZE;
      LastLine(s, text);
    } else {
      FirstLine(s, text);
      ShortLinesExact(s, text[n + 1..]);
      FittingLine(s, text[..n], text[n + 1..]);
    }
  }

  lemma {:induction false} PiecesFit(text: seq<char>)
    ensures AllFit(Pieces(text))
    decreases |text|
  {
    if text == [] {
    } else {
      var n := LineLength(text);
      if n >= BUFSIZE {
        PiecesFit(text[BUFSIZE..]);
      } else if n < |text| {
        PiecesFit(text[n + 1..]);
      }
    }
  }

  lemma {:induction false} FoundFit(s: seq<char>, lines: seq<seq<char>>)
    requires AllFit(lines)
    ensures AllFit(Matching(s, lines))
    decreases |lines|
  {
    if lines == [] {
    } else {
      assert forall i :: 0 <= i < |lines[1..]| ==> lines[1..][i] == lines[i + 1];
      FoundFit(s, lines[1..]);
    }
  }

  /** A line too long for the window is found by its first byte but never printed whole. */
  lemma {:induction false} LongLineFound(text: seq<char>) returns (c: char)
    requires !AllFit(Lines(text))
    ensures c in text && c != '\n'
    ensures !AllFit(Matching([c], Lines(text)))
    decreases |text|
  {
    var n := LineLength(text);
    if n > BUFSIZE {
      c := text[0];
      assert text[..n][0] == c;
      OneByteMatches(text[..n], 0);
      assert n == |text| ==> text[..n] == text;
      if n == |text| {
        OnlyLine([c], text);
      } else {
        FirstLine([c], text);
      }
      assert Matching([c], Lines(text))[0] == text[..n];
    } else if n == |text| {
      OnlyLine([], text);
      assert false;
    } else {
      FirstLine([], text);
      c := LongLineFound(text[n + 1..]);
      FirstLine([c], text);
      var more := Matching([c], Lines(text[n + 1..]));
      var i :| 0 <= i < |more| && |more[i]| > BUFSIZE;
      assert Matching([c], Lines(text))[|Found([c], text[..n])| + i] == more[i];
    }
  }

  /** Every cut that a stale byte makes falls between two lines: the first full window ends with a
      newline, and then the same holds of the rest, or the line it ends is followed by one. */
  predicate CutsCleanly(text: seq<char>)
    decreases |text|
  {
    |text| <= BUFSIZE ||
    if text[BUFSIZE - 1] == '\n' then CutsCleanly(text[BUFSIZE..]) else text[BUFSIZE] == '\n'
  }

  /** The first line of a text that continues behind it. */
  lemma LineOf(line: seq<char>, rest: seq<char>)
    requires '\n' !in line
    ensures Lines(line + ['\n'] + rest) == [line] + Lines(rest)
  {
    var text := line + ['\n'] + rest;
    assert text == line + (['\n'] + rest);
    LineLengthOf(line, ['\n'] + rest);
    assert text[..|line|] == line && text[|line| + 1..] == rest;
  }

  /** The first line is the same whatever more text follows. */
  lemma LineBefore(line: seq<char>, more: seq<char>, b: seq<char>)
    requires '\n' !in line
    ensures Lines(line + ['\n'] + more) == [line] + Lines(more)
    ensures Lines(line + ['\n'] + more + b) == [line] + Lines(more + b)
  {
    assert line + ['\n'] + more + b == line + ['\n'] + (more + b);
    LineOf(line, more);
    LineOf(line, more + b);
  }

  /** A text's first line and what follows it. */
  lemma FirstOf(a: seq<char>) returns (line: seq<char>, more: seq<char>)
    requires LineLength(a) < |a|
    ensures a == line + ['\n'] + more && '\n' !in line
    ensures more != [] ==> more[|more| - 1] == a[|a| - 1]
    ensures more == [] ==> a[|a| - 1] == '\n'
  {
    var n := LineLength(a);
    line, more := a[..n], a[n + 1..];
  }

  /** The lines of a text hold no newline and, with one behind each, make up the text; the last one may
      be unterminated. */
  lemma {:induction false} LinesMakeText(text: seq<char>)
    ensures forall i :: 0 <= i < |Lines(text)| ==> '\n' !in Lines(text)[i]
    ensures Joined(Lines(text)) == if text == [] || text[|text| - 1] == '\n' then text else text + ['\n']
    decreases |text|
  {
    if text == [] {
    } else if LineLength(text) == |text| {
      assert Joined([text]) == text + ['\n'];
    } else {
      var line, more := FirstOf(text);
      LinesMakeText(more);
      LineOf(line, more);
      JoinedCons(line, Lines(more));
    }
  }

  /** What is behind the first line decides how the lines go on. */
  lemma LinesGoOn(line: seq<char>, more: seq<char>, b: seq<char>, lines: seq<seq<char>>)
    requires '\n' !in line && Lines(more + b) == Lines(more) + lines
    ensures Lines(line + ['\n'] + more + b) == Lines(line + ['\n'] + more) + lines
  {
    LineBefore(line, more, b);
  }

  /** Text that follows a newline starts a line of its own. */
  lemma {:induction false} LinesSplit(a: seq<char>, b: seq<char>)
    requires a != [] && a[|a| - 1] == '\n'
    ensures Lines(a + b) == Lines(a) + Lines(b)
    decreases |a|
  {
    var line, more := FirstOf(a);
    if more == [] {
      assert more + b == b;
    } else {
      LinesSplit(more, b);
    }
    LinesGoOn(line, more, b, Lines(b));
  }

  /** A text that does not end with a newline, followed by one. */
  lemma {:induction false} LinesSplitAtBreak(a: seq<char>, rest: seq<char>)
    requires a != [] && a[|a| - 1] != '\n'
    ensures Lines(a + (['\n'] + rest)) == Lines(a) + Lines(rest)
    decreases |a|
  {
    if LineLength(a) == |a| {
      LastLineSplit(a, rest);
    } else {
      var line, more := FirstOf(a);
      LinesSplitAtBreak(more, rest);
      LinesGoOn(line, more, ['\n'] + rest, Lines(rest));
    }
  }

  lemma LastLineSplit(a: seq<char>, rest: seq<char>)
    requires a != [] && LineLength(a) == |a|
    ensures Lines(a + (['\n'] + rest)) == Lines(a) + Lines(rest)
  {
    assert a + (['\n'] + rest) == a + ['\n'] + rest;
    LineOf(a, rest);
  }

  lemma AllFitSplit(a: seq<seq<char>>, b: seq<seq<char>>)
    ensures AllFit(a + b) <==> AllFit(a) && AllFit(b)
  {
    assert forall i :: 0 <= i < |a| ==> (a + b)[i] == a[i];
    assert forall i :: 0 <= i < |b| ==> (a + b)[|a| + i] == b[i];
  }

  /** What two parts of a text contribute when their lines are those of the text. */
  lemma PartsAdd(s: seq<char>, text: seq<char>, a: seq<seq<char>>, b: seq<seq<char>>)
    requires Lines(text) == a + b
    ensures Matching(s, Lines(text)) == Matching(s, a) + Matching(s, b)
    ensures AllFit(Lines(text)) <==> AllFit(a) && AllFit(b)
  {
    MatchingSplit(s, a, b);
    AllFitSplit(a, b);
  }

  /** An empty line matches nothing and always fits. */
  lemma EmptyLine(s: seq<char>, rest: seq<char>)
    ensures Matching(s, Lines(['\n'] + rest)) == Matching(s, Lines(rest))
    ensures AllFit(Lines(['\n'] + rest)) <==> AllFit(Lines(rest))
  {
    assert [] + ['\n'] + rest == ['\n'] + rest;
    LineOf([], rest);
    MatchingCons(s, [], Lines(rest));
    AllFitSplit([[]], Lines(rest));
  }

  /** A cut behind or before a newline splits the lines, up to an empty one. */
  lemma CleanCut(s: seq<char>, a: seq<char>, b: seq<char>)
    requires a != [] && b != [] && (a[|a| - 1] == '\n' || b[0] == '\n')
    ensures Matching(s, Lines(a + b)) == Matching(s, Lines(a)) + Matching(s, Lines(b))
    ensures AllFit(Lines(a + b)) <==> AllFit(Lines(a)) && AllFit(Lines(b))
  {
    if a[|a| - 1] == '\n' {
      LinesSplit(a, b);
      PartsAdd(s, a + b, Lines(a), Lines(b));
    } else {
      assert b == ['\n'] + b[1..];
      LinesSplitAtBreak(a, b[1..]);
      EmptyLine(s, b[1..]);
      PartsAdd(s, a + b, Lines(a), Lines(b[1..]));
    }
  }

  /** Clean cuts find the lines that fit exactly as a search of the whole text does. */
  lemma {:induction false} CleanCutsExact(s: seq<char>, text: seq<char>)
    requires AllFit(Lines(text)) && CutsCleanly(text)
    ensures Streamed(s, text, true) == Matching(s, Lines(text))
    decreases |text|
  {
    if |text| <= BUFSIZE {
      ShortLinesExact(s, text);
      assert |text| == BUFSIZE ==> text[..BUFSIZE] == text;
    } else {
      var a, b := text[..BUFSIZE], text[BUFSIZE..];
      assert text == a + b;
      CleanCut(s, a, b);
      ShortLinesExact(s, a);
      if text[BUFSIZE - 1] == '\n' {
        CleanCutsExact(s, b);
      } else {
        ShortLinesExact(s, b);
      }
    }
  }

  lemma NoPrefix<T>(front: seq<T>, x: seq<T>, y: seq<T>)
    requires !(x <= y)
    ensures !(front + x <= front + y)
  {
    if front + x <= front + y {
      forall i | 0 <= i < |x|
        ensures x[i] == y[i]
      {
        assert (front + x)[|front| + i] == x[i];
        assert (front + y)[|front| + i] == y[i];
      }
      assert false;
    }
  }

  /** The first line found in a text whose first line contains a byte. */
  lemma FirstFound(c: char, text: seq<char>)
    requires c in text[..LineLength(text)]
    ensures Matching([c], Lines(text)) != []
    ensures Matching([c], Lines(text))[0] == text[..LineLength(text)]
  {
    var line := text[..LineLength(text)];
    var i :| 0 <= i < |line| && line[i] == c;
    OneByteMatches(line, i);
    if LineLength(text) == |text| {
      OnlyLine([c], text);
      assert line == text;
    } else {
      FirstLine([c], text);
    }
  }

  /** A line cut in its middle: its front is found in its place, by the byte the window ends with. */
  lemma {:induction false} CutLine(a: seq<char>, b: seq<char>)
    requires a != [] && a[|a| - 1] != '\n' && b != [] && b[0] != '\n'
    ensures var c := a[|a| - 1];
            !(Matching([c], Lines(a)) <= Matching([c], Lines(a + b)))
    decreases |a|
  {
    var c := a[|a| - 1];
    if LineLength(a) == |a| {
      LineLengthOf(a, b);
      assert a[..LineLength(a)] == a;
      assert (a + b)[|a| - 1] == c;
      FirstFound(c, a);
      FirstFound(c, a + b);
    } else {
      var line, more := FirstOf(a);
      LineBefore(line, more, b);
      CutLine(more, b);
      MatchingCons([c], line, Lines(more));
      MatchingCons([c], line, Lines(more + b));
      NoPrefix(Found([c], line), Matching([c], Lines(more)), Matching([c], Lines(more + b)));
    }
  }

  /** An unclean cut shows: some byte of the text is found in a front part of a line. */
  lemma {:induction false} UncleanCutFound(text: seq<char>) returns (c: char)
    requires AllFit(Lines(text)) && !CutsCleanly(text)
    ensures c in text && c != '\n'
    ensures Streamed([c], text, true) != Matching([c], Lines(text))
    decreases |text|
  {
    var a, b := text[..BUFSIZE], text[BUFSIZE..];
    assert text == a + b;
    FrontFits(a, b);
    if text[BUFSIZE - 1] == '\n' {
      CleanCut([], a, b);
      c := UncleanCutFound(b);
      CleanCut([c], a, b);
      ShortLinesExact([c], a);
      assert c in b;
      SameFront(Matching([c], Lines(a)), Streamed([c], b, true), Matching([c], Lines(b)));
    } else {
      c := a[BUFSIZE - 1];
      ShortLinesExact([c], a);
      CutLine(a, b);
      NotPrefix(Matching([c], Lines(a)), Streamed([c], b, false), Matching([c], Lines(text)));
    }
  }

  lemma SameFront<T>(front: seq<T>, x: seq<T>, y: seq<T>)
    requires x != y
    ensures front + x != front + y
  {
    assert (front + x)[|front|..] == x && (front + y)[|front|..] == y;
  }

  lemma NotPrefix<T>(x: seq<T>, more: seq<T>, y: seq<T>)
    requires !(x <= y)
    ensures x + more != y
  {
    assert x <= x + more;
  }

  /** A front part of a text whose lines fit. */
  lemma {:induction false} FrontFits(a: seq<char>, b: seq<char>)
    requires AllFit(Lines(a + b))
    ensures AllFit(Lines(a))
    decreases |a|
  {
    if a == [] {
    } else if LineLength(a) == |a| {
      LineLengthOf(a, b);
      assert |Lines(a + b)[0]| >= |a|;
    } else {
      var line, more := FirstOf(a);
      LineBefore(line, more, b);
      AllFitSplit([line], Lines(more + b));
      AllFitSplit([line], Lines(more));
      FrontFits(more, b);
    }
  }

  lemma {:induction false} StreamedFit(s: seq<char>, text: seq<char>, stale: bool)
    ensures AllFit(Streamed(s, text, stale))
    decreases |text|
  {
    if !stale || |text| < BUFSIZE {
      PiecesFit(text);
      FoundFit(s, Pieces(text));
    } else {
      PiecesFit(text[..BUFSIZE]);
      FoundFit(s, Pieces(text[..BUFSIZE]));
      StreamedFit(s, text[BUFSIZE..], text[BUFSIZE - 1] == '\n');
    }
  }

  /** When the streaming search and the plain one agree on every pattern: no line is longer than the
      window, and a byte behind the window that started as a newline ends no line in its middle. */
  predicate Exact(text: seq<char>, stale: bool) {
    AllFit(Lines(text)) && (stale ==> CutsCleanly(text))
  }

  /** The streaming search agrees with the plain one on every pattern exactly under that condition. */
  lemma {:induction false} StreamingIsExact(text: seq<char>, stale: bool)
    ensures (forall s :: Streamed(s, text, stale) == Matching(s, Lines(text))) <==> Exact(text, stale)
  {
    if Exact(text, stale) {
      forall s
        ensures Streamed(s, text, stale) == Matching(s, Lines(text))
      {
        if stale {
          CleanCutsExact(s, text);
        } else {
          ShortLinesExact(s, text);
        }
      }
    } else if AllFit(Lines(text)) {
      var c := UncleanCutFound(text);
    } else {
      var c := LongLineFound(text);
      StreamedFit([c], text, stale);
      assert Streamed([c], text, stale) != Matching([c], Lines(text));
    }
  }

  function Repeated(c: char, n: nat): (s: seq<char>)
    ensures |s| == n && forall i :: 0 <= i < n ==> s[i] == c
  {
    seq(n, _ => c)
  }

  /** Two lines of 600 bytes: with a stale newline behind the window the second one is cut in its
      middle although both fit. */
  lemma StaleNewlineCuts()
    ensures var line := Repeated('a', 600);
            var text := line + ['\n'] + (line + ['\n']);
            && Lines(text) == [line, line] && AllFit(Lines(text)) && !CutsCleanly(text)
            && Streamed(['a'], text, false) == Matching(['a'], Lines(text))
            && Streamed(['a'], text, true) != Matching(['a'], Lines(text))
  {
    var line := Repeated('a', 600);
    TwoLines(line, line);
    var text := line + ['\n'] + (line + ['\n']);
    assert forall i :: 0 <= i < |text| ==> text[i] == if i == 600 || i == 1201 then '\n' else 'a';
    assert !CutsCleanly(text);
    var c := UncleanCutFound(text);
    assert c == 'a';
    ShortLinesExact(['a'], text);
  }

  lemma TwoLines(line: seq<char>, next: seq<char>)
    requires '\n' !in line && '\n' !in next
    ensures Lines(line + ['\n'] + (next + ['\n'])) == [line, next]
  {
    LineOf(line, next + ['\n']);
    LineOf(next, []);
    assert next + ['\n'] + [] == next + ['\n'];
  }
}
