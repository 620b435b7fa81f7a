/** The streaming search of `grep`: one window of 1024 bytes, with the line in progress carried to
    its front before the next read. */
module Grep {
  import opened GrepSpec
  import FileSystem
  import opened Machine
  import opened Options

  predicate NulFree(text: seq<char>) {
    NUL !in text
  }

  /** One `read` of a regular file: as many bytes as fit and are left. */
  method Read(data: array<char>, at: nat, n: nat, file: seq<char>, pos: nat) returns (cnt: nat)
    requires at + n <= data.Length && pos <= |file|
    modifies data
    ensures cnt == FileSystem.ReadCount(|file|, pos, n)
    ensures data[..] == old(data[..at]) + file[pos..pos + cnt] + old(data[at + cnt..])
  {
    cnt := FileSystem.ReadCount(|file|, pos, n);
    var i := 0;
    while i < cnt
      invariant 0 <= i <= cnt
      invariant forall k :: 0 <= k < data.Length ==>
                              data[k] == if at <= k < at + i then file[pos + (k - at)] else old(data[k])
    {
      data[at + i] := file[pos + i];
      i := i + 1;
    }
    assert data[..] == old(data[..at]) + file[pos..pos + cnt] + old(data[at + cnt..]);
  }

  /** `ece391_strcpy` within the window: moves a string down over itself. */
  method Strcpy(data: array<char>, src: nat, ghost end: nat)
    requires 0 < src <= end < data.Length
    requires data[end] == NUL && NulFree(data[src..end])
    modifies data
    ensures data[..] == old(data[src..end + 1]) + old(data[end + 1 - src..])
  {
    var i := 0;
    while data[src + i] != NUL
      invariant 0 <= i <= end - src
      invariant forall k :: 0 <= k < data.Length ==>
                              data[k] == if k < i then old(data[src + k]) else old(data[k])
      invariant forall k :: src <= k < end ==> old(data[k]) != NUL
      decreases end - src - i
    {
      data[i] := data[src + i];
      i := i + 1;
    }
    data[i] := NUL;
    DownBy(data[..], old(data[..]), src, end + 1 - src);
  }

  /** The `n` items from `src` on, moved to the front. */
  lemma DownBy<T>(now: seq<T>, was: seq<T>, src: nat, n: nat)
    requires src + n <= |was| == |now|
    requires forall k :: 0 <= k < n ==> now[k] == was[src + k]
    requires forall k :: n <= k < |now| ==> now[k] == was[k]
    ensures now == was[src..src + n] + was[n..]
  {
  }

  /** `ece391_strncmp` of the window at `at` with the first `|s|` bytes of the pattern. */
  method Strncmp(data: array<char>, at: nat, s: seq<char>, ghost end: nat) returns (r: int)
    requires at <= end < data.Length && data[end] == NUL
    requires NulFree(data[at..end]) && NulFree(s)
    ensures r == 0 <==> OccursAt(s, data[at..end], 0)
  {
    if |s| == 0 {
      return 0;
    }
    ghost var line := data[at..end];
    var i := 0;
    while data[at + i] == s[i]
      invariant 0 <= i < |s| && i <= |line| && line[..i] == s[..i]
      decreases |s| - i
    {
      assert s[i] in s && i < |line| && line[i] == s[i];
      assert line[..i + 1] == line[..i] + [line[i]] == s[..i + 1];
      if i + 1 == |s| {
        assert s[..|s|] == s && line[0..0 + |s|] == line[..|s|];
        return 0;
      }
      i := i + 1;
    }
    assert data[at + i] == if i < |line| then line[i] else NUL;
    r := data[at + i] as int - s[i] as int;
  }

  /** Whether the pattern occurs in the line `data[from..to]`, which ends in NUL. */
  method SearchLine(data: array<char>, from: nat, to: nat, s: seq<char>) returns (found: bool)
    requires from <= to < data.Length && data[to] == NUL
    requires NulFree(data[from..to]) && NulFree(s)
    ensures found <==> s != [] && exists a, b :: data[from..to] == a + s + b
  {
    MatchesSomewhere(s, data[from..to]);
    MatchesWhenEnclosed(s, data[from..to]);
    var check := from;
    while check < to
      invariant from <= check <= to
      invariant forall i :: 0 <= i < check - from ==> s == [] || !OccursAt(s, data[from..to], i)
    {
      ghost var line := data[from..to];
      ghost var i := check - from;
      assert data[check..to] == line[i..];
      assert OccursAt(s, line[i..], 0) <==> OccursAt(s, line, i);
      if |s| > 0 && s[0] == data[check] {
        var r := Strncmp(data, check, s, to);
        if r == 0 {
          return true;
        }
      }
      check := check + 1;
    }
    return false;
  }

  /** `ece391_strlen`, as `ece391_fdputs` needs it to write a line. */
  method Strlen(data: array<char>, at: nat, ghost end: nat) returns (len: nat)
    requires at <= end < data.Length && data[end] == NUL && NulFree(data[at..end])
    ensures len == end - at
  {
    len := 0;
    while data[at + len] != NUL
      invariant len <= end - at
      decreases end - at - len
    {
      assert data[at + len] == data[at..end + 1][len];
      len := len + 1;
    }
  }

  /** What the rest of a window still contributes; `cut` when the window ends its last line. */
  ghost function Due(s: seq<char>, window: seq<char>, rest: seq<char>, cut: bool): seq<seq<char>> {
    if cut then Matching(s, Pieces(window)) else Matching(s, Pieces(window + rest))
  }

  lemma DueLine(s: seq<char>, line: seq<char>, window: seq<char>, rest: seq<char>, cut: bool)
    requires '\n' !in line && |line| < BUFSIZE
    ensures Due(s, line + ['\n'] + window, rest, cut) == Found(s, line) + Due(s, window, rest, cut)
  {
    if cut {
      WholeLine(s, line, window);
    } else {
      assert line + ['\n'] + window + rest == line + ['\n'] + (window + rest);
      WholeLine(s, line, window + rest);
    }
  }

  lemma DueLast(s: seq<char>, line: seq<char>, rest: seq<char>, cut: bool)
    requires '\n' !in line && |line| <= BUFSIZE
    requires cut || rest == [] || |line| == BUFSIZE
    ensures Due(s, line, rest, cut) == Found(s, line) + Due(s, [], rest, cut)
  {
    LastLine(s, line);
    assert [] + rest == rest;
    if !cut {
      if rest == [] {
        assert line + rest == line;
      } else {
        FullPiece(s, line, rest);
      }
    }
  }

  /** The end of the line that starts at `from`. */
  method LineEnd(data: array<char>, from: nat, last: nat) returns (e: nat)
    requires from <= last < data.Length
    ensures from <= e <= last && '\n' !in data[from..e]
    ensures e < last ==> data[e] == '\n'
  {
    e := from;
    while e < last && data[e] != '\n'
      invariant from <= e <= last
      invariant '\n' !in data[from..e]
    {
      e := e + 1;
    }
  }

  /** Ends the line with a NUL and prints it if the pattern occurs in it. */
  method FinishLine(s: seq<char>, fname: seq<char>, data: array<char>, from: nat, to: nat, ghost line: seq<char>)
    returns (out: seq<char>)
    requires from <= to < data.Length && data[from..to] == line
    requires NulFree(line) && NulFree(s)
    modifies data
    ensures forall k :: 0 <= k < data.Length && k != to ==> data[k] == old(data[k])
    ensures data[to] == NUL
    ensures out == Report(fname, Found(s, line))
  {
    data[to] := NUL;
    assert data[from..to] == line;
    out := [];
    MatchesWhenEnclosed(s, line);
    var hit := SearchLine(data, from, to, s);
    if hit {
      var len := Strlen(data, from, to);
      out := fname + ":" + data[from..from + len] + "\n";
      ReportOne(fname, line);
    }
  }

  /** Handling the line `window[from..to]` moves its share of what is due to what is found. */
  lemma DueStep(s: seq<char>, window: seq<char>, from: nat, to: nat, rest: seq<char>, cut: bool)
    requires from <= to <= |window| <= BUFSIZE && '\n' !in window[from..to]
    requires to < |window| ==> window[to] == '\n'
    requires to == |window| ==> cut || rest == [] || to - from == BUFSIZE
    ensures var next := if to < |window| then to + 1 else to;
            Found(s, window[from..to]) + Due(s, window[next..], rest, cut) == Due(s, window[from..], rest, cut)
  {
    var line := window[from..to];
    if to < |window| {
      assert window[from..] == line + ['\n'] + window[to + 1..];
      DueLine(s, line, window[to + 1..], rest, cut);
    } else {
      assert window[from..] == line && window[to..] == [];
      DueLast(s, line, rest, cut);
    }
  }

  /** Carries the line in progress to the front of the window. */
  method Carry(data: array<char>, from: nat, last: nat, ghost line: seq<char>)
    requires 0 < from <= last < data.Length
    requires data[from..last] == line && NulFree(line)
    modifies data
    ensures data[..last - from] == line
    ensures forall k :: last < k < data.Length ==> data[k] == old(data[k])
    ensures data[last] == NUL
  {
    data[last] := NUL;
    assert data[from..last] == line;
    ghost var was := data[..];
    Strcpy(data, from, last);
    assert data[..last - from] == line;
    assert data[last] == was[last];
  }

  lemma Regroup<T>(a: seq<T>, b: seq<T>, c: seq<T>)
    ensures (a + b) + c == a + (b + c)
  {
  }

  /** A window that ends inside a line leaves everything due that was due. */
  method CarryRest(s: seq<char>, data: array<char>, from: nat, last: nat,
                   ghost window: seq<char>, ghost rest: seq<char>, ghost cut: bool)
    returns (left: nat)
    requires data.Length == BUFSIZE + 1 && 0 < from <= last == |window| <= BUFSIZE
    requires forall k :: from <= k < last ==> data[k] == window[k]
    requires NulFree(window)
    modifies data
    ensures left == last - from && NulFree(data[..left])
    ensures [] + Due(s, data[..left], rest, cut) == Due(s, window[from..], rest, cut)
    ensures data[BUFSIZE] == if last == BUFSIZE then NUL else old(data[BUFSIZE])
  {
    ghost var line := window[from..];
    assert data[from..last] == line;
    Carry(data, from, last, line);
    left := last - from;
    assert data[..left] == line;
  }

  /** The line `window[from..to]` is searched and moves from what is due to what is found; behind it is
      the next line or the end of the window. */
  method EndLine(s: seq<char>, fname: seq<char>, data: array<char>, from: nat, to: nat,
                 ghost window: seq<char>, ghost rest: seq<char>, ghost cut: bool)
    returns (out: seq<char>, ghost found: seq<seq<char>>)
    requires data.Length == BUFSIZE + 1 && from <= to <= |window| <= BUFSIZE && NulFree(s) && NulFree(window)
    requires forall k :: from <= k < |window| ==> data[k] == window[k]
    requires '\n' !in window[from..to] && (to < |window| ==> window[to] == '\n')
    requires to == |window| ==> cut || rest == [] || to - from == BUFSIZE
    requires cut <==> |window| == BUFSIZE && data[BUFSIZE] == '\n'
    requires from == |window| ==> |window| == 0
    modifies data
    ensures out == Report(fname, found)
    ensures to + 1 < |window| ==>
              && data[BUFSIZE] == old(data[BUFSIZE]) && (forall k :: to < k < |window| ==> data[k] == window[k])
              && found + Due(s, window[to + 1..], rest, cut) == Due(s, window[from..], rest, cut)
    ensures to + 1 >= |window| ==> found + Due(s, [], rest, cut) == Due(s, window[from..], rest, cut)
    ensures to + 1 >= |window| && cut ==> (data[BUFSIZE] == '\n' <==> window[BUFSIZE - 1] == '\n')
    ensures old(data[BUFSIZE]) != '\n' ==> data[BUFSIZE] != '\n'
  {
    ghost var line := window[from..to];
    assert data[from..to] == line;
    assert from < to ==> window[to - 1] == line[to - 1 - from];
    DueStep(s, window, from, to, rest, cut);
    assert to + 1 >= |window| ==> window[if to < |window| then to + 1 else to..] == [];
    found := Found(s, line);
    out := FinishLine(s, fname, data, from, to, line);
  }

  /** One turn of the inner loop: the line that starts at `from` is searched and the next one starts
      at `next`, or the window is `done` with and its unfinished line has been carried to the front. */
  method NextLine(s: seq<char>, fname: seq<char>, data: array<char>, from: nat, last: nat, cnt: nat,
                  ghost window: seq<char>, ghost rest: seq<char>, ghost cut: bool)
    returns (out: seq<char>, done: bool, next: nat, left: nat, ghost found: seq<seq<char>>)
    requires data.Length == BUFSIZE + 1 && from <= last == |window| <= BUFSIZE
    requires forall k :: from <= k < last ==> data[k] == window[k]
    requires from == last ==> last == 0
    requires NulFree(s) && NulFree(window)
    requires rest != [] ==> last == BUFSIZE && cnt > 0
    requires cut <==> last == BUFSIZE && data[BUFSIZE] == '\n'
    modifies data
    ensures out == Report(fname, found)
    ensures !done ==>
              && from < next < last && data[BUFSIZE] == old(data[BUFSIZE])
              && (forall k :: next <= k < last ==> data[k] == window[k])
              && found + Due(s, window[next..], rest, cut) == Due(s, window[from..], rest, cut)
    ensures done ==>
              && left < BUFSIZE && NulFree(data[..left]) && (cnt == 0 || cut ==> left == 0)
              && found + Due(s, data[..left], rest, cut) == Due(s, window[from..], rest, cut)
              && (cut ==> (data[BUFSIZE] == '\n' <==> window[BUFSIZE - 1] == '\n'))
              && (old(data[BUFSIZE]) != '\n' ==> data[BUFSIZE] != '\n')
  {
    out, done, next, left, found := [], true, from, 0, [];
    var lineEnd := LineEnd(data, from, last);
    assert data[from..lineEnd] == window[from..lineEnd];
    if data[lineEnd] != '\n' && cnt != 0 && from != 0 {
      assert lineEnd == last && !cut;
      left := CarryRest(s, data, from, last, window, rest, cut);
      return;
    }
    out, found := EndLine(s, fname, data, from, lineEnd, window, rest, cut);
    next := lineEnd + 1;
    done := next >= last;
    assert data[..0] == [];
  }

  /** One pass over the window: searches its lines and carries the line in progress to the front.
      `cnt` is what the last read brought and `rest` what is still unread. */
  method ScanWindow(s: seq<char>, fname: seq<char>, data: array<char>, last: nat, cnt: nat, ghost rest: seq<char>)
    returns (out: seq<char>, left: nat, ghost found: seq<seq<char>>)
    requires data.Length == BUFSIZE + 1 && last <= BUFSIZE
    requires NulFree(s) && NulFree(data[..last])
    requires rest != [] ==> last == BUFSIZE && cnt > 0
    modifies data
    ensures out == Report(fname, found)
    ensures left < BUFSIZE && NulFree(data[..left]) && (cnt == 0 ==> left == 0)
    ensures var cut := old(data[BUFSIZE]) == '\n' && last == BUFSIZE;
            && found + Due(s, data[..left], rest, cut) == Due(s, old(data[..last]), rest, cut)
            && (cut ==> left == 0 && (data[BUFSIZE] == '\n' <==> old(data[BUFSIZE - 1]) == '\n'))
    ensures old(data[BUFSIZE]) != '\n' ==> data[BUFSIZE] != '\n'
  {
    ghost var window := data[..last];
    ghost var cut := data[BUFSIZE] == '\n' && last == BUFSIZE;
    out, left, found := [], 0, [];
    var lineStart := 0;
    assert window[0..] == window && [] + Due(s, window, rest, cut) == Due(s, window, rest, cut);
    while true
      invariant 0 <= lineStart <= last && (lineStart < last || lineStart == 0)
      invariant forall k :: lineStart <= k < last ==> data[k] == window[k]
      invariant data[BUFSIZE] == old(data[BUFSIZE])
      invariant out == Report(fname, found)
      invariant found + Due(s, window[lineStart..], rest, cut) == Due(s, window, rest, cut)
      decreases last - lineStart
    {
      var printed, done, next, carried, more :=
        NextLine(s, fname, data, lineStart, last, cnt, window, rest, cut);
      ReportSplit(fname, found, more);
      Regroup(found, more, Due(s, if done then data[..carried] else window[next..], rest, cut));
      out := out + printed;
      found := found + more;
      if done {
        left := carried;
        return;
      }
      lineStart := next;
    }
  }

  /** What is still to be found before a read, with `held` carried in the window. */
  ghost function Pending(s: seq<char>, held: seq<char>, rest: seq<char>, stale: bool): seq<seq<char>> {
    if stale && rest != [] then Streamed(s, rest, true) else Matching(s, Pieces(held + rest))
  }

  /** What is still to be found after a read. */
  ghost function Outstanding(s: seq<char>, window: seq<char>, rest: seq<char>, stale: bool): seq<seq<char>> {
    if stale && |window| == BUFSIZE
    then Due(s, window, rest, true) + Streamed(s, rest, window[BUFSIZE - 1] == '\n')
    else Due(s, window, rest, false)
  }

  lemma Refill(s: seq<char>, held: seq<char>, unread: seq<char>, cnt: nat, stale: bool)
    requires |held| < BUFSIZE && (stale && unread != [] ==> held == [])
    requires cnt == if BUFSIZE - |held| <= |unread| then BUFSIZE - |held| else |unread|
    ensures Outstanding(s, held + unread[..cnt], unread[cnt..], stale) == Pending(s, held, unread, stale)
  {
    var window := held + unread[..cnt];
    assert window + unread[cnt..] == held + unread;
    if stale && unread != [] {
      assert window == unread[..cnt] && held + unread == unread;
    }
  }

  lemma Progress(s: seq<char>, window: seq<char>, left: seq<char>, rest: seq<char>, stale: bool, stale': bool,
                 found: seq<seq<char>>, more: seq<seq<char>>)
    requires rest != [] ==> |window| == BUFSIZE
    requires var cut := stale && |window| == BUFSIZE;
             && more + Due(s, left, rest, cut) == Due(s, window, rest, cut)
             && (cut ==> left == [] && (stale' <==> window[BUFSIZE - 1] == '\n'))
    requires !stale ==> !stale'
    ensures stale' && rest != [] ==> left == []
    ensures found + more + Pending(s, left, rest, stale') == found + Outstanding(s, window, rest, stale)
  {
    var cut := stale && |window| == BUFSIZE;
    if cut {
      assert [] + rest == rest;
      assert Due(s, left, rest, true) == [];
      assert Pending(s, left, rest, stale') == Streamed(s, rest, stale');
      assert found + more + Streamed(s, rest, stale') == found + (more + Streamed(s, rest, stale'));
    } else {
      assert found + more + Due(s, left, rest, false) == found + (more + Due(s, left, rest, false));
    }
  }

  /** One turn of the outer loop: fills the window and searches it. */
  method ReadAndScan(s: seq<char>, fname: seq<char>, data: array<char>, last: nat, text: seq<char>, pos: nat)
    returns (out: seq<char>, left: nat, cnt: nat, ghost found: seq<seq<char>>)
    requires data.Length == BUFSIZE + 1 && last < BUFSIZE && pos <= |text|
    requires NulFree(s) && NulFree(text) && NulFree(data[..last])
    requires data[BUFSIZE] == '\n' && text[pos..] != [] ==> last == 0
    modifies data
    ensures out == Report(fname, found)
    ensures left < BUFSIZE && NulFree(data[..left]) && cnt <= |text| - pos
    ensures cnt == 0 ==> pos == |text| && left == 0
    ensures data[BUFSIZE] == '\n' && text[pos + cnt..] != [] ==> left == 0
    ensures found + Pending(s, data[..left], text[pos + cnt..], data[BUFSIZE] == '\n') ==
            Pending(s, old(data[..last]), text[pos..], old(data[BUFSIZE]) == '\n')
  {
    ghost var stale := data[BUFSIZE] == '\n';
    ghost var held := data[..last];
    cnt := Read(data, last, BUFSIZE - last, text, pos);
    Refill(s, held, text[pos..], cnt, stale);
    ghost var window, rest := data[..last + cnt], text[pos + cnt..];
    assert window == held + text[pos..][..cnt] && rest == text[pos..][cnt..];
    assert (data[BUFSIZE] == '\n') == stale;
    out, left, found := ScanWindow(s, fname, data, last + cnt, cnt, rest);
    Progress(s, window, data[..left], rest, stale, data[BUFSIZE] == '\n', [], found);
    assert [] + found == found && [] + Outstanding(s, window, rest, stale) == Outstanding(s, window, rest, stale);
  }

  /** `do_one_file`: `data` is the window on the stack, holding whatever it holds. */
  method DoOneFile(s: seq<char>, fname: seq<char>, file: Option<seq<char>>, data: array<char>)
    returns (status: int, out: seq<char>)
    requires data.Length == 1024 + 1
    requires NulFree(s) && (file.Some? ==> NulFree(file.value))
    modifies data
    ensures file.None? ==> status == -1 && out == "file open failed\n"
    ensures file.Some? ==> status == 0
    ensures file.Some? ==> out == Report(fname, Streamed(s, file.value, old(data[BUFSIZE]) == '\n'))
    ensures file.Some? && Exact(file.value, old(data[BUFSIZE]) == '\n') ==>
              out == Report(fname, Matching(s, Lines(file.value)))
  {
    if file.None? {
      return -1, "file open failed\n";
    }
    var text := file.value;
    StreamingIsExact(text, data[BUFSIZE] == '\n');
    out := SearchText(s, fname, text, data);
    status := 0;
  }

  /** The reading loop of `do_one_file`. */
  method SearchText(s: seq<char>, fname: seq<char>, text: seq<char>, data: array<char>) returns (out: seq<char>)
    requires data.Length == BUFSIZE + 1 && NulFree(s) && NulFree(text)
    modifies data
    ensures out == Report(fname, Streamed(s, text, old(data[BUFSIZE]) == '\n'))
  {
    ghost var found: seq<seq<char>> := [];
    ghost var goal := Streamed(s, text, data[BUFSIZE] == '\n');
    var pos, last := 0, 0;
    out := [];
    assert data[..0] + text == text && text[0..] == text;
    ghost var due := goal;
    assert [] + due == due;
    while true
      invariant 0 <= pos <= |text| && 0 <= last < BUFSIZE
      invariant NulFree(data[..last])
      invariant data[BUFSIZE] == '\n' && text[pos..] != [] ==> data[..last] == []
      invariant out == Report(fname, found)
      invariant due == Pending(s, data[..last], text[pos..], data[BUFSIZE] == '\n')
      invariant found + due == goal
      decreases |text| - pos
    {
      var printed, left, cnt, more := ReadAndScan(s, fname, data, last, text, pos);
      ReportSplit(fname, found, more);
      due := Pending(s, data[..left], text[pos + cnt..], data[BUFSIZE] == '\n');
      Regroup(found, more, due);
      pos := pos + cnt;
      last := left;
      out := out + printed;
      found := found + more;
      if cnt == 0 {
        assert data[..last] + text[pos..] == [];
        break;
      }
    }
    assert found + [] == found;
  }
}
