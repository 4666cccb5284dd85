/**
  Text chunking, `IngestionService.simple_chunk`: a window of `chunkSize`
  characters slides over the text; a window that does not reach the end of the
  text is cut just after its last `.` when that period lies beyond 80% of the
  window; each window is stripped of surrounding whitespace, the next one starts
  `overlap` characters before the current one ended, and empty chunks are
  dropped at the end.

  `last_period > chunk_size * 0.8` is the integer test `5 * lastPeriod > 4 * chunkSize`.
*/
module Ingestion {
  import opened Common

  /** Python's `str.isspace`, the characters `str.strip()` removes. */
  predicate IsSpace(c: char) {
    || c == ' '
    || ('\t' <= c <= '\r')                 // \t \n \x0b \x0c \r
    || ('\U{1C}' <= c <= '\U{1F}')
    || c == '\U{85}' || c == '\U{A0}' || c == '\U{1680}'
    || ('\U{2000}' <= c <= '\U{200A}')
    || c == '\U{2028}' || c == '\U{2029}' || c == '\U{202F}' || c == '\U{205F}' || c == '\U{3000}'
  }

  /** The number of whitespace characters `s` starts with. */
  function LeadingSpaces(s: string): (n: nat)
    ensures n <= |s|
    ensures forall k :: 0 <= k < n ==> IsSpace(s[k])
    ensures n < |s| ==> !IsSpace(s[n])
  {
    if s == [] || !IsSpace(s[0]) then 0 else 1 + LeadingSpaces(s[1..])
  }

  /** The number of whitespace characters `s` ends with. */
  function TrailingSpaces(s: string): (n: nat)
    ensures n <= |s|
    ensures forall k :: |s| - n <= k < |s| ==> IsSpace(s[k])
    ensures n < |s| ==> !IsSpace(s[|s| - n - 1])
  {
    if s == [] || !IsSpace(s[|s| - 1]) then 0 else 1 + TrailingSpaces(s[..|s| - 1])
  }

  /** `str.strip()`: the part of `s` between its leading and trailing whitespace. */
  function Strip(s: string): (r: string)
    ensures exists i, j :: 0 <= i <= j <= |s| && r == s[i..j]
    ensures r != [] ==> !IsSpace(r[0]) && !IsSpace(r[|r| - 1])
    ensures r == [] <==> forall k :: 0 <= k < |s| ==> IsSpace(s[k])
  {
    var i := LeadingSpaces(s);
    var t := s[i..];
    var n := TrailingSpaces(t);
    var r := s[i..|s| - n];
    assert r == t[..|t| - n];
    r
  }

  /**
    Stripping cuts off only whitespace: what is dropped before and after the
    part kept is whitespace, and the part kept neither starts nor ends with it.
  */
  lemma StripTrims(s: string)
    ensures exists i, j :: 0 <= i <= j <= |s| && Strip(s) == s[i..j] &&
              (forall k :: 0 <= k < i ==> IsSpace(s[k])) && (forall k :: j <= k < |s| ==> IsSpace(s[k]))
  {
    var i := LeadingSpaces(s);
    var t := s[i..];
    var j := |s| - TrailingSpaces(t);
    assert Strip(s) == s[i..j];
    forall k | j <= k < |s| ensures IsSpace(s[k]) {
      assert s[k] == t[k - i];
    }
    assert forall k :: 0 <= k < i ==> IsSpace(s[k]);
    assert 0 <= i <= j <= |s|;
  }

  /** `s.rfind(c)`: the index of the last `c` in `s`, or -1. */
  function LastIndexOf(s: string, c: char): (r: int)
    ensures -1 <= r < |s|
    ensures r >= 0 ==> s[r] == c
  {
    if s == [] then -1
    else if s[|s| - 1] == c then |s| - 1
    else LastIndexOf(s[..|s| - 1], c)
  }

  /** No `c` follows the index `rfind` returns. */
  lemma {:induction false} LastIndexOfIsLast(s: string, c: char)
    ensures forall k :: LastIndexOf(s, c) < k < |s| ==> s[k] != c
  {
    if s != [] && s[|s| - 1] != c {
      LastIndexOfIsLast(s[..|s| - 1], c);
    }
  }

  /** Arguments for which the loop is known to advance: the window is non-empty and the overlap at most 80% of it. */
  predicate Advancing(chunkSize: int, overlap: int) {
    chunkSize > 0 && 5 * overlap <= 4 * chunkSize
  }

  /**
    `text[start:end].rfind('.')`, searched by index from `end` down, without
    building the slice.
  */
  function LastPeriod(text: string, start: nat, end: nat): (r: int)
    requires start <= end <= |text|
    ensures -1 <= r < end - start
    ensures r >= 0 ==> text[start + r] == '.'
    decreases end - start
  {
    if end == start then -1
    else if text[end - 1] == '.' then end - 1 - start
    else LastPeriod(text, start, end - 1)
  }

  /** The index search agrees with `rfind` on the slice. */
  lemma {:induction false} LastPeriodIsRfind(text: string, start: nat, end: nat)
    requires start <= end <= |text|
    ensures LastPeriod(text, start, end) == LastIndexOf(text[start..end], '.')
    decreases end - start
  {
    if end > start && text[end - 1] != '.' {
      LastPeriodIsRfind(text, start, end - 1);
      assert text[start..end][..end - start - 1] == text[start..end - 1];
    }
  }

  /** Where a window starting at `start` ends (`end`, possibly beyond the text). */
  function WindowStop(text: string, chunkSize: int, start: nat): (stop: int)
    requires chunkSize > 0 && start < |text|
  {
    var end := start + chunkSize;
    if end < |text| then
      var lastPeriod := LastPeriod(text, start, end);
      if 5 * lastPeriod > 4 * chunkSize then start + lastPeriod + 1 else end
    else end
  }

  /** One iteration of the loop: `text[start:stop]` before clamping. */
  datatype Window = Window(start: nat, stop: int)

  /** The windows the loop visits from `start` on. */
  function Windows(text: string, chunkSize: int, overlap: int, start: nat): seq<Window>
    requires Advancing(chunkSize, overlap)
    decreases |text| - start
  {
    if start >= |text| then []
    else
      var stop := WindowStop(text, chunkSize, start);
      assert stop - overlap > start;
      [Window(start, stop)] + Windows(text, chunkSize, overlap, stop - overlap)
  }

  /** One unfolding of `Windows` inside the text. */
  lemma WindowsStep(text: string, chunkSize: int, overlap: int, start: nat)
    requires Advancing(chunkSize, overlap) && start < |text|
    ensures var stop := WindowStop(text, chunkSize, start);
      && stop - overlap > start
      && Windows(text, chunkSize, overlap, start) == [Window(start, stop)] + Windows(text, chunkSize, overlap, stop - overlap)
  {
  }

  /** A window that starts inside the text and ends after it starts. */
  predicate Proper(text: string, w: Window) {
    w.start < |text| && w.start < w.stop
  }

  /** Every window of `ws` is proper. */
  predicate AllProper(text: string, ws: seq<Window>) {
    forall i :: 0 <= i < |ws| ==> Proper(text, ws[i])
  }

  /** The text a window covers, with Python's clamping of the slice end. */
  function Covered(text: string, w: Window): string
    requires Proper(text, w)
  {
    text[w.start..Min(w.stop, |text|)]
  }

  /** Every window starts inside the text and ends after it starts. */
  lemma {:induction false} WindowsProper(text: string, chunkSize: int, overlap: int, start: nat)
    requires Advancing(chunkSize, overlap)
    ensures AllProper(text, Windows(text, chunkSize, overlap, start))
    decreases |text| - start
  {
    if start < |text| {
      var stop := WindowStop(text, chunkSize, start);
      var ws := Windows(text, chunkSize, overlap, start);
      var rest := Windows(text, chunkSize, overlap, stop - overlap);
      WindowsProper(text, chunkSize, overlap, stop - overlap);
      assert ws == [Window(start, stop)] + rest;
      forall i | 0 <= i < |ws| ensures Proper(text, ws[i]) {
        if i > 0 {
          assert ws[i] == rest[i - 1];
        }
      }
    }
  }

  /** The stripped windows, before empty ones are dropped. */
  function Pieces(text: string, ws: seq<Window>): (ps: seq<string>)
    requires AllProper(text, ws)
    ensures |ps| == |ws|
  {
    if ws == [] then []
    else
      Pieces(text, ws[..|ws| - 1]) + [Strip(Covered(text, ws[|ws| - 1]))]
  }

  /** Appending a proper window appends its stripped text. */
  lemma PiecesSnoc(text: string, ws: seq<Window>, w: Window)
    requires AllProper(text, ws) && Proper(text, w)
    ensures AllProper(text, ws + [w])
    ensures Pieces(text, ws + [w]) == Pieces(text, ws) + [Strip(Covered(text, w))]
  {
    assert (ws + [w])[..|ws|] == ws;
  }

  /** Piece `i` is window `i`, stripped. */
  lemma {:induction false} PiecesAt(text: string, ws: seq<Window>, i: nat)
    requires AllProper(text, ws)
    requires i < |ws|
    ensures Pieces(text, ws)[i] == Strip(Covered(text, ws[i]))
  {
    if i < |ws| - 1 {
      PiecesAt(text, ws[..|ws| - 1], i);
    }
  }

  /** `[c for c in chunks if c]`. */
  function NonEmpty(ps: seq<string>): seq<string>
  {
    if ps == [] then []
    else NonEmpty(ps[..|ps| - 1]) + (if ps[|ps| - 1] != [] then [ps[|ps| - 1]] else [])
  }

  /** The filter keeps exactly the non-empty pieces. */
  lemma {:induction false} NonEmptyFacts(ps: seq<string>)
    ensures forall c :: c in NonEmpty(ps) <==> c != [] && c in ps
  {
    if ps != [] {
      NonEmptyFacts(ps[..|ps| - 1]);
      assert ps == ps[..|ps| - 1] + [ps[|ps| - 1]];
    }
  }

  /** What `simple_chunk` returns. */
  function Chunks(text: string, chunkSize: int, overlap: int): seq<string>
    requires Advancing(chunkSize, overlap)
  {
    var ws := Windows(text, chunkSize, overlap, 0);
    WindowsProper(text, chunkSize, overlap, 0);
    NonEmpty(Pieces(text, ws))
  }

  /** `simple_chunk`, loop for loop. */
  method SimpleChunk(text: string, chunkSize: int, overlap: int) returns (chunks: seq<string>)
    requires Advancing(chunkSize, overlap)
    ensures chunks == Chunks(text, chunkSize, overlap)
  {
    var pieces: seq<string> := [];
    ghost var done: seq<Window> := [];
    var start: nat := 0;
    while start < |text|
      invariant ChunkLoop(text, chunkSize, overlap, start, done, pieces)
      decreases |text| - start
    {
      start, done, pieces := ChunkRound(text, chunkSize, overlap, start, done, pieces);
    }
    ChunkLoopExit(text, chunkSize, overlap, start, done, pieces);
    chunks := DropEmpty(pieces);
  }

  /**
    One round of the loop: the next window, its stripped text appended, and the
    next start `end - overlap`, which lies beyond the current one.
  */
  method ChunkRound(text: string, chunkSize: int, overlap: int, start: nat, ghost done: seq<Window>, pieces: seq<string>)
    returns (next: nat, ghost done': seq<Window>, pieces': seq<string>)
    requires Advancing(chunkSize, overlap) && start < |text|
    requires ChunkLoop(text, chunkSize, overlap, start, done, pieces)
    ensures next > start && ChunkLoop(text, chunkSize, overlap, next, done', pieces')
  {
    var end, chunk := NextWindow(text, chunkSize, start);
    ChunkLoopStep(text, chunkSize, overlap, start, done, pieces, end, chunk);
    done' := done + [Window(start, end)];
    pieces' := pieces + [Strip(chunk)];
    next := end - overlap;
  }

  /**
    The loop's state at `start`: `done` are the windows visited so far, the ones
    still to come complete them to the windows from 0, and `pieces` holds each
    visited window's text, stripped.
  */
  ghost predicate ChunkLoop(text: string, chunkSize: int, overlap: int, start: nat, done: seq<Window>, pieces: seq<string>)
    requires Advancing(chunkSize, overlap)
  {
    && Windows(text, chunkSize, overlap, 0) == done + Windows(text, chunkSize, overlap, start)
    && AllProper(text, done)
    && pieces == Pieces(text, done)
  }

  /** One round of the loop keeps its state. */
  lemma ChunkLoopStep(text: string, chunkSize: int, overlap: int, start: nat, done: seq<Window>, pieces: seq<string>,
                      stop: int, chunk: string)
    requires Advancing(chunkSize, overlap) && start < |text|
    requires ChunkLoop(text, chunkSize, overlap, start, done, pieces)
    requires stop == WindowStop(text, chunkSize, start) && start < stop && chunk == text[start..Min(stop, |text|)]
    ensures stop - overlap > start
    ensures ChunkLoop(text, chunkSize, overlap, stop - overlap, done + [Window(start, stop)], pieces + [Strip(chunk)])
  {
    var w, next := Window(start, stop), stop - overlap;
    WindowsStep(text, chunkSize, overlap, start);
    var later := Windows(text, chunkSize, overlap, next);
    AppendAssoc(done, [w], later);
    PiecesSnoc(text, done, w);
    ChunkLoopIntro(text, chunkSize, overlap, next, done + [w], pieces + [Strip(chunk)]);
  }

  /** The loop's state, from its three parts. */
  lemma ChunkLoopIntro(text: string, chunkSize: int, overlap: int, start: nat, done: seq<Window>, pieces: seq<string>)
    requires Advancing(chunkSize, overlap)
    requires Windows(text, chunkSize, overlap, 0) == done + Windows(text, chunkSize, overlap, start)
    requires AllProper(text, done) && pieces == Pieces(text, done)
    ensures ChunkLoop(text, chunkSize, overlap, start, done, pieces)
  {
  }

  /** When the loop ends it has visited every window, and `pieces` is their stripped text. */
  lemma ChunkLoopExit(text: string, chunkSize: int, overlap: int, start: nat, done: seq<Window>, pieces: seq<string>)
    requires Advancing(chunkSize, overlap) && start >= |text|
    requires ChunkLoop(text, chunkSize, overlap, start, done, pieces)
    ensures done == Windows(text, chunkSize, overlap, 0) && pieces == Pieces(text, done)
  {
    assert done + [] == done;
  }

  /** The body of the loop up to the append: where the window ends, and the text it covers. */
  method NextWindow(text: string, chunkSize: int, start: nat) returns (end: int, chunk: string)
    requires chunkSize > 0 && start < |text|
    ensures end == WindowStop(text, chunkSize, start)
    ensures 5 * (end - start) > 4 * chunkSize
    ensures start < end && chunk == text[start..Min(end, |text|)]
  {
    end := start + chunkSize;
    chunk := text[start..Min(end, |text|)];
    if end < |text| {
      var lastPeriod := LastIndexOf(chunk, '.');
      LastPeriodIsRfind(text, start, end);
      if 5 * lastPeriod > 4 * chunkSize {
        end := start + lastPeriod + 1;
        chunk := text[start..end];
      }
    }
  }

  /** `[c for c in chunks if c]`. */
  method DropEmpty(pieces: seq<string>) returns (chunks: seq<string>)
    ensures chunks == NonEmpty(pieces)
  {
    chunks := [];
    var i := 0;
    while i < |pieces|
      invariant 0 <= i <= |pieces|
      invariant chunks == NonEmpty(pieces[..i])
    {
      assert pieces[..i + 1][..i] == pieces[..i];
      if pieces[i] != [] {
        chunks := chunks + [pieces[i]];
      }
      i := i + 1;
    }
    assert pieces[..i] == pieces;
  }

  /**
    Empty text gives no chunks; every chunk is non-empty and is the stripped slice
    `text[s:e]` of some `0 <= s < e <= len(text)`.
  */
  lemma ChunksSpec(text: string, chunkSize: int, overlap: int)
    requires Advancing(chunkSize, overlap)
    ensures text == [] ==> Chunks(text, chunkSize, overlap) == []
    ensures forall c :: c in Chunks(text, chunkSize, overlap) ==>
              c != [] && exists s, e :: 0 <= s < e <= |text| && c == Strip(text[s..e])
  {
    var ws := Windows(text, chunkSize, overlap, 0);
    WindowsProper(text, chunkSize, overlap, 0);
    var ps := Pieces(text, ws);
    NonEmptyFacts(ps);
    forall c | c in Chunks(text, chunkSize, overlap)
      ensures exists s, e :: 0 <= s < e <= |text| && c == Strip(text[s..e])
    {
      var i :| 0 <= i < |ps| && ps[i] == c;
      PiecesAt(text, ws, i);
      var w := ws[i];
      assert w in ws;
      assert c == Strip(text[w.start..Min(w.stop, |text|)]);
    }
  }

  /**
    The window rule: a window is at most `chunkSize` long, and exactly that long
    when it reaches the end of the text; a shorter one ends just after a `.` lying
    beyond 80% of the window, with no `.` after it in the window; and when such a
    period exists in a window that does not reach the end, the window is cut
    just after the last one.
  */
  lemma {:induction false} WindowRule(text: string, chunkSize: int, overlap: int, start: nat, w: Window)
    requires Advancing(chunkSize, overlap)
    requires w in Windows(text, chunkSize, overlap, start)
    ensures w.start < w.stop <= w.start + chunkSize
    ensures w.start + chunkSize >= |text| ==> w.stop == w.start + chunkSize
    ensures w.stop < w.start + chunkSize ==>
              && w.stop <= |text| && text[w.stop - 1] == '.' && 5 * (w.stop - 1 - w.start) > 4 * chunkSize
              && forall p :: w.stop <= p < w.start + chunkSize ==> text[p] != '.'
    ensures w.start + chunkSize < |text| &&
            (exists p :: w.start <= p < w.start + chunkSize && text[p] == '.' && 5 * (p - w.start) > 4 * chunkSize) ==>
              && text[w.stop - 1] == '.'
              && forall p :: w.stop <= p < w.start + chunkSize ==> text[p] != '.'
    decreases |text| - start
  {
    var stop := WindowStop(text, chunkSize, start);
    WindowsStep(text, chunkSize, overlap, start);
    if w != Window(start, stop) {
      WindowRule(text, chunkSize, overlap, stop - overlap, w);
    } else {
      FirstWindowRule(text, chunkSize, start);
    }
  }

  /** The window rule for the window starting at `start`. */
  lemma FirstWindowRule(text: string, chunkSize: int, start: nat)
    requires chunkSize > 0 && start < |text|
    ensures var stop := WindowStop(text, chunkSize, start);
      && start < stop <= start + chunkSize
      && (start + chunkSize >= |text| ==> stop == start + chunkSize)
      && (stop < start + chunkSize ==>
            && stop <= |text| && text[stop - 1] == '.' && 5 * (stop - 1 - start) > 4 * chunkSize
            && forall p :: stop <= p < start + chunkSize ==> text[p] != '.')
      && (start + chunkSize < |text| &&
          (exists p :: start <= p < start + chunkSize && text[p] == '.' && 5 * (p - start) > 4 * chunkSize) ==>
            && text[stop - 1] == '.'
            && forall p :: stop <= p < start + chunkSize ==> text[p] != '.')
  {
    if start + chunkSize < |text| {
      LastPeriodIsLast(text, start, start + chunkSize);
    }
  }

  /** No `.` follows the one `LastPeriod` finds. */
  lemma {:induction false} LastPeriodIsLast(text: string, start: nat, end: nat)
    requires start <= end <= |text|
    ensures forall p :: start + LastPeriod(text, start, end) < p < end ==> text[p] != '.'
    decreases end - start
  {
    if end > start && text[end - 1] != '.' {
      LastPeriodIsLast(text, start, end - 1);
    }
  }

  /**
    Consecutive windows overlap by `overlap`: each starts `overlap` before the
    previous one ended, also after a window that already reached the end of the
    text. The loop advances by more than `(4 * chunkSize - 5 * overlap) / 5`
    each time (more than 600 characters for the defaults 1000 and 200), and the
    last window ends at least `overlap` past the end of the text.
  */
  lemma {:induction false} WindowChain(text: string, chunkSize: int, overlap: int, start: nat)
    requires Advancing(chunkSize, overlap)
    ensures var ws := Windows(text, chunkSize, overlap, start);
      && (start < |text| ==> |ws| > 0 && ws[0].start == start)
      && (forall i :: 0 <= i < |ws| - 1 ==> ws[i + 1].start == ws[i].stop - overlap)
      && (forall i :: 0 <= i < |ws| - 1 ==> 5 * (ws[i + 1].start - ws[i].start) > 4 * chunkSize - 5 * overlap)
      && (ws != [] ==> ws[|ws| - 1].stop - overlap >= |text|)
    decreases |text| - start
  {
    if start < |text| {
      var stop := WindowStop(text, chunkSize, start);
      WindowsStep(text, chunkSize, overlap, start);
      WindowChain(text, chunkSize, overlap, stop - overlap);
      FirstWindowRule(text, chunkSize, start);
      ChainCons(text, chunkSize, overlap, Window(start, stop), Windows(text, chunkSize, overlap, stop - overlap));
    }
  }

  /** The chain facts of `WindowChain` carry over to one more window in front. */
  lemma ChainCons(text: string, chunkSize: int, overlap: int, w: Window, rest: seq<Window>)
    requires forall i :: 0 <= i < |rest| - 1 ==> rest[i + 1].start == rest[i].stop - overlap
    requires forall i :: 0 <= i < |rest| - 1 ==> 5 * (rest[i + 1].start - rest[i].start) > 4 * chunkSize - 5 * overlap
    requires rest != [] ==> && rest[0].start == w.stop - overlap
                            && 5 * (rest[0].start - w.start) > 4 * chunkSize - 5 * overlap
                            && rest[|rest| - 1].stop - overlap >= |text|
    requires rest == [] ==> w.stop - overlap >= |text|
    ensures var ws := [w] + rest;
      && (forall i :: 0 <= i < |ws| - 1 ==> ws[i + 1].start == ws[i].stop - overlap)
      && (forall i :: 0 <= i < |ws| - 1 ==> 5 * (ws[i + 1].start - ws[i].start) > 4 * chunkSize - 5 * overlap)
      && ws[|ws| - 1].stop - overlap >= |text|
  {
    var ws := [w] + rest;
    forall i | 1 <= i < |ws| - 1 ensures ws[i] == rest[i - 1] && ws[i + 1] == rest[i] {
    }
    if rest != [] {
      assert ws[|ws| - 1] == rest[|rest| - 1];
    }
  }

  /**
    As written, a window that already reaches the end of the text is followed by
    one more whenever `end - overlap` is still inside the text; that window covers
    a tail of what the previous one covered. A text of exactly `chunkSize`
    characters (with `0 < overlap`) gets a second window inside the first, and
    exactly two windows when the overlap is at most half the window, as with the
    defaults 1000 and 200.
  */
  lemma RedundantTailWindow(text: string, chunkSize: int, overlap: int)
    requires Advancing(chunkSize, overlap)
    requires |text| == chunkSize && overlap > 0
    ensures var ws := Windows(text, chunkSize, overlap, 0);
      && |ws| >= 2
      && ws[0] == Window(0, chunkSize)
      && ws[1] == Window(chunkSize - overlap, 2 * chunkSize - overlap)
      && Covered(text, ws[1]) == Covered(text, ws[0])[chunkSize - overlap..]
      && (2 * overlap <= chunkSize ==> |ws| == 2)
  {
    var ws := Windows(text, chunkSize, overlap, 0);
    assert WindowStop(text, chunkSize, 0) == chunkSize;
    assert WindowStop(text, chunkSize, chunkSize - overlap) == 2 * chunkSize - overlap;
    assert ws[1..] == Windows(text, chunkSize, overlap, chunkSize - overlap);
    if 2 * overlap <= chunkSize {
      assert Windows(text, chunkSize, overlap, 2 * chunkSize - 2 * overlap) == [];
    }
  }

  /** The windows the loop evidently intends: it stops once a window reaches the end of the text. */
  function ClampedWindows(text: string, chunkSize: int, overlap: int, start: nat): seq<Window>
    requires Advancing(chunkSize, overlap)
  {
    UpToEnd(text, Windows(text, chunkSize, overlap, start))
  }

  /** The windows of `ws` up to and including the first one that reaches the end of the text. */
  function UpToEnd(text: string, ws: seq<Window>): seq<Window> {
    if ws == [] then []
    else if ws[0].stop >= |text| then [ws[0]]
    else [ws[0]] + UpToEnd(text, ws[1..])
  }

  /**
    Without the redundant tail: the clamped ends of consecutive windows strictly
    increase, so no window lies inside the one before it, and the last window
    reaches the end of the text. The windows are the loop's own up to the first
    one reaching the end.
  */
  lemma ClampedWindowsAdvance(text: string, chunkSize: int, overlap: int, start: nat)
    requires Advancing(chunkSize, overlap)
    ensures var cs := ClampedWindows(text, chunkSize, overlap, start);
      && EndsIncrease(text, cs)
      && (overlap >= 0 ==> ReachesEnd(text, cs))
      && PrefixOf(cs, Windows(text, chunkSize, overlap, start))
  {
    var ws := Windows(text, chunkSize, overlap, start);
    WindowsGrow(text, chunkSize, overlap, start);
    UpToEndIncrease(text, ws);
    if overlap >= 0 {
      WindowChain(text, chunkSize, overlap, start);
      UpToEndReachesEnd(text, ws);
    }
    UpToEndPrefix(text, ws);
  }

  /** Every window but the last ends inside the text, and the clamped ends strictly increase. */
  predicate EndsIncrease(text: string, ws: seq<Window>) {
    forall i :: 0 <= i < |ws| - 1 ==> ws[i].stop < |text| && Min(ws[i].stop, |text|) < Min(ws[i + 1].stop, |text|)
  }

  /** The last window, if any, reaches the end of the text. */
  predicate ReachesEnd(text: string, ws: seq<Window>) {
    ws != [] ==> ws[|ws| - 1].stop >= |text|
  }

  /** `cs` is an initial part of `ws`. */
  predicate PrefixOf(cs: seq<Window>, ws: seq<Window>) {
    |cs| <= |ws| && forall i :: 0 <= i < |cs| ==> cs[i] == ws[i]
  }

  /** The ends of the windows `ws` grow from one to the next. */
  predicate StopsGrow(ws: seq<Window>) {
    forall i :: 0 <= i < |ws| - 1 ==> ws[i].stop < ws[i + 1].stop
  }

  /**
    Each of the loop's windows ends after the one before it: a window is longer
    than the overlap, and the next one starts `overlap` before the previous end.
  */
  lemma WindowsGrow(text: string, chunkSize: int, overlap: int, start: nat)
    requires Advancing(chunkSize, overlap)
    ensures StopsGrow(Windows(text, chunkSize, overlap, start))
  {
    var ws := Windows(text, chunkSize, overlap, start);
    WindowChain(text, chunkSize, overlap, start);
    forall i | 0 <= i < |ws| - 1 ensures ws[i].stop < ws[i + 1].stop {
      WindowRule(text, chunkSize, overlap, start, ws[i + 1]);
    }
  }

  /** Cut after the first window reaching the end, windows whose ends grow have strictly increasing clamped ends. */
  lemma {:induction false} UpToEndIncrease(text: string, ws: seq<Window>)
    requires StopsGrow(ws)
    ensures EndsIncrease(text, UpToEnd(text, ws))
    decreases |ws|
  {
    if ws != [] && ws[0].stop < |text| {
      var rest := ws[1..];
      assert StopsGrow(rest) by {
        forall i | 0 <= i < |rest| - 1 ensures rest[i].stop < rest[i + 1].stop {
          assert rest[i] == ws[i + 1] && rest[i + 1] == ws[i + 2];
        }
      }
      UpToEndIncrease(text, rest);
      if rest != [] {
        assert UpToEnd(text, rest)[0] == rest[0];
      }
      ConsIncrease(text, ws[0], UpToEnd(text, rest));
    }
  }

  /** If the last window reaches the end, so does the last one kept. */
  lemma {:induction false} UpToEndReachesEnd(text: string, ws: seq<Window>)
    requires ReachesEnd(text, ws)
    ensures ReachesEnd(text, UpToEnd(text, ws))
    decreases |ws|
  {
    if ws != [] && ws[0].stop < |text| {
      var rest := ws[1..];
      assert |ws| >= 2;
      assert rest[|rest| - 1] == ws[|ws| - 1];
      UpToEndReachesEnd(text, rest);
      ConsReachesEnd(text, ws[0], UpToEnd(text, rest));
    }
  }

  /** The kept windows are an initial part of `ws`. */
  lemma {:induction false} UpToEndPrefix(text: string, ws: seq<Window>)
    ensures PrefixOf(UpToEnd(text, ws), ws)
    decreases |ws|
  {
    if ws != [] && ws[0].stop < |text| {
      UpToEndPrefix(text, ws[1..]);
      ConsPrefix(ws[0], UpToEnd(text, ws[1..]), ws[1..]);
      assert [ws[0]] + ws[1..] == ws;
    }
  }

  lemma ConsIncrease(text: string, w: Window, rest: seq<Window>)
    requires EndsIncrease(text, rest) && w.stop < |text|
    requires rest != [] ==> w.stop < Min(rest[0].stop, |text|)
    ensures EndsIncrease(text, [w] + rest)
  {
    var ws := [w] + rest;
    forall i | 0 <= i < |ws| - 1
      ensures ws[i].stop < |text| && Min(ws[i].stop, |text|) < Min(ws[i + 1].stop, |text|)
    {
      if i > 0 {
        assert ws[i] == rest[i - 1] && ws[i + 1] == rest[i];
      }
    }
  }

  lemma ConsReachesEnd(text: string, w: Window, rest: seq<Window>)
    requires ReachesEnd(text, rest) && rest != []
    ensures ReachesEnd(text, [w] + rest)
  {
    assert ([w] + rest)[|rest|] == rest[|rest| - 1];
  }

  lemma ConsPrefix(w: Window, cs: seq<Window>, ws: seq<Window>)
    requires PrefixOf(cs, ws)
    ensures PrefixOf([w] + cs, [w] + ws)
  {
    forall i | 0 <= i < |cs| + 1
      ensures ([w] + cs)[i] == ([w] + ws)[i]
    {
      if i > 0 {
        assert ([w] + cs)[i] == cs[i - 1] && ([w] + ws)[i] == ws[i - 1];
      }
    }
  }
}
