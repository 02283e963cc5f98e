/** `Response.iter_lines` without a delimiter, over an arbitrary chunking of the body. */
module IterLines {
  import opened Prelude

  const LF := 10
  const CR := 13

  predicate IsEnd(c: int) { c == LF || c == CR }

  /** The length of the text before the first line end. */
  function Until(s: Bytes): (n: nat)
    ensures n <= |s| && (n < |s| ==> IsEnd(s[n]))
    ensures forall i :: 0 <= i < n ==> !IsEnd(s[i])
  {
    if s == [] || IsEnd(s[0]) then 0 else 1 + Until(s[1..])
  }

  /** Where the line after the line end at `n` starts. */
  function Past(s: Bytes, n: nat): (m: nat)
    requires n < |s|
    ensures n < m <= |s|
  {
    if s[n] == CR && n + 1 < |s| && s[n + 1] == LF then n + 2 else n + 1
  }

  /** `bytes.splitlines`: "\n", "\r" and "\r\n" each end a line. */
  function SplitLines(s: Bytes): (lines: seq<Bytes>)
    ensures s != [] ==> lines != []
  {
    if s == [] then []
    else
      var n := Until(s);
      if n == |s| then [s] else [s[..n]] + SplitLines(s[Past(s, n)..])
  }

  /** The boundary between `before` and `after` separates "\r" from "\n". */
  predicate Separates(before: Bytes, after: Bytes) {
    before != [] && after != [] && before[|before| - 1] == CR && after[0] == LF
  }

  /** How many chunk boundaries separate "\r" from "\n". */
  function Separations(chunks: seq<Bytes>): nat {
    if chunks == [] then 0
    else
      var n := |chunks| - 1;
      Separations(chunks[..n]) + if Separates(Join(chunks[..n]), chunks[n]) then 1 else 0
  }

  /** `splitlines` written out, with line feed 10 and carriage return 13: these five equations say all of it. */
  lemma SplitLinesWritten(line: Bytes, rest: Bytes)
    requires 10 !in line && 13 !in line
    ensures SplitLines([]) == [] && (line != [] ==> SplitLines(line) == [line])
    ensures SplitLines(line + [10] + rest) == [line] + SplitLines(rest)
    ensures SplitLines(line + [13, 10] + rest) == [line] + SplitLines(rest)
    ensures (rest == [] || rest[0] != 10) ==> SplitLines(line + [13] + rest) == [line] + SplitLines(rest)
  {
    UntilIs(line, |line|);
    EndedLine(line, [10], rest);
    EndedLine(line, [13, 10], rest);
    if rest == [] || rest[0] != 10 { EndedLine(line, [13], rest); }
  }

  lemma {:induction false} UntilIs(s: Bytes, n: nat)
    requires n <= |s| && (n < |s| ==> IsEnd(s[n])) && forall i :: 0 <= i < n ==> !IsEnd(s[i])
    ensures Until(s) == n
  {
    if n > 0 { UntilIs(s[1..], n - 1); }
  }

  lemma EndedLine(line: Bytes, end: Bytes, rest: Bytes)
    requires 10 !in line && 13 !in line
    requires end == [10] || end == [13, 10] || (end == [13] && (rest == [] || rest[0] != 10))
    ensures SplitLines(line + end + rest) == [line] + SplitLines(rest)
  {
    hide SplitLines;
    var s, n := line + end + rest, |line|;
    UntilIs(s, n);
    FirstLine(s);
    assert s[..n] == line && s[n + |end|..] == rest;
    assert |end| == 2 ==> s[n + 1] == 10;
    assert |end| == 1 && n + 1 < |s| ==> s[n + 1] == rest[0];
  }

  predicate Ended(s: Bytes) { s == [] || IsEnd(s[|s| - 1]) }

  function Last<T>(lines: seq<T>): T
    requires lines != []
  {
    lines[|lines| - 1]
  }

  predicate NoEnds(s: Bytes) { forall i :: 0 <= i < |s| ==> !IsEnd(s[i]) }

  lemma {:induction false} LastLine(s: Bytes)
    requires s != []
    ensures var last := Last(SplitLines(s));
            && NoEnds(last)
            && (!Ended(s) ==> last != [] && last[|last| - 1] == s[|s| - 1])
  {
    hide SplitLines, Until;
    FirstLine(s);
    var n := Until(s);
    if n < |s| {
      var m := Past(s, n);
      var rest := s[m..];
      if m < |s| {
        assert rest != [] && rest[|rest| - 1] == s[|s| - 1];
        LastLine(rest);
        ConsLine(s[..n], SplitLines(rest), []);
      } else {
        assert IsEnd(s[m - 1]);
      }
    }
  }

  lemma FirstLine(s: Bytes)
    requires s != []
    ensures var n := Until(s);
            if n == |s| then SplitLines(s) == [s]
            else
              && SplitLines(s) == [s[..n]] + SplitLines(s[Past(s, n)..])
              && (Past(s, n) == |s| ==> SplitLines(s) == [s[..n]])
  {
  }

  lemma ConsLine(line: Bytes, rest: seq<Bytes>, more: seq<Bytes>)
    requires rest != []
    ensures var lines := [line] + rest;
            Last(lines) == Last(rest) && lines[..|lines| - 1] + more == [line] + (rest[..|rest| - 1] + more)
  {
  }

  lemma UntilAppend(a: Bytes, b: Bytes, n: nat)
    requires n == Until(a) < |a|
    ensures Until(a + b) == n && a + b != [] && (a + b)[..n] == a[..n]
    ensures (Past(a, n) < |a| || !Separates(a, b)) ==> Past(a + b, n) == Past(a, n)
    ensures (a + b)[Past(a, n)..] == a[Past(a, n)..] + b
  {
    assert forall i :: 0 <= i <= n ==> (a + b)[i] == a[i];
  }

  /** Splitting a text whose first part is not ended: the open last line goes on. */
  lemma {:induction false} SplitOpen(a: Bytes, b: Bytes)
    requires !Ended(a)
    ensures var lines := SplitLines(a);
            SplitLines(a + b) == lines[..|lines| - 1] + SplitLines(Last(lines) + b)
  {
    hide SplitLines, Until;
    FirstLine(a);
    var n := Until(a);
    if n < |a| {
      var m := Past(a, n);
      assert m < |a| by { assert IsEnd(a[m - 1]); }
      LineFirst(a, b);
      SplitOpen(a[m..], b);
      ConsLine(a[..n], SplitLines(a[m..]), SplitLines(Last(SplitLines(a[m..])) + b));
    }
  }

  /** Splitting a text whose first part is ended, at a boundary that may separate "\r" from "\n". */
  lemma {:induction false} SplitClosed(a: Bytes, b: Bytes)
    requires Ended(a)
    ensures !Separates(a, b) ==> SplitLines(a + b) == SplitLines(a) + SplitLines(b)
    ensures Separates(a, b) ==> SplitLines(b)[0] == [] && SplitLines(a + b) == SplitLines(a) + SplitLines(b)[1..]
  {
    hide SplitLines;
    if a == [] {
      assert a + b == b;
      NoLines();
    } else {
      var n := Until(a);
      var m := Past(a, n);
      if m == |a| {
        ClosedLine(a, b);
      } else {
        LineFirst(a, b);
        assert a[m..][|a| - m - 1] == a[|a| - 1];
        SplitClosed(a[m..], b);
      }
    }
  }

  lemma LineFirst(a: Bytes, b: Bytes)
    requires a != [] && Until(a) < |a| && Past(a, Until(a)) < |a|
    ensures var n := Until(a);
            var m := Past(a, n);
            && SplitLines(a) == [a[..n]] + SplitLines(a[m..])
            && SplitLines(a + b) == [a[..n]] + SplitLines(a[m..] + b)
  {
    UntilAppend(a, b, Until(a));
  }

  lemma ClosedLine(a: Bytes, b: Bytes)
    requires a != [] && Until(a) < |a| && Past(a, Until(a)) == |a|
    ensures !Separates(a, b) ==> SplitLines(a + b) == SplitLines(a) + SplitLines(b)
    ensures Separates(a, b) ==> SplitLines(b)[0] == [] && SplitLines(a + b) == SplitLines(a) + SplitLines(b)[1..]
  {
    hide SplitLines, Until, Past;
    FirstLine(a);
    if Separates(a, b) {
      LeadingEnd(b);
      SeparatedLine(a, b);
      assert ([[]] + SplitLines(b[1..]))[1..] == SplitLines(b[1..]);
    } else {
      TogetherLine(a, b);
    }
  }

  lemma SeparatedLine(a: Bytes, b: Bytes)
    requires a != [] && Until(a) < |a| && Past(a, Until(a)) == |a| && Separates(a, b)
    ensures SplitLines(a + b) == [a[..Until(a)]] + SplitLines(b[1..])
  {
    hide SplitLines, Until;
    var n := Until(a);
    UntilAppend(a, b, n);
    FirstLine(a + b);
    assert Past(a + b, n) == n + 2 && (a + b)[n + 2..] == b[1..];
  }

  lemma TogetherLine(a: Bytes, b: Bytes)
    requires a != [] && Until(a) < |a| && Past(a, Until(a)) == |a| && !Separates(a, b)
    ensures SplitLines(a + b) == [a[..Until(a)]] + SplitLines(b)
  {
    hide SplitLines, Until, Past;
    UntilAppend(a, b, Until(a));
    FirstLine(a + b);
    assert (a + b)[|a|..] == b;
  }

  lemma LeadingEnd(b: Bytes)
    requires b != [] && b[0] == LF
    ensures SplitLines(b) == [[]] + SplitLines(b[1..])
  {
    assert Until(b) == 0 && Past(b, 0) == 1;
  }

  function Pending(text: Bytes): Option<Bytes> {
    if Ended(text) then None else Some(Last(SplitLines(text)))
  }

  function Listed(pending: Option<Bytes>): seq<Bytes> {
    if pending.Some? then [pending.value] else []
  }

  function Held(pending: Option<Bytes>): Bytes {
    if pending.Some? then pending.value else []
  }

  /** The lines of a text but the open one. */
  function Complete(text: Bytes): seq<Bytes> {
    var lines := SplitLines(text);
    if Ended(text) then lines else lines[..|lines| - 1]
  }

  lemma CompleteLines(text: Bytes)
    ensures SplitLines(text) == Complete(text) + Listed(Pending(text))
  {
    hide SplitLines;
  }

  /** Held-back text can stand for everything it was split off from, unless "\r" and "\n" are separated. */
  lemma HeldBack(before: Bytes, chunk: Bytes)
    requires !Separates(before, chunk)
    ensures var text := Held(Pending(before)) + chunk;
            Pending(before + chunk) == Pending(text)
              && SplitLines(before + chunk) == Complete(before) + SplitLines(text)
  {
    hide SplitLines;
    if Ended(before) {
      assert [] + chunk == chunk;
      SplitClosed(before, chunk);
    } else {
      LastLine(before);
      SplitOpen(before, chunk);
    }
  }

  /** The loop's test for an incomplete last line finds the open line of the text. */
  lemma OpenEnd(s: Bytes)
    ensures var split := SplitLines(s);
            if split != [] && Last(split) != [] && s != [] && Last(split)[|Last(split)| - 1] == s[|s| - 1]
            then Pending(s) == Some(Last(split)) && split == split[..|split| - 1] + [Last(split)]
            else Pending(s) == None
  {
    if s != [] { LastLine(s); }
    hide SplitLines;
  }

  // ----- cutting between "\r" and "\n" -----

  /** One more chunk: a new piece if it is separated from the last one, and otherwise more of that one. */
  function Cut(pieces: seq<Bytes>, chunk: Bytes): (r: seq<Bytes>)
    requires pieces != []
    ensures r != []
  {
    var n := |pieces| - 1;
    if Separates(pieces[n], chunk) then pieces + [chunk] else pieces[..n] + [pieces[n] + chunk]
  }

  /** The content, cut at the chunk boundaries that separate "\r" from "\n" and nowhere else. */
  function Pieces(chunks: seq<Bytes>): (r: seq<Bytes>)
    ensures r != []
  {
    if chunks == [] then [[]] else Cut(Pieces(chunks[..|chunks| - 1]), chunks[|chunks| - 1])
  }

  /** The lines of each piece, one piece after the other. */
  function LinesOf(pieces: seq<Bytes>): seq<Bytes> {
    if pieces == [] then [] else LinesOf(pieces[..|pieces| - 1]) + SplitLines(pieces[|pieces| - 1])
  }

  /** The same without the first line of every piece but the first. */
  function Joined(pieces: seq<Bytes>): seq<Bytes> {
    if pieces == [] then []
    else
      var lines := SplitLines(pieces[|pieces| - 1]);
      if |pieces| == 1 || lines == [] then lines else Joined(pieces[..|pieces| - 1]) + lines[1..]
  }

  predicate CutBetween(pieces: seq<Bytes>) {
    var n := |pieces| - 1;
    n <= 0 || (CutBetween(pieces[..n]) && Separates(pieces[n - 1], pieces[n]))
  }

  lemma NoLines()
    ensures SplitLines([]) == [] && Join<int>([]) == [] && Separations([]) == 0 && Pending([]) == None
    ensures LinesOf([[]]) == []
  {
  }

  lemma Extended(chunks: seq<Bytes>, i: nat)
    requires i < |chunks|
    ensures Join(chunks[..i + 1]) == Join(chunks[..i]) + chunks[i]
    ensures Separations(chunks[..i + 1]) == Separations(chunks[..i])
              + if Separates(Join(chunks[..i]), chunks[i]) then 1 else 0
    ensures Pieces(chunks[..i + 1]) == Cut(Pieces(chunks[..i]), chunks[i])
  {
    assert chunks[..i + 1][..i] == chunks[..i] && chunks[..i] + [chunks[i]] == chunks[..i + 1];
    JoinAppend(chunks[..i], chunks[i]);
  }

  lemma Appended(pieces: seq<Bytes>, piece: Bytes)
    ensures Join(pieces + [piece]) == Join(pieces) + piece
    ensures LinesOf(pieces + [piece]) == LinesOf(pieces) + SplitLines(piece)
    ensures CutBetween(pieces + [piece]) <==> pieces == [] || (CutBetween(pieces) && Separates(Last(pieces), piece))
    ensures pieces != [] && SplitLines(piece) != [] ==>
              Joined(pieces + [piece]) == Joined(pieces) + SplitLines(piece)[1..]
  {
    hide Join;
    JoinAppend(pieces, piece);
    assert (pieces + [piece])[..|pieces|] == pieces;
  }

  /** The pieces end as their concatenation does. */
  ghost predicate SameEnd(pieces: seq<Bytes>)
    requires pieces != []
  {
    Join(pieces) != [] ==> Last(pieces) != [] && Last(Last(pieces)) == Last(Join(pieces))
  }

  lemma NewPiece(pieces: seq<Bytes>, chunk: Bytes)
    requires pieces != [] && CutBetween(pieces) && Separates(Last(pieces), chunk)
    ensures CutBetween(pieces + [chunk]) && SameEnd(pieces + [chunk])
  {
    Appended(pieces, chunk);
    hide Join, CutBetween;
  }

  lemma LongerPiece(front: seq<Bytes>, piece: Bytes, chunk: Bytes)
    requires CutBetween(front + [piece]) && SameEnd(front + [piece])
    ensures CutBetween(front + [piece + chunk]) && SameEnd(front + [piece + chunk])
    ensures Join(front + [piece + chunk]) == Join(front + [piece]) + chunk
  {
    Appended(front, piece);
    Appended(front, piece + chunk);
    Regroup(Join(front), piece, chunk);
    hide Join, CutBetween;
  }

  lemma CutMeaning(pieces: seq<Bytes>, chunk: Bytes)
    requires pieces != [] && CutBetween(pieces) && SameEnd(pieces)
    ensures var r := Cut(pieces, chunk);
            && CutBetween(r) && SameEnd(r) && Join(r) == Join(pieces) + chunk
            && |r| == |pieces| + if Separates(Join(pieces), chunk) then 1 else 0
  {
    hide Join, CutBetween;
    var n := |pieces| - 1;
    assert pieces[..n] + [pieces[n]] == pieces;
    Appended(pieces, chunk);
    if pieces[n] != [] { EndsLike(pieces); }
    if Separates(pieces[n], chunk) {
      NewPiece(pieces, chunk);
    } else {
      LongerPiece(pieces[..n], pieces[n], chunk);
    }
  }

  /** Pieces are cut between "\r" and "\n", once for every separation, and hold the whole content. */
  lemma {:induction false} PiecesMeaning(chunks: seq<Bytes>)
    ensures var pieces := Pieces(chunks);
            CutBetween(pieces) && SameEnd(pieces) && Join(pieces) == Join(chunks) && |pieces| == 1 + Separations(chunks)
  {
    if chunks == [] {
      OnePiece([]);
    } else {
      hide Join;
      var n := |chunks| - 1;
      Extended(chunks, n);
      assert chunks[..n + 1] == chunks;
      PiecesMeaning(chunks[..n]);
      CutMeaning(Pieces(chunks[..n]), chunks[n]);
      hide CutBetween, SameEnd, Cut, Separates;
    }
  }

  /** The lines of the whole content are those of the pieces without the empty line at every cut. */
  lemma {:induction false} CutLines(pieces: seq<Bytes>)
    requires pieces != [] && CutBetween(pieces)
    ensures Joined(pieces) == SplitLines(Join(pieces)) && |LinesOf(pieces)| == |Joined(pieces)| + |pieces| - 1
    ensures |pieces| == 1 ==> LinesOf(pieces) == Joined(pieces)
    ensures forall i :: 0 < i < |pieces| ==> SplitLines(pieces[i]) != [] && SplitLines(pieces[i])[0] == []
  {
    hide SplitLines, Join, LinesOf, Joined, CutBetween;
    var n := |pieces| - 1;
    var front, piece := pieces[..n], pieces[n];
    assert front + [piece] == pieces;
    Appended(front, piece);
    if n == 0 {
      OnePiece(piece);
    } else {
      CutLines(front);
      EndsLike(front);
      SplitClosed(Join(front), piece);
    }
  }

  lemma OnePiece(piece: Bytes)
    ensures Joined([piece]) == LinesOf([piece]) == SplitLines(piece) && Join([piece]) == piece
  {
    Appended([], piece);
  }

  lemma EndsLike(pieces: seq<Bytes>)
    requires pieces != [] && Last(pieces) != []
    ensures Join(pieces) != [] && Last(Join(pieces)) == Last(Last(pieces))
  {
    var n := |pieces| - 1;
    assert pieces == pieces[..n] + [pieces[n]];
    JoinAppend(pieces[..n], pieces[n]);
  }

  lemma CancelTail<T>(a: seq<T>, b: seq<T>, c: seq<T>, tail: seq<T>)
    requires a + tail == b + (c + tail)
    ensures a == b + c
  {
    assert b + (c + tail) == (b + c) + tail;
    assert (a + tail)[..|a|] == a && ((b + c) + tail)[..|b + c|] == b + c;
  }

  /** "\r\n" in one chunk is one line; in two it is two. */
  lemma SeparatedCounterexample()
    ensures Join([[CR], [LF]]) == [CR, LF] && SplitLines([CR, LF]) == [[]]
    ensures Separations([[CR], [LF]]) == 1 && LinesOf(Pieces([[CR], [LF]])) == [[], []]
  {
    hide SplitLines, Join, Separations, LinesOf, CutBetween, Joined, Pieces;
    EndLines();
    TwoChunks([CR], [LF]);
    OnePiece([CR]);
    Appended([[CR]], [LF]);
  }

  lemma TwoChunks(a: Bytes, b: Bytes)
    ensures Pieces([a, b]) == Cut([a], b) && Join([a, b]) == a + b
    ensures Separations([a, b]) == if Separates(a, b) then 1 else 0
  {
    hide Join, Cut;
    assert [a, b][..1] == [a] && [a, b] == [a] + [b];
    OneChunk(a);
    JoinAppend([a], b);
  }

  lemma OneChunk(a: Bytes)
    ensures Pieces([a]) == [a] && Join([a]) == a && Separations([a]) == 0
  {
    var empty: Bytes := [];
    assert [a][..0] == [] && empty + a == a && [a] == [] + [a];
    JoinAppend([], a);
    assert Cut([empty], a) == [empty][..0] + [a] == [a];
  }

  lemma EndLines()
    ensures SplitLines([CR]) == [[]] && SplitLines([LF]) == [[]] && SplitLines([CR, LF]) == [[]]
  {
  }

  /** One turn of the loop: what is yielded and held back stays the lines of the pieces. */
  lemma Turn(pieces: seq<Bytes>, lines: seq<Bytes>, pending: Option<Bytes>, chunk: Bytes)
    requires pieces != [] && pending == Pending(Last(pieces)) && lines + Listed(pending) == LinesOf(pieces)
    ensures var text, next := Held(pending) + chunk, Cut(pieces, chunk);
            Pending(text) == Pending(Last(next)) && lines + SplitLines(text) == LinesOf(next)
  {
    hide SplitLines, LinesOf, Pending, Complete, Ended, Join, CutBetween, Joined, Separates;
    var n := |pieces| - 1;
    var front, piece := pieces[..n], pieces[n];
    assert front + [piece] == pieces;
    if Separates(piece, chunk) {
      EndedPiece(piece, chunk);
      assert [] + chunk == chunk;
      Appended(pieces, chunk);
    } else {
      Appended(front, piece);
      CompleteLines(piece);
      CancelTail(lines, LinesOf(front), Complete(piece), Listed(pending));
      HeldBack(piece, chunk);
      Appended(front, piece + chunk);
      Regroup(LinesOf(front), Complete(piece), SplitLines(Held(pending) + chunk));
    }
  }

  lemma EndedPiece(piece: Bytes, chunk: Bytes)
    requires Separates(piece, chunk)
    ensures Pending(piece) == None
  {
  }

  /**
    Chunk independence, exactly: the lines are those of the pieces between the separated boundaries, so each
    of these boundaries yields one extra line, an empty one, and without such a boundary the lines are those
    of the whole content.
  */
  method Lines(chunks: seq<Bytes>) returns (lines: seq<Bytes>)
    ensures lines == LinesOf(Pieces(chunks)) && SplitLines(Join(chunks)) == Joined(Pieces(chunks))
    ensures |lines| == |SplitLines(Join(chunks))| + Separations(chunks)
    ensures lines == SplitLines(Join(chunks)) <==> Separations(chunks) == 0
  {
    hide SplitLines, Join, Separations, Ended, Separates, Pending, Cut, LinesOf, Joined;
    lines := [];
    var pending: Option<Bytes> := None;
    NoLines();
    assert chunks[..0] == [];
    for i := 0 to |chunks|
      invariant pending == Pending(Last(Pieces(chunks[..i])))
      invariant lines + Listed(pending) == LinesOf(Pieces(chunks[..i]))
    {
      var chunk := chunks[i];
      Extended(chunks, i);
      Turn(Pieces(chunks[..i]), lines, pending, chunk);
      if pending.Some? { chunk := pending.value + chunk; }
      assert chunk == Held(pending) + chunks[i];
      var split := SplitLines(chunk);
      OpenEnd(chunk);
      if split != [] && split[|split| - 1] != [] && chunk != []
         && split[|split| - 1][|split[|split| - 1]| - 1] == chunk[|chunk| - 1] {
        pending := Some(split[|split| - 1]);
        split := split[..|split| - 1];
      } else {
        pending := None;
      }
      lines := lines + split;
    }
    assert chunks[..|chunks|] == chunks;
    if pending.Some? { lines := lines + [pending.value]; }
    PiecesMeaning(chunks);
    CutLines(Pieces(chunks));
  }
}
