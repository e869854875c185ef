/** An annotation wrapped over several lines (crates/aep-backend-markdown/src/claim.rs:576-612): it scans
    to the same record as on one line, wherever its body and even its token are broken. */
module ClaimWrapping {
  import opened Wrappers
  import opened Texts
  import opened Dates
  import opened ClaimLines
  import opened Claims
  import opened ClaimFences
  import opened ClaimRoundTrip

  // ------------------------------------------------------------------ nothing to cut at

  lemma AtInside(x: string, a: string, y: string, key: string, p: nat)
    requires At(a, key, p)
    ensures At(x + a + y, key, |x| + p)
  {
    assert (x + a + y)[|x| + p..|x| + p + |key|] == a[p..p + |key|];
  }

  lemma {:induction false} SkipInside(x: string, a: string, y: string, at: nat)
    requires at <= |a| && SkipAsciiWhite(a, at) < |a|
    ensures SkipAsciiWhite(x + a + y, |x| + at) == |x| + SkipAsciiWhite(a, at)
    decreases |a| - at
  {
    hide IsAsciiWhite;
    assert (x + a + y)[|x| + at] == a[at];
    if IsAsciiWhite(a[at]) { SkipInside(x, a, y, at + 1); }
  }

  lemma BreakInside(x: string, a: string, y: string, p: nat)
    requires p < |a| && LineBreakAt(a, p).Some?
    ensures LineBreakAt(x + a + y, |x| + p).Some?
  {
    hide SkipAsciiWhite;
    var all := x + a + y;
    assert forall i :: 0 <= i < |a| ==> all[|x| + i] == a[i];
    var index := SkipAsciiWhite(a, p + 3);
    SkipInside(x, a, y, p + 3);
    if a[index] == '/' { SkipInside(x, a, y, index + 1); }
  }

  /** A part of a text with nothing to cut at has nothing to cut at. */
  lemma PartHasNoCut(x: string, a: string, y: string)
    requires Clean(x + a + y)
    ensures Clean(a)
  {
    hide At, LineBreakAt;
    forall p | 0 <= p < |a| ensures !At(a, KEYWORD, p) && !At(a, OTHER_KEYWORD, p) && LineBreakAt(a, p).None? {
      if At(a, KEYWORD, p) { AtInside(x, a, y, KEYWORD, p); }
      if At(a, OTHER_KEYWORD, p) { AtInside(x, a, y, OTHER_KEYWORD, p); }
      if LineBreakAt(a, p).Some? { BreakInside(x, a, y, p); }
    }
  }

  /** The end of a text with nothing to cut at from there on has nothing to cut at. */
  lemma EndHasNoCut(text: string, from: nat)
    requires from <= |text|
    requires forall q :: from <= q < |text| ==> !At(text, KEYWORD, q) && !At(text, OTHER_KEYWORD, q) && LineBreakAt(text, q).None?
    ensures Clean(text[from..])
  {
    hide At, LineBreakAt;
    var x, a := text[..from], text[from..];
    assert x + a + [] == text;
    forall p | 0 <= p < |a| ensures !At(a, KEYWORD, p) && !At(a, OTHER_KEYWORD, p) && LineBreakAt(a, p).None? {
      if At(a, KEYWORD, p) { AtInside(x, a, [], KEYWORD, p); }
      if At(a, OTHER_KEYWORD, p) { AtInside(x, a, [], OTHER_KEYWORD, p); }
      if LineBreakAt(a, p).Some? { BreakInside(x, a, [], p); }
    }
  }

  lemma TrimmedEnd(claim: string, horizon: Horizon) returns (from: nat)
    ensures from <= |PrintedBody(claim, horizon)|
    ensures PrintedBody(claim, horizon)[from..] == BeforeToken(claim) + TokenText(horizon)
  {
    hide TokenText;
    from := if claim == [] then 2 else 1;
  }

  /** What a clean record's body is, trimmed, has nothing to cut at. */
  lemma CleanBodyHasNoCut(r: ClaimRecord)
    requires Dated(r.date) && r.horizon.Accepted() && Clean(r.claim)
    ensures Clean(BeforeToken(r.claim) + TokenText(r.horizon))
  {
    hide TokenText, Written, At, LineBreakAt, Clean, Horizon.Accepted, CivilDate.Exists, PrintedBody, CivilDate.Show;
    var body := PrintedBody(r.claim, r.horizon);
    var text := Written(r.date, body);
    WrittenShape(r.date, body);
    var from := TrimmedEnd(r.claim, r.horizon);
    forall q | BODY_START + from <= q < |text|
      ensures !At(text, KEYWORD, q) && !At(text, OTHER_KEYWORD, q) && LineBreakAt(text, q).None?
    {
      CleanHasNoKeyword(r.date, r.claim, r.horizon, q);
      CleanHasNoTag(r.date, r.claim, r.horizon, q);
    }
    EndHasNoCut(text, BODY_START + from);
    assert text[BODY_START + from..] == text[BODY_START..][from..];
  }

  lemma {:induction false} PieceInJoined(pieces: seq<string>, i: nat) returns (x: string, y: string)
    requires i < |pieces|
    ensures Joined(pieces, " ") == x + pieces[i] + y
  {
    if |pieces| == 1 {
      x, y := [], [];
    } else if i == |pieces| - 1 {
      x, y := Joined(pieces[..i], " ") + " ", [];
    } else {
      x, y := PieceInJoined(pieces[..|pieces| - 1], i);
      y := y + " " + pieces[|pieces| - 1];
    }
  }

  // ------------------------------------------------------------------ the lines of a wrapped annotation

  /** A line a body may run on into: it opens nothing of its own, and its whitespace is inside. */
  ghost predicate Continues(piece: string) {
    && piece != [] && !IsWhite(piece[0]) && !IsWhite(piece[|piece| - 1])
    && piece[0] != '>' && !IsStopLine(piece) && Clean(piece)
  }

  lemma TrimmedAlready(piece: string)
    requires piece != [] && !IsWhite(piece[0]) && !IsWhite(piece[|piece| - 1])
    ensures Trim(piece) == piece && TrimStart(piece) == piece
  {
    hide IsWhite;
  }

  lemma NoCutIsOneSegment(text: string)
    requires forall p :: 0 <= p < |text| ==> LineBreakAt(text, p).None?
    ensures SegmentsFrom(text, false, 0) == [Segment(text, false)]
  {
    hide LineBreakAt;
    assert text[0..] == text;
  }

  /** Such a line is read as itself. */
  lemma ReadPlainLine(raws: seq<string>, n: nat)
    requires n < |raws| && Continues(raws[n]) && !FencedBefore(raws, n)
    ensures !IsMarker(raws[n]) && ReadLine(raws, n) == Line(n + 1, false, false, [Segment(raws[n], false)])
  {
    hide IsWhite, StartsWith, IsBullet, FencedBefore, LineBreakAt, At, SegmentsFrom;
    TrimmedAlready(raws[n]);
    NoCutIsOneSegment(raws[n]);
  }

  lemma {:induction false} NothingFenced(raws: seq<string>, n: nat)
    requires 0 < n <= |raws| && !IsMarker(raws[0]) && forall k :: 0 < k < |raws| ==> Continues(raws[k])
    ensures !FencedBefore(raws, n)
  {
    hide Continues, IsMarker;
    if n == 1 {
      assert !FencedBefore(raws, 0);
    } else {
      NothingFenced(raws, n - 1);
      ReadPlainLine(raws, n - 1);
    }
  }

  /** The lines after the first are the pieces, one segment each. */
  ghost predicate RunsOn(lines: seq<Line>, rest: seq<string>) {
    && |lines| == |rest| + 1 && !lines[0].quoted
    && forall n :: 0 < n < |lines| ==> lines[n] == Line(n + 1, false, false, [Segment(rest[n - 1], false)])
  }

  lemma PieceIsWhole(line: Line, piece: string)
    requires line.segments == [Segment(piece, false)] && Continues(piece)
    ensures PieceOf(line) == (piece, true)
  {
    hide IsWhite, IsStopLine, LineBreakAt, At;
    var stop := BodyStop(piece, 0, |piece|);
    assert stop == |piece|;
    assert piece[..stop] == piece;
    TrimmedAlready(piece);
  }

  lemma {:induction false} ContinuationIsRest(lines: seq<Line>, rest: seq<string>, n: nat)
    requires RunsOn(lines, rest) && 0 < n <= |lines| && forall k :: 0 <= k < |rest| ==> Continues(rest[k])
    ensures Continuation(lines, false, n) == rest[n - 1..]
    decreases |lines| - n
  {
    hide Continues, PieceOf;
    if n < |lines| {
      PieceIsWhole(lines[n], rest[n - 1]);
      ContinuationIsRest(lines, rest, n + 1);
      assert rest[n - 1..] == [rest[n - 1]] + rest[n..];
    }
  }

  /** The lines after the first contribute nothing of their own. */
  lemma {:induction false} RestIsSilent(lines: seq<Line>, rest: seq<string>, now: Option<CivilDate>, n: nat)
    requires RunsOn(lines, rest) && 0 < n <= |lines| && forall k :: 0 <= k < |rest| ==> Continues(rest[k])
    ensures LineFindings(lines, now, n) == NOTHING
    decreases |lines| - n
  {
    hide FindingsFrom, IsStopLine, IsWhite, At;
    if n < |lines| {
      RestIsSilent(lines, rest, now, n + 1);
      var segment := Segment(rest[n - 1], false);
      assert Continues(rest[n - 1]);
      NothingBetween(lines, n, segment, now, 0, |segment.text|);
      BeyondTheEnd(lines, n, segment, now, |segment.text|);
      assert SegmentFindings(lines, n, now, 1) == NOTHING;
      ThenNothing(NOTHING);
    }
  }

  // ------------------------------------------------------------------ the first line

  lemma OpeningHasNoCut(date: CivilDate, body: string, q: nat)
    requires Dated(date) && Clean(body) && q < |Written(date, body)|
    ensures var text := Written(date, body);
            && LineBreakAt(text, q).None? && (q > 0 ==> !At(text, KEYWORD, q)) && (q >= BODY_START ==> !At(text, OTHER_KEYWORD, q))
  {
    hide Written, CivilDate.Show, CivilDate.Exists, At;
    var text := Written(date, body);
    WrittenShape(date, body);
    if q < BODY_START {
      WrittenPlain(date, body, q);
      if At(text, KEYWORD, q) { KeywordChars(text, q); }
    } else {
      BodyCutsAlike(text, body, q - BODY_START);
    }
  }

  /** Past the head, a text is cut where its body is. */
  lemma BodyCutsAlike(text: string, body: string, p: nat)
    requires |text| >= BODY_START && text[BODY_START..] == body && Clean(body) && p < |body|
    ensures !At(text, KEYWORD, BODY_START + p) && !At(text, OTHER_KEYWORD, BODY_START + p)
    ensures LineBreakAt(text, BODY_START + p).None?
  {
    SuffixAt(text, KEYWORD, BODY_START, p);
    SuffixAt(text, OTHER_KEYWORD, BODY_START, p);
    if LineBreakAt(text, BODY_START + p).Some? { SuffixBreak(text, BODY_START, p); }
  }

  lemma SuffixAt(text: string, key: string, from: nat, p: nat)
    requires from + p <= |text|
    ensures At(text, key, from + p) <==> At(text[from..], key, p)
  {
    if p + |key| <= |text[from..]| { assert text[from..][p..p + |key|] == text[from + p..from + p + |key|]; }
  }

  lemma {:induction false} SuffixSkip(text: string, from: nat, at: nat)
    requires from + at <= |text|
    ensures SkipAsciiWhite(text, from + at) == from + SkipAsciiWhite(text[from..], at)
    decreases |text| - at
  {
    hide IsAsciiWhite;
    if from + at < |text| {
      assert text[from..][at] == text[from + at];
      if IsAsciiWhite(text[from + at]) { SuffixSkip(text, from, at + 1); }
    }
  }

  lemma SuffixBreak(text: string, from: nat, p: nat)
    requires from + p < |text| && LineBreakAt(text, from + p).Some?
    ensures LineBreakAt(text[from..], p).Some?
  {
    hide SkipAsciiWhite;
    var tail := text[from..];
    assert forall i :: 0 <= i < |tail| ==> tail[i] == text[from + i];
    SuffixSkip(text, from, p + 3);
    var index := SkipAsciiWhite(tail, p + 3);
    if index < |tail| && tail[index] == '/' { SuffixSkip(text, from, index + 1); }
  }

  /** The first line of a wrapped annotation: its head, and the first piece of its body. */
  function Opening(date: CivilDate, first: string): string { Written(date, " " + first) }

  lemma SpacedHasNoCut(first: string)
    requires Clean(first)
    ensures Clean(" " + first)
  {
    hide LineBreakAt, At;
    var body := " " + first;
    assert body[1..] == first;
    forall p | 0 <= p < |body| ensures !At(body, KEYWORD, p) && !At(body, OTHER_KEYWORD, p) && LineBreakAt(body, p).None? {
      if p == 0 {
        SpaceCutsNothing(body);
      } else {
        SuffixAt(body, KEYWORD, 1, p - 1);
        SuffixAt(body, OTHER_KEYWORD, 1, p - 1);
        if LineBreakAt(body, p).Some? { SuffixBreak(body, 1, p - 1); }
      }
    }
  }

  lemma SpaceCutsNothing(body: string)
    requires body != [] && body[0] == ' '
    ensures !At(body, KEYWORD, 0) && !At(body, OTHER_KEYWORD, 0) && LineBreakAt(body, 0).None?
  {
    KeyIsFirst(body, KEYWORD);
    KeyIsFirst(body, OTHER_KEYWORD);
  }

  lemma KeyIsFirst(text: string, key: string)
    requires text != [] && key != []
    ensures At(text, key, 0) ==> text[0] == key[0]
  {
    if |key| <= |text| { assert text[0..|key|][0] == text[0]; }
  }

  /** A first line whose head is read up to `from`, and that holds nothing else to cut at. */
  ghost predicate Opens(text: string, date: CivilDate, from: nat) {
    && At(text, KEYWORD, 0) && |KEYWORD| <= from <= |text| && !IsWhite(text[|text| - 1])
    && Heads(text[|KEYWORD|..], date, from - |KEYWORD|)
    && (forall p :: 0 <= p < |text| ==> LineBreakAt(text, p).None?)
    && (forall p :: 0 < p < |text| ==> !At(text, KEYWORD, p))
    && (forall p :: from <= p < |text| ==> !At(text, OTHER_KEYWORD, p))
  }

  /** The head at the start of `rest` is read, ends at `bodyStart`, and bears this date. */
  ghost predicate Heads(rest: string, date: CivilDate, bodyStart: nat) {
    var head := ReadHead(rest);
    head.Some? && head.value.emDash && head.value.bodyStart == bodyStart && ParseDate(head.value.date) == Some(date)
  }

  lemma ReadOpening(raws: seq<string>, date: CivilDate, from: nat)
    requires raws != [] && Opens(raws[0], date, from)
    ensures !IsMarker(raws[0]) && !ReadLine(raws, 0).quoted && ReadLine(raws, 0).number == 1
    ensures ReadLine(raws, 0).segments == [Segment(raws[0], false)]
  {
    hide IsWhite, SegmentsFrom, IsStopLine, LineBreakAt, At, QuoteLength, IsMarker, Heads;
    var text := raws[0];
    KeywordChars(text, 0);
    MarksAreNotWhite();
    assert TrimStart(text) == text;
    NoCutIsOneSegment(text);
    assert QuoteLength(text) == 0 && text[0..] == text;
    MarkerLooksPast(text);
    if StartsWith(text, FENCE) { FenceOpensWithBacktick(text); }
    NotACell(text);
    NothingBeforeTheFirst(raws);
  }

  lemma NotACell(text: string)
    requires text != [] && text[0] == 'V'
    ensures !StartsWith(text, "|")
  {
    assert text[0..1][0] == text[0];
  }

  lemma NothingBeforeTheFirst(raws: seq<string>)
    ensures !FencedBefore(raws, 0)
  {
  }

  lemma TrimSpaced(first: string)
    requires first != [] && !IsWhite(first[0]) && !IsWhite(first[|first| - 1])
    ensures Trim(" " + first) == first
  {
    hide IsWhite;
    MarksAreNotWhite();
    assert (" " + first)[1..] == first;
    TrimIs(" " + first, 1, first);
  }

  lemma OpeningOpens(date: CivilDate, first: string)
    requires Dated(date) && Clean(first) && first != [] && !IsWhite(first[0]) && !IsWhite(first[|first| - 1])
    ensures Opens(Opening(date, first), date, BODY_START) && Trim(Opening(date, first)[BODY_START..]) == first
  {
    hide Written, IsWhite, LineBreakAt, At, Clean, CivilDate.Show, ReadHead, ParseDate;
    var text := Opening(date, first);
    SpacedHasNoCut(first);
    WrittenShape(date, " " + first);
    HeadOfWritten(date, " " + first);
    ShownDateIsParsed(date);
    TrimSpaced(first);
    forall p | 0 <= p < |text|
      ensures LineBreakAt(text, p).None? && (p > 0 ==> !At(text, KEYWORD, p)) && (p >= BODY_START ==> !At(text, OTHER_KEYWORD, p))
    {
      OpeningHasNoCut(date, " " + first, p);
    }
    assert text[|text| - 1] == text[BODY_START..][|first|] == first[|first| - 1];
  }

  /** The first line's segment gathers the whole body. */
  lemma OpenedSpan(lines: seq<Line>, text: string, date: CivilDate, from: nat, rest: seq<string>)
    requires Opens(text, date, from) && RunsOn(lines, rest) && forall k :: 0 <= k < |rest| ==> Continues(rest[k])
    ensures Assemble(lines, 0, Segment(text, false), 0, from, |text|)
            == Span(Joined([text] + rest, "\n"), Joined([Trim(text[from..])] + rest, " "), |text|)
  {
    hide IsWhite, Trim, Continues, Joined, Continuation, At, LineBreakAt, Heads;
    var stop := BodyStop(text, from, |text|);
    assert stop == |text|;
    assert TrimEnd(text) == text;
    ContinuationIsRest(lines, rest, 1);
    assert rest[0..] == rest && text[0..|text|] == text && text[from..|text|] == text[from..];
  }

  lemma OpenedFinding(lines: seq<Line>, text: string, date: CivilDate, from: nat, now: Option<CivilDate>)
    requires lines != [] && Opens(text, date, from) && (now.Some? ==> !date.After(now.value))
    ensures FindingAt(lines, 0, Segment(text, false), now, 0)
            == Findings([RecordOf(date, Assemble(lines, 0, Segment(text, false), 0, from, |text|), lines[0].number)], [])
  {
    hide IsWhite, At, LineBreakAt, ReadHead, ParseDate, RecordOf, Assemble;
    assert text[7..|text|] == text[7..];
  }

  lemma OpenedFindings(lines: seq<Line>, text: string, date: CivilDate, from: nat, rest: seq<string>, now: Option<CivilDate>)
    requires Opens(text, date, from) && RunsOn(lines, rest) && forall k :: 0 <= k < |rest| ==> Continues(rest[k])
    requires lines[0].segments == [Segment(text, false)] && lines[0].number == 1
    requires now.Some? ==> !date.After(now.value)
    ensures LineFindings(lines, now, 0)
            == Findings([RecordOf(date, Span(Joined([text] + rest, "\n"), Joined([Trim(text[from..])] + rest, " "), |text|), 1)], [])
  {
    hide IsWhite, Continues, Joined, RecordOf, FindingAt, Assemble, At, LineBreakAt, Trim, Heads;
    var segment := Segment(text, false);
    OpenedSpan(lines, text, date, from, rest);
    OpenedFinding(lines, text, date, from, now);
    NothingBetween(lines, 0, segment, now, 1, |text|);
    BeyondTheEnd(lines, 0, segment, now, |text|);
    assert SegmentFindings(lines, 0, now, 1) == NOTHING;
    RestIsSilent(lines, rest, now, 1);
  }

  /** A document of an opening line and lines its body runs on into is that one annotation. */
  lemma OpenedScan(text: string, first: string, date: CivilDate, from: nat, rest: seq<string>, now: Option<CivilDate>)
    requires Lines(text) == [first] + rest && Opens(first, date, from) && (now.Some? ==> !date.After(now.value))
    requires forall k :: 0 <= k < |rest| ==> Continues(rest[k])
    ensures LineFindings(ReadLines(text), now, 0)
            == Findings([RecordOf(date, Span(Joined([first] + rest, "\n"), Joined([Trim(first[from..])] + rest, " "), |first|), 1)], [])
  {
    hide Opens, Continues, Joined, RecordOf, LineFindings, ReadLine, Lines, Trim;
    var raws, lines := Lines(text), ReadLines(text);
    ReadOpening(raws, date, from);
    forall n | 0 < n < |lines| ensures lines[n] == Line(n + 1, false, false, [Segment(rest[n - 1], false)]) {
      assert raws[n] == rest[n - 1] && forall k :: 0 < k < |raws| ==> raws[k] == rest[k - 1];
      NothingFenced(raws, n);
      ReadPlainLine(raws, n);
    }
    OpenedFindings(lines, first, date, from, rest, now);
  }

  // ------------------------------------------------------------------ wrapped scans the same

  /** A well-formed record whose body is broken over lines, between words or inside its token, scans back
      to the same claim, date and horizon, and nothing else. */
  lemma WrappedScansTheSame(r: ClaimRecord, text: string, first: string, rest: seq<string>, now: Option<CivilDate>)
    requires !r.malformed && Dated(r.date) && r.horizon.Accepted() && Collapse(r.claim) == r.claim && Clean(r.claim)
    requires now.Some? ==> !r.date.After(now.value)
    requires Joined([first] + rest, " ") == BeforeToken(r.claim) + TokenText(r.horizon)
    requires first != [] && !IsWhite(first[0]) && !IsWhite(first[|first| - 1])
    requires forall k :: 0 <= k < |rest| ==>
               && rest[k] != [] && !IsWhite(rest[k][0]) && !IsWhite(rest[k][|rest[k]| - 1])
               && rest[k][0] != '>' && !IsStopLine(rest[k])
    requires Lines(text) == [Opening(r.date, first)] + rest
    ensures LineFindings(ReadLines(text), now, 0)
            == Findings([r.(source := Joined([Opening(r.date, first)] + rest, "\n"), line := 1)], [])
  {
    hide Opening, IsWhite, IsStopLine, Clean, Joined, RecordOf, TokenText, BeforeToken, Collapse, LineFindings, ReadLines, Lines, Opens, Trim;
    var pieces := [first] + rest;
    CleanBodyHasNoCut(r);
    forall i | 0 <= i < |pieces| ensures Clean(pieces[i]) {
      var x, y := PieceInJoined(pieces, i);
      PartHasNoCut(x, pieces[i], y);
    }
    assert pieces[0] == first;
    forall k | 0 <= k < |rest| ensures Continues(rest[k]) { assert pieces[k + 1] == rest[k]; }
    OpeningOpens(r.date, first);
    OpenedScan(text, Opening(r.date, first), r.date, BODY_START, rest, now);
    WrappedRecord(r, Joined([Opening(r.date, first)] + rest, "\n"), |Opening(r.date, first)|);
  }

  lemma WrappedRecord(r: ClaimRecord, source: string, end: nat)
    requires !r.malformed && r.horizon.Accepted() && Collapse(r.claim) == r.claim
    ensures RecordOf(r.date, Span(source, BeforeToken(r.claim) + TokenText(r.horizon), end), 1) == r.(source := source, line := 1)
  {
    hide RecordOf, Collapse, TokenText, BeforeToken;
    var before := BeforeToken(r.claim);
    assert before + TokenText(r.horizon) + [] == before + TokenText(r.horizon) && before + [] == before;
    RecordOfPrinted(r.date, before, [], r.horizon, source, end, 1);
    BeforeCollapses(r.claim);
  }
}
