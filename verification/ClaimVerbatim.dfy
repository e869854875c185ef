/** A malformed record is rendered as its source, verbatim (crates/aep-backend-markdown/src/claim.rs:228-238):
    what scanning that gives, and so when rendering is a fixpoint of scanning, for every record. */
module ClaimVerbatim {
  import opened Wrappers
  import opened Texts
  import opened Dates
  import opened ClaimLines
  import opened Claims
  import opened ClaimCounting
  import opened ClaimAccounting
  import opened ClaimRoundTrip
  import opened ClaimWrapping
  import Decimal

  // ------------------------------------------------------------------ lines joined and split again

  predicate Feedless(line: string) { '\n' !in line }

  lemma {:induction false} LinesHaveNoFeed(text: string, n: nat)
    requires n < |Lines(text)|
    ensures Feedless(Lines(text)[n])
    decreases |text|
  {
    if text != [] {
      match FindChar(text, '\n', 0)
      case None =>
      case Some(at) => if n > 0 { LinesHaveNoFeed(text[at + 1..], n - 1); }
    }
  }

  lemma {:induction false} LinesAppend(a: string, b: string)
    ensures Lines(a + "\n" + b) == Lines(a + "\n") + Lines(b)
    decreases |a|
  {
    hide WithoutReturn, Lines;
    match FindChar(a, '\n', 0)
    case None =>
      FirstLine(a, b); FirstLine(a, []);
      assert a + "\n" + [] == a + "\n";
      NoLines();
    case Some(at) =>
      var first, more := a[..at], a[at + 1..];
      LinesAppend(more, b);
      FirstLine(first, more + "\n" + b); FirstLine(first, more + "\n");
      assert first + "\n" + (more + "\n" + b) == a + "\n" + b && first + "\n" + (more + "\n") == a + "\n";
  }

  lemma NoLines()
    ensures Lines([]) == []
  {
  }

  lemma FirstLine(line: string, rest: string)
    requires Feedless(line)
    ensures Lines(line + "\n" + rest) == [WithoutReturn(line)] + Lines(rest)
  {
    hide WithoutReturn;
    var text := line + "\n" + rest;
    FirstFeed(text, |line|);
    assert text[..|line|] == line && text[|line| + 1..] == rest;
  }

  lemma FirstFeed(text: string, at: nat)
    requires at < |text| && text[at] == '\n' && forall p :: 0 <= p < at ==> text[p] != '\n'
    ensures FindChar(text, '\n', 0) == Some(at)
  {
  }

  /** A line that the end of a line leaves as it is. */
  ghost predicate Whole(line: string) { Feedless(line) && line != [] && line[|line| - 1] != '\r' }

  lemma WholeLine(line: string)
    requires Whole(line)
    ensures Lines(line) == [line] == Lines(line + "\n")
  {
    FirstFeed(line + "\n", |line|);
    assert (line + "\n")[..|line|] == line && (line + "\n")[|line| + 1..] == [];
  }

  /** Lines joined are split again, whether or not a last line feed follows them. */
  lemma {:induction false} LinesJoined(parts: seq<string>)
    requires parts != [] && forall k :: 0 <= k < |parts| ==> Whole(parts[k])
    ensures Lines(Joined(parts, "\n")) == parts == Lines(Joined(parts, "\n") + "\n")
  {
    hide Lines, Whole;
    var n := |parts| - 1;
    WholeLine(parts[n]);
    if n > 0 {
      var front := parts[..n];
      LinesJoined(front);
      LinesAppend(Joined(front, "\n"), parts[n]);
      LinesAppend(Joined(front, "\n"), parts[n] + "\n");
      assert Joined(parts, "\n") + "\n" == Joined(front, "\n") + "\n" + (parts[n] + "\n");
    }
  }

  // ------------------------------------------------------------------ trimming

  lemma {:induction false} TrimEndInside(s: string, n: nat)
    requires n <= |TrimEnd(s)|
    ensures n <= |s| && TrimEnd(s)[n..] == TrimEnd(s[n..]) && TrimEnd(s) <= s
  {
    hide IsWhite;
    if s != [] && IsWhite(s[|s| - 1]) {
      TrimEndInside(s[..|s| - 1], n);
      assert s[n..][..|s| - n - 1] == s[..|s| - 1][n..];
    }
  }

  lemma {:induction false} TrimEndEnds(s: string)
    ensures TrimEnd(s) != [] ==> !IsWhite(TrimEnd(s)[|TrimEnd(s)| - 1])
    ensures TrimEnd(TrimEnd(s)) == TrimEnd(s)
  {
    hide IsWhite;
    if s != [] && IsWhite(s[|s| - 1]) { TrimEndEnds(s[..|s| - 1]); }
  }

  /** Whatever is not whitespace stays. */
  lemma {:induction false} TrimEndKeepsTo(s: string, n: nat)
    requires n < |s| && !IsWhite(s[n])
    ensures n < |TrimEnd(s)|
  {
    hide IsWhite;
    if IsWhite(s[|s| - 1]) { TrimEndKeepsTo(s[..|s| - 1], n); }
  }

  lemma {:induction false} AllWhite(s: string)
    requires forall i :: 0 <= i < |s| ==> IsWhite(s[i])
    ensures TrimEnd(s) == [] == TrimStart(s)
  {
    hide IsWhite;
    if s != [] { AllWhite(s[..|s| - 1]); AllWhite(s[1..]); }
  }

  lemma TrimOfTrimEnd(s: string)
    ensures Trim(TrimEnd(s)) == Trim(s)
  {
    hide IsWhite, TrimEnd, TrimStart;
    var n := LeadingWhite(s);
    if n == |s| {
      AllWhite(s);
      AllWhite([]);
    } else {
      TrimEndKeepsTo(s, n);
      TrimEndInside(s, n);
      var kept := TrimEnd(s);
      assert kept[n] == s[n] && forall i :: 0 <= i < n ==> kept[i] == s[i];
      LeadingWhiteIs(kept, n);
      TrimEndEnds(s[n..]);
    }
  }

  // ------------------------------------------------------------------ parts of a line without tags

  ghost predicate Tagless(text: string) { forall p :: 0 <= p < |text| ==> LineBreakAt(text, p).None? }

  lemma PartIsTagless(text: string, from: nat, upto: nat)
    requires from <= upto <= |text|
    requires forall p :: from <= p < upto ==> LineBreakAt(text, p).None?
    ensures Tagless(text[from..upto])
  {
    hide LineBreakAt;
    var x, a, y := text[..from], text[from..upto], text[upto..];
    assert text == x + a + y;
    forall p | 0 <= p < |a| ensures LineBreakAt(a, p).None? {
      if LineBreakAt(a, p).Some? { BreakInside(x, a, y, p); }
    }
  }

  /** Up to the first boundary there is no break tag. */
  lemma StretchIsTagless(line: string, cells: bool, start: nat, end: nat)
    requires start <= end <= |line| && forall p :: start <= p < end ==> BoundaryAt(line, cells, p).None?
    ensures Tagless(line[start..end])
  {
    hide LineBreakAt, Tagless;
    forall p | start <= p < end ensures LineBreakAt(line, p).None? { assert BoundaryAt(line, cells, p).None?; }
    PartIsTagless(line, start, end);
  }

  /** No segment of a line holds a whole break tag. */
  lemma {:induction false} SegmentsAreTagless(line: string, cells: bool, start: nat, n: nat)
    requires start <= |line| && n < |SegmentsFrom(line, cells, start)|
    ensures Tagless(SegmentsFrom(line, cells, start)[n].text)
    decreases |line| - start
  {
    hide BoundaryAt, FirstBoundary, Tagless;
    match FirstBoundary(line, cells, start)
    case None =>
      StretchIsTagless(line, cells, start, |line|);
      assert line[start..] == line[start..|line|];
    case Some(at) =>
      if n == 0 {
        StretchIsTagless(line, cells, start, at);
      } else {
        SegmentsAreTagless(line, cells, at + BoundaryAt(line, cells, at).value, n - 1);
      }
  }

  // ------------------------------------------------------------------ the first line of a record

  /** The head that is read ends with its dash, which is no whitespace, so it is read of any longer start. */
  lemma HeadOfPrefix(rest: string, n: nat)
    requires ReadHead(rest).Some? && ReadHead(rest).value.emDash && ReadHead(rest).value.bodyStart <= n <= |rest|
    ensures ReadHead(rest[..n]) == ReadHead(rest)
    ensures ReadHead(rest).value.bodyStart > 0 && rest[ReadHead(rest).value.bodyStart - 1] == SEPARATOR
  {
    hide SkipBlanks, IsIsoShaped, IsBlank;
    var before := SkipBlanks(rest, 0);
    var dash := SkipBlanks(rest, before + DATE_LEN);
    var part := rest[..n];
    assert part[before..before + DATE_LEN] == rest[before..before + DATE_LEN];
    HeadIs(part, before, dash);
    HeadIs(rest, before, dash);
  }

  lemma SeparatorIsNotWhite()
    ensures !IsWhite(SEPARATOR)
  {
  }

  /** What a keyword gathers of its own segment, cut at the end of its body, opens an annotation. */
  lemma FirstPieceOpens(text: string, p: nat, date: CivilDate)
    requires At(text, KEYWORD, p) && Tagless(text)
    requires var rest := text[p + |KEYWORD|..SpanLimit(text, p)]; ReadHead(rest).Some? && Heads(rest, date, ReadHead(rest).value.bodyStart)
    ensures var limit := SpanLimit(text, p);
            var from := p + |KEYWORD| + ReadHead(text[p + |KEYWORD|..limit]).value.bodyStart;
            && from <= limit
            && var s := text[p..BodyStop(text, from, limit)];
               from - p <= |TrimEnd(s)| && Opens(TrimEnd(s), date, from - p) && Trim(TrimEnd(s)[from - p..]) == Trim(s[from - p..])
  {
    hide At, SpanLimit, ReadHead, BodyStop, StopsBody, TrimEnd, Trim, Tagless, LineBreakAt, ParseDate, NoKeywordBetween, IsWhite, Opens;
    var limit := SpanLimit(text, p);
    var rest := text[p + |KEYWORD|..limit];
    var from := p + |KEYWORD| + ReadHead(rest).value.bodyStart;
    var end := BodyStop(text, from, limit);
    var s := text[p..end];
    HeadOfPrefix(rest, ReadHead(rest).value.bodyStart);
    SeparatorIsNotWhite();
    assert s[from - p - 1] == rest[ReadHead(rest).value.bodyStart - 1] == SEPARATOR;
    TrimEndKeepsTo(s, from - p - 1);
    TrimEndInside(s, from - p);
    TrimOfTrimEnd(s[from - p..]);
    TrimEndEnds(s);
    var m := |TrimEnd(s)|;
    assert TrimEnd(s) == text[p..p + m];
    PrefixOpens(text, p, date, p + m);
  }

  lemma PrefixOpens(text: string, p: nat, date: CivilDate, upto: nat)
    requires At(text, KEYWORD, p) && Tagless(text)
    requires var rest := text[p + |KEYWORD|..SpanLimit(text, p)]; ReadHead(rest).Some? && Heads(rest, date, ReadHead(rest).value.bodyStart)
    requires var limit := SpanLimit(text, p);
             var from := p + |KEYWORD| + ReadHead(text[p + |KEYWORD|..limit]).value.bodyStart;
             from <= upto <= BodyStop(text, from, limit) && !IsWhite(text[upto - 1])
    ensures Opens(text[p..upto], date, |KEYWORD| + ReadHead(text[p + |KEYWORD|..SpanLimit(text, p)]).value.bodyStart)
  {
    hide SpanLimit, ReadHead, BodyStop, LineBreakAt, ParseDate, NoKeywordBetween, IsWhite;
    var limit, first := SpanLimit(text, p), text[p..upto];
    var rest := text[p + |KEYWORD|..limit];
    var from := |KEYWORD| + ReadHead(rest).value.bodyStart;
    assert first[..|KEYWORD|] == text[p..p + |KEYWORD|];
    assert At(first, KEYWORD, 0) by { assert first[0..|KEYWORD|] == first[..|KEYWORD|]; }
    assert first[|KEYWORD|..] == rest[..upto - p - |KEYWORD|];
    HeadOfPrefix(rest, upto - p - |KEYWORD|);
    TaglessPart(text, p, upto);
    AfterBodyIsClear(text, p);
    assert first[|first| - 1] == text[upto - 1];
    forall q | 0 < q < |first| ensures !At(first, KEYWORD, q) { NoneInside(text, p, upto, KEYWORD, q); NotBetween(text, p, upto, p + q); }
    forall q | from <= q < |first| ensures !At(first, OTHER_KEYWORD, q) {
      NoneInside(text, p, upto, OTHER_KEYWORD, q);
      NoneStops(text, p + from, limit, upto, p + q);
    }
  }

  lemma NoneStops(text: string, from: nat, limit: nat, upto: nat, q: nat)
    requires from <= limit <= |text| && from <= q < upto <= BodyStop(text, from, limit)
    ensures At(text, OTHER_KEYWORD, q) ==> q + |OTHER_KEYWORD| > upto
  {
    hide BodyStop, At;
    assert !StopsBody(text, q, limit);
  }

  lemma NotBetween(text: string, p: nat, upto: nat, q: nat)
    requires At(text, KEYWORD, p) && ReadHead(text[p + |KEYWORD|..SpanLimit(text, p)]).Some?
    requires var limit := SpanLimit(text, p);
             var from := p + |KEYWORD| + ReadHead(text[p + |KEYWORD|..limit]).value.bodyStart;
             from <= upto <= BodyStop(text, from, limit)
    requires p < q < upto
    ensures !At(text, KEYWORD, q)
  {
    hide At, SpanLimit, ReadHead, BodyStop;
    AfterBodyIsClear(text, p);
  }

  lemma NoneInside(text: string, from: nat, upto: nat, key: string, q: nat)
    requires from <= upto <= |text|
    ensures At(text[from..upto], key, q) ==> At(text, key, from + q) && from + q + |key| <= upto
  {
    var x, a, y := text[..from], text[from..upto], text[upto..];
    assert text == x + a + y;
    if At(a, key, q) { AtInside(x, a, y, key, q); }
  }

  lemma TaglessPart(text: string, from: nat, upto: nat)
    requires Tagless(text) && from <= upto <= |text|
    ensures Tagless(text[from..upto])
  {
    hide LineBreakAt;
    PartIsTagless(text, from, upto);
  }

  // ------------------------------------------------------------------ the lines a body runs on into

  /** What a body takes of the lines after the first: whole pieces, and at the end perhaps an empty one. */
  ghost predicate Runs(pieces: seq<string>) {
    forall k :: 0 <= k < |pieces| ==> Feedless(pieces[k]) && (Continues(pieces[k]) || (pieces[k] == [] && k == |pieces| - 1))
  }

  lemma {:induction false} DigitsOfPrefix(text: string, n: nat)
    requires n <= |text| && LeadingDigits(text[..n]) < n
    ensures LeadingDigits(text) == LeadingDigits(text[..n])
  {
    if n > 0 && Decimal.IsDigit(text[0]) {
      assert text[..n][1..] == text[1..][..n - 1];
      DigitsOfPrefix(text[1..], n - 1);
    }
  }

  lemma StartOfPrefix(text: string, n: nat, key: string)
    requires n <= |text|
    ensures StartsWith(text[..n], key) ==> StartsWith(text, key)
  {
    if StartsWith(text[..n], key) { assert text[..n][0..|key|] == text[0..|key|]; }
  }

  /** The start of a line that does not stop a body does not stop one, when something is left of it. */
  lemma StopOfPrefix(text: string, n: nat)
    requires 0 < n <= |text| && !IsWhite(text[0]) && !IsWhite(text[n - 1]) && !IsStopLine(text)
    ensures !IsStopLine(text[..n])
  {
    hide IsWhite, LeadingDigits, StartsWith, TrimStart, TrimEnd;
    TrimEndKeepsTo(text, n - 1);
    TrimEndInside(text, 0);
    var piece, whole := text[..n], TrimEnd(text);
    assert TrimStart(text) == text && TrimStart(piece) == piece by { StartsTrimmed(text); StartsTrimmed(piece); }
    TrimmedAlready(piece);
    assert piece == whole[..n];
    StartOfPrefix(whole, n, "#"); StartOfPrefix(whole, n, "|"); StartOfPrefix(whole, n, FENCE);
    StartOfPrefix(whole, n, KEYWORD); StartOfPrefix(whole, n, OTHER_KEYWORD);
    BulletOfPrefix(whole, n);
  }

  lemma StartsTrimmed(text: string)
    requires text != [] && !IsWhite(text[0])
    ensures TrimStart(text) == text
  {
    hide IsWhite;
  }

  lemma BulletOfPrefix(text: string, n: nat)
    requires n <= |text|
    ensures IsBullet(text[..n]) ==> IsBullet(text)
  {
    hide LeadingDigits, StartsWith;
    StartOfPrefix(text, n, "- "); StartOfPrefix(text, n, "* "); StartOfPrefix(text, n, "+ ");
    if LeadingDigits(text[..n]) < n { DigitsOfPrefix(text, n); }
  }

  /** The first segment of a line that runs on: it starts as the line does, and nothing cuts it but its end. */
  lemma FirstOfLine(stripped: string)
    requires !IsStopLine(stripped) && stripped != [] && !IsWhite(stripped[0])
    ensures SplitSegments(stripped)[0] == FirstSegment(stripped)
  {
    hide IsWhite, SegmentsFrom, FirstEnd, LeadingDigits;
    NotACellLine(stripped);
    FirstOfSegments(stripped);
  }

  lemma NotACellLine(stripped: string)
    requires !IsStopLine(stripped) && stripped != [] && !IsWhite(stripped[0])
    ensures !StartsWith(stripped, "|") && !StartsWith(stripped, KEYWORD) && !StartsWith(stripped, OTHER_KEYWORD)
  {
    hide IsWhite, IsBullet, StartsWith, TrimStart, TrimEnd;
    StartsTrimmed(stripped);
    KeyEnds();
    TrimEndKeepsKey(stripped, "|"); TrimEndKeepsKey(stripped, KEYWORD); TrimEndKeepsKey(stripped, OTHER_KEYWORD);
  }

  lemma KeyEnds()
    ensures !IsWhite("|"[|"|"| - 1]) && !IsWhite(KEYWORD[|KEYWORD| - 1]) && !IsWhite(OTHER_KEYWORD[|OTHER_KEYWORD| - 1])
  {
  }

  lemma {:induction false} TrimEndKeepsKey(s: string, key: string)
    requires key != [] && !IsWhite(key[|key| - 1])
    ensures StartsWith(s, key) ==> StartsWith(TrimEnd(s), key)
  {
    hide IsWhite, TrimEnd;
    if StartsWith(s, key) {
      assert s[0..|key|][|key| - 1] == s[|key| - 1];
      TrimEndKeepsTo(s, |key| - 1);
      TrimEndInside(s, 0);
      assert TrimEnd(s)[0..|key|] == s[0..|key|];
    }
  }

  /** What a body takes of a line that does not stop it. */
  lemma PieceShape(stripped: string, line: Line)
    requires !IsStopLine(stripped) && stripped != [] && !IsWhite(stripped[0]) && stripped[0] != '>' && Feedless(stripped)
    requires line.segments == SplitSegments(stripped)
    ensures Feedless(PieceOf(line).0)
    ensures if PieceOf(line).0 == [] then !PieceOf(line).1 else Continues(PieceOf(line).0)
  {
    hide IsWhite, IsStopLine, SplitSegments, FirstBoundary, BodyStop, StopsBody, TrimStart, TrimEnd, LineBreakAt, At;
    FirstOfLine(stripped);
    var end := FirstEnd(stripped);
    var first := stripped[..end];
    var stop := BodyStop(first, 0, end);
    if stop == 0 {
      NothingAtStart(stripped, end);
      assert first[..0] == [];
      AllWhite([]);
    } else {
      var text := first[..stop];
      assert text == stripped[..stop];
      StartsTrimmed(text);
      TrimEndKeepsTo(text, 0);
      TrimEndInside(text, 0);
      TrimEndEnds(text);
      var m := |TrimEnd(text)|;
      assert TrimEnd(text) == stripped[..m] && stripped[..m][m - 1] == stripped[m - 1];
      StopOfPrefix(stripped, m);
      StartIsClean(stripped, m);
    }
  }

  /** A body that takes nothing of such a line was cut by a tag it starts with. */
  lemma NothingAtStart(stripped: string, end: nat)
    requires !IsStopLine(stripped) && stripped != [] && !IsWhite(stripped[0])
    requires end == FirstEnd(stripped) && BodyStop(stripped[..end], 0, end) == 0
    ensures end == 0 && FirstBoundary(stripped, false, 0).Some?
  {
    hide IsWhite, IsStopLine;
    NotACellLine(stripped);
    StartOfPrefix(stripped, end, KEYWORD);
    StartOfPrefix(stripped, end, OTHER_KEYWORD);
  }

  lemma StartIsClean(stripped: string, m: nat)
    requires m <= FirstEnd(stripped) && m <= BodyStop(stripped[..FirstEnd(stripped)], 0, FirstEnd(stripped))
    ensures Clean(stripped[..m])
  {
    hide At, LineBreakAt, BodyStop, FirstBoundary;
    var end, piece := FirstEnd(stripped), stripped[..m];
    assert stripped[0..m] == piece && stripped[..end][0..m] == piece;
    forall p | 0 <= p < m ensures LineBreakAt(stripped, p).None? { assert BoundaryAt(stripped, false, p).None?; }
    PartIsTagless(stripped, 0, m);
    forall p | 0 <= p < m ensures !At(piece, KEYWORD, p) && !At(piece, OTHER_KEYWORD, p) {
      NoneInside(stripped[..end], 0, m, KEYWORD, p);
      NoneInside(stripped[..end], 0, m, OTHER_KEYWORD, p);
      assert !StopsBody(stripped[..end], p, end);
    }
  }

  /** The lines of a document, as the body runs on into them. */
  lemma {:induction false} ContinuationRuns(text: string, quoted: bool, n: nat)
    ensures Runs(Continuation(ReadLines(text), quoted, n))
    decreases |Lines(text)| - n
  {
    hide PieceOf, Continues, Feedless, ReadLine, Lines, EndsBody;
    var lines := ReadLines(text);
    if n < |lines| && !EndsBody(lines[n], quoted) {
      ReadPieceShape(text, n, quoted);
      if PieceOf(lines[n]).1 { ContinuationRuns(text, quoted, n + 1); }
    }
  }

  lemma ReadPieceShape(text: string, n: nat, quoted: bool)
    requires n < |Lines(text)| && !EndsBody(ReadLines(text)[n], quoted)
    ensures ReadLines(text)[n].segments != []
    ensures Feedless(PieceOf(ReadLines(text)[n]).0)
    ensures if PieceOf(ReadLines(text)[n]).0 == [] then !PieceOf(ReadLines(text)[n]).1 else Continues(PieceOf(ReadLines(text)[n]).0)
  {
    hide PieceOf, Continues, Lines, IsStopLine, StripQuote, SplitSegments, Excluded, IsWhite;
    var raw := Lines(text)[n];
    var k := QuotePrefix(raw);
    LinesHaveNoFeed(text, n);
    EmptyStops();
    PieceShape(StripQuote(raw).0, ReadLines(text)[n]);
  }

  lemma EmptyStops()
    ensures IsStopLine([])
  {
  }

  // ------------------------------------------------------------------ what a record was gathered from

  /** An opening line, read up to `from`, and the pieces its body ran on into, make this record. */
  ghost predicate Gathered(r: ClaimRecord, first: string, from: nat, pieces: seq<string>) {
    && Opens(first, r.date, from) && Feedless(first) && Runs(pieces)
    && r == RecordOf(r.date, Span(Joined([first] + pieces, "\n"), Joined([Trim(first[from..])] + pieces, " "), 0), r.line)
  }

  lemma EndDoesNotMatter(date: CivilDate, source: string, body: string, end: nat, line: nat)
    ensures RecordOf(date, Span(source, body, end), line) == RecordOf(date, Span(source, body, 0), line)
    ensures RecordOf(date, Span(source, body, 0), line).date == date && RecordOf(date, Span(source, body, 0), line).line == line
  {
    hide Collapse, LastToken;
  }

  lemma FindingIsGathered(text: string, index: nat, n: nat, now: Option<CivilDate>, p: nat, r: ClaimRecord)
    returns (first: string, from: nat, pieces: seq<string>)
    requires index < |ReadLines(text)| && n < |ReadLines(text)[index].segments|
    requires FindingAt(ReadLines(text), index, ReadLines(text)[index].segments[n], now, p).records == [r]
    ensures Gathered(r, first, from, pieces)
  {
    hide At, SpanLimit, ReadHead, ParseDate, BodyStop, RecordOf, TrimEnd, Trim, Joined, Continuation, ReadLines, Opens, Runs, IsIsoShaped;
    var lines := ReadLines(text);
    var segment := lines[index].segments[n];
    var limit := SpanLimit(segment.text, p);
    var head := ReadHead(segment.text[p + |KEYWORD|..limit]).value;
    var date := ParseDate(head.date).value;
    var start := p + |KEYWORD| + head.bodyStart;
    var end := BodyStop(segment.text, start, limit);
    from := |KEYWORD| + head.bodyStart;
    first := TrimEnd(segment.text[p..end]);
    pieces := if end == |segment.text| && !segment.bounded then Continuation(lines, lines[index].quoted, index + 1) else [];
    SegmentIsTagless(text, index, n);
    FirstPieceOpens(segment.text, p, date);
    SegmentIsFeedless(text, index, n);
    PartIsFeedless(segment.text, p, end);
    ContinuationRuns(text, lines[index].quoted, index + 1);
    assert Runs([]) by { NoneRuns(); }
    EndDoesNotMatter(date, Joined([first] + pieces, "\n"), Joined([Trim(first[from..])] + pieces, " "), end, lines[index].number);
    assert segment.text[start..end] == segment.text[p..end][start - p..];
  }

  lemma NoneRuns()
    ensures Runs([])
  {
  }

  lemma SegmentIsTagless(text: string, index: nat, n: nat)
    requires index < |ReadLines(text)| && n < |ReadLines(text)[index].segments|
    ensures Tagless(ReadLines(text)[index].segments[n].text)
  {
    hide Lines, StripQuote, SegmentsFrom, IsStopLine, Excluded, Tagless, StartsWith;
    var stripped := StripQuote(Lines(text)[index]).0;
    SegmentsAreTagless(stripped, StartsWith(stripped, "|"), 0, n);
  }

  lemma PartIsFeedless(text: string, p: nat, end: nat)
    requires Feedless(text) && p <= end <= |text|
    ensures Feedless(TrimEnd(text[p..end]))
  {
    hide TrimEnd;
    TrimEndInside(text[p..end], 0);
  }

  lemma {:induction false} SegmentsAreFeedless(line: string, cells: bool, start: nat, n: nat)
    requires Feedless(line) && start <= |line| && n < |SegmentsFrom(line, cells, start)|
    ensures Feedless(SegmentsFrom(line, cells, start)[n].text)
    decreases |line| - start
  {
    hide BoundaryAt, FirstBoundary;
    if n > 0 {
      var at := FirstBoundary(line, cells, start).value;
      SegmentsAreFeedless(line, cells, at + BoundaryAt(line, cells, at).value, n - 1);
    }
  }

  lemma SegmentIsFeedless(text: string, index: nat, n: nat)
    requires index < |ReadLines(text)| && n < |ReadLines(text)[index].segments|
    ensures Feedless(ReadLines(text)[index].segments[n].text)
  {
    hide Lines, StripQuote, SegmentsFrom, IsStopLine, Excluded, StartsWith;
    LinesHaveNoFeed(text, index);
    var raw := Lines(text)[index];
    var k := QuotePrefix(raw);
    SegmentsAreFeedless(StripQuote(raw).0, StartsWith(StripQuote(raw).0, "|"), 0, n);
  }

  /** Every record any scan makes was gathered from an opening line and the pieces after it. */
  lemma RecordIsGathered(text: string, now: Option<CivilDate>, i: nat) returns (first: string, from: nat, pieces: seq<string>)
    requires i < |Scan(text, now).records|
    ensures Gathered(Scan(text, now).records[i], first, from, pieces)
  {
    hide LineFindings, ReadLines, RawOccurrences, FindingAt, Gathered;
    var index, n, p := RecordInLines(ReadLines(text), now, 0, i);
    first, from, pieces := FindingIsGathered(text, index, n, now, p, Scan(text, now).records[i]);
  }

  // ------------------------------------------------------------------ scanned again

  ghost predicate EndsWithFeed(text: string) { text != [] && text[|text| - 1] == '\n' }

  /** What is left of a body when the empty piece at its end is dropped. */
  function Unblanked(pieces: seq<string>): seq<string> {
    if pieces != [] && pieces[|pieces| - 1] == [] then pieces[..|pieces| - 1] else pieces
  }

  lemma WholePieces(first: string, date: CivilDate, from: nat, pieces: seq<string>)
    requires Opens(first, date, from) && Feedless(first) && Runs(pieces)
    ensures forall k :: 0 <= k < |Unblanked(pieces)| ==> Continues(Unblanked(pieces)[k])
    ensures forall k :: 0 <= k < |[first] + Unblanked(pieces)| ==> Whole(([first] + Unblanked(pieces))[k])
  {
    hide At, Clean, IsStopLine, Heads, LineBreakAt, IsWhite;
    ReturnIsWhite();
  }

  lemma ReturnIsWhite()
    ensures IsWhite('\r') && IsWhite('\n')
  {
  }

  lemma {:induction false} JoinedEnds(parts: seq<string>)
    requires parts != [] && parts[|parts| - 1] != []
    ensures Joined(parts, "\n") != [] && Joined(parts, "\n")[|Joined(parts, "\n")| - 1] == parts[|parts| - 1][|parts[|parts| - 1]| - 1]
  {
  }

  /** The source of a record ends in a line feed exactly when the last thing its body ran into was empty. */
  lemma SourceEnds(first: string, date: CivilDate, from: nat, pieces: seq<string>)
    requires Opens(first, date, from) && Feedless(first) && Runs(pieces)
    ensures var source, kept := Joined([first] + pieces, "\n"), Joined([first] + Unblanked(pieces), "\n");
            if Unblanked(pieces) == pieces then source == kept && !EndsWithFeed(source)
            else EndsWithFeed(source) && source == kept + "\n"
    ensures Unblanked(pieces) != pieces ==>
              forall b :: Joined([b] + pieces, " ") == Joined([b] + Unblanked(pieces), " ") + " "
  {
    hide At, Clean, IsStopLine, Heads, LineBreakAt, IsWhite, Whole, Opens, Runs, Continues;
    WholePieces(first, date, from, pieces);
    var n := |pieces| - 1;
    if Unblanked(pieces) == pieces {
      var parts := [first] + pieces;
      LastIsWhole(parts);
      JoinedEnds(parts);
    } else {
      JoinedWithEmpty(first, pieces, "\n");
      forall b ensures Joined([b] + pieces, " ") == Joined([b] + Unblanked(pieces), " ") + " " { JoinedWithEmpty(b, pieces, " "); }
    }
  }

  lemma LastIsWhole(parts: seq<string>)
    requires parts != [] && forall k :: 0 <= k < |parts| ==> Whole(parts[k])
    ensures parts[|parts| - 1] != [] && parts[|parts| - 1][|parts[|parts| - 1]| - 1] != '\n'
  {
    assert Whole(parts[|parts| - 1]);
  }

  lemma JoinedWithEmpty(first: string, pieces: seq<string>, separator: string)
    requires pieces != [] && pieces[|pieces| - 1] == []
    ensures Joined([first] + pieces, separator) == Joined([first] + pieces[..|pieces| - 1], separator) + separator
  {
    var parts := [first] + pieces;
    assert parts[..|parts| - 1] == [first] + pieces[..|pieces| - 1];
    assert Joined(parts, separator) == Joined(parts[..|parts| - 1], separator) + separator + [];
  }

  /** A token is read wherever a space follows the body. */
  lemma TokenBeforeSpace(body: string, open: nat)
    requires open <= |body| && TokenAt(body, open).Some?
    ensures TokenAt(body + " ", open).Some?
  {
    hide IsTokenKeyword, LeadingWhite, ParseHorizon, IsWhite;
    var more := body + " ";
    var word := open + 1 + |TOKEN_KEYWORD|;
    var colon := word + LeadingWhite(body[word..]);
    assert more[open + 1..word] == body[open + 1..word];
    ColonIsReached(body, word, colon);
    var close := FindChar(body, ')', colon + 1).value;
    FindCharIs(more, ')', colon + 1, close);
    assert more[colon + 1..close] == body[colon + 1..close];
  }

  lemma ColonIsReached(body: string, word: nat, colon: nat)
    requires word <= colon < |body| && colon == word + LeadingWhite(body[word..]) && body[colon] == ':'
    ensures LeadingWhite((body + " ")[word..]) == colon - word
  {
    hide IsWhite, LeadingWhite;
    var rest, more := body[word..], (body + " ")[word..];
    ColonIsNotBlank();
    assert forall i :: 0 <= i < |rest| ==> more[i] == rest[i];
    assert rest[colon - word] == body[colon];
    LeadingWhiteIs(more, colon - word);
  }

  lemma ColonIsNotBlank()
    ensures !IsWhite(':')
  {
  }

  lemma FindCharIs(text: string, c: char, from: nat, at: nat)
    requires from <= at < |text| && text[at] == c && forall p :: from <= p < at ==> text[p] != c
    ensures FindChar(text, c, from) == Some(at)
  {
  }

  lemma {:induction false} NoTokenBeforeSpace(body: string, upto: nat)
    requires upto <= |body| && LastToken(body + " ", upto).None?
    ensures LastToken(body, upto).None?
  {
    hide TokenAt;
    if upto > 0 {
      NoTokenBeforeSpace(body, upto - 1);
      if TokenAt(body, upto - 1).Some? { TokenBeforeSpace(body, upto - 1); }
    }
  }

  /** Without the space its empty piece left at the end of the body, a malformed record is the same. */
  lemma MalformedDropsSpace(date: CivilDate, source: string, other: string, body: string, line: nat)
    requires RecordOf(date, Span(source, body + " ", 0), line).malformed
    ensures RecordOf(date, Span(other, body, 0), 1) == RecordOf(date, Span(source, body + " ", 0), line).(source := other, line := 1)
  {
    hide Collapse, LastToken;
    var n := |body|;
    OneTokenLess(body);
    NoTokenBeforeSpace(body, n);
    SpaceCollapses(body);
  }

  lemma OneTokenLess(body: string)
    ensures LastToken(body + " ", |body| + 1).None? ==> LastToken(body + " ", |body|).None?
  {
    hide TokenAt;
  }

  lemma SpaceCollapses(body: string)
    ensures Collapse(body + " ") == Collapse(body)
  {
    assert (body + " ")[..|body|] == body;
  }

  lemma SameSpan(date: CivilDate, source: string, body: string, line: nat)
    ensures RecordOf(date, Span(source, body, 0), 1) == RecordOf(date, Span(source, body, 0), line).(line := 1)
  {
    hide Collapse, LastToken;
  }

  lemma KeptRecord(r: ClaimRecord, first: string, from: nat, pieces: seq<string>)
    requires Gathered(r, first, from, pieces) && r.malformed
    ensures from <= |first|
    ensures var source, body := Joined([first] + Unblanked(pieces), "\n"), Joined([Trim(first[from..])] + Unblanked(pieces), " ");
            RecordOf(r.date, Span(source, body, 0), 1) == r.(source := source, line := 1)
  {
    hide Joined, RecordOf, Trim, Runs, At, Heads, LineBreakAt, IsWhite;
    SourceEnds(first, r.date, from, pieces);
    var body := Trim(first[from..]);
    if Unblanked(pieces) == pieces {
      SameSpan(r.date, Joined([first] + pieces, "\n"), Joined([body] + pieces, " "), r.line);
      RecordHasSource(r.date, Joined([first] + pieces, "\n"), Joined([body] + pieces, " "), r.line);
    } else {
      MalformedDropsSpace(r.date, Joined([first] + pieces, "\n"), Joined([first] + Unblanked(pieces), "\n"),
                          Joined([body] + Unblanked(pieces), " "), r.line);
    }
  }

  lemma RecordHasSource(date: CivilDate, source: string, body: string, line: nat)
    ensures RecordOf(date, Span(source, body, 0), line).source == source
  {
    hide Collapse, LastToken;
  }

  /** The lines of what was gathered, with or without the feed an empty piece leaves. */
  lemma GatheredLines(first: string, date: CivilDate, from: nat, pieces: seq<string>)
    requires Opens(first, date, from) && Feedless(first) && Runs(pieces)
    ensures Lines(Joined([first] + pieces, "\n")) == [first] + Unblanked(pieces)
    ensures forall k :: 0 <= k < |Unblanked(pieces)| ==> Continues(Unblanked(pieces)[k])
  {
    hide Opens, Runs, Continues, Joined, Whole, Lines, Unblanked, Feedless;
    WholePieces(first, date, from, pieces);
    LinesJoined([first] + Unblanked(pieces));
    SourceEnds(first, date, from, pieces);
  }

  /** Any malformed record, rendered and scanned again, is that record alone; only a line feed that ended
      its source is gone from it. */
  lemma MalformedRescans(text: string, now: Option<CivilDate>, i: nat)
    requires i < |Scan(text, now).records| && Scan(text, now).records[i].malformed
    ensures var r := Scan(text, now).records[i];
            var source := if EndsWithFeed(r.source) then r.source[..|r.source| - 1] else r.source;
            && Scan(r.Render(), None).records == [r.(source := source, line := 1)]
            && Scan(r.Render(), None).rejections == []
  {
    hide Opens, Runs, Continues, Joined, Lines, Unblanked, Feedless, LineFindings, ReadLines, RawOccurrences, RecordOf, Trim;
    var r := Scan(text, now).records[i];
    var first, from, pieces := RecordIsGathered(text, now, i);
    KeptRecord(r, first, from, pieces);
    var source, body := Joined([first] + Unblanked(pieces), "\n"), Trim(first[from..]);
    RecordHasSource(r.date, Joined([first] + pieces, "\n"), Joined([body] + pieces, " "), r.line);
    SourceEnds(first, r.date, from, pieces);
    GatheredLines(first, r.date, from, pieces);
    OpenedScan(r.source, first, r.date, from, Unblanked(pieces), None);
    EndDoesNotMatter(r.date, source, Joined([body] + Unblanked(pieces), " "), |first|, 1);
  }

  /** Of any document: a record, rendered and scanned, comes back as it was exactly when its source does
      not end in a line feed, for a malformed record, and when its claim is clean, for any other. */
  lemma RenderingIsAFixpoint(text: string, now: Option<CivilDate>, i: nat)
    requires i < |Scan(text, now).records|
    ensures var r := Scan(text, now).records[i];
            ComesBack(r) <==> if r.malformed then !EndsWithFeed(r.source) else Clean(r.claim)
  {
    hide Scan, Clean, Collapse;
    var r := Scan(text, now).records[i];
    if r.malformed {
      MalformedRescans(text, now, i);
    } else {
      ScannedIsNormal(text, now, i);
      ComesBackExactly(r);
    }
  }
}
