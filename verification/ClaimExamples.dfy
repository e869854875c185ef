/** Three documents that show the scanner's promises need their conditions
    (crates/aep-backend-markdown/src/claim.rs:228-238, 300-302, 376-411, 576-673). */
module ClaimExamples {
  import opened Wrappers
  import opened Texts
  import opened Dates
  import opened ClaimLines
  import opened Claims
  import opened ClaimCounting
  import opened ClaimAccounting
  import opened ClaimFences
  import opened ClaimRoundTrip
  import opened ClaimWrapping
  import opened ClaimVerbatim

  // ------------------------------------------------------------------ a fence only the scanner sees

  const TABBED_FENCE := ">\t> ```"

  /** An annotation below a fence that only one reader sees, and one that both do. */
  function Misread(date: CivilDate): string { TABBED_FENCE + "\n" + (FENCE + "\n" + Written(date, " x")) }

  lemma LinesCons(line: string, rest: string)
    requires forall i :: 0 <= i < |line| ==> line[i] != '\n' && line[i] != '\r'
    ensures Lines(line + "\n" + rest) == [line] + Lines(rest)
  {
    var text := line + "\n" + rest;
    assert text[|line|] == '\n' && forall i :: 0 <= i < |line| ==> text[i] == line[i];
    assert FindChar(text, '\n', 0) == Some(|line|);
    assert text[..|line|] == line && text[|line| + 1..] == rest;
  }

  lemma ScannerSeesTheFence()
    ensures IsMarker(TABBED_FENCE) && IsMarker(FENCE)
  {
    hide IsMarker;
    var line := TABBED_FENCE;
    assert line[..4] == ">\t> " && line[4..] == FENCE && FENCE[0..] == FENCE;
    QuoteIs(line, 4);
    QuoteIs(FENCE, 0);
    MarkerLooksPast(line);
    MarkerLooksPast(FENCE);
  }

  lemma QuoteIs(line: string, n: nat)
    requires n <= |line| && forall k :: 0 <= k < n ==> IsWhite(line[k]) || line[k] == '>'
    requires n < |line| ==> !IsWhite(line[n]) && line[n] != '>'
    ensures QuoteLength(line) == n
  {
    hide IsWhite;
    var m := QuoteLength(line);
    assert !(m < n) && !(n < m);
  }

  lemma CounterMissesTheFence()
    ensures !IsRawMarker(TABBED_FENCE) && IsRawMarker(FENCE)
  {
    var line := TABBED_FENCE;
    assert TrimStart(line) == line;
    assert line[1..] == "\t> ```" && StripMarks(line) == "\t> ```";
    assert "\t> ```"[1..] == "> ```" && TrimStart("\t> ```") == "> ```";
    assert "> ```"[0..3][0] == '>';
    assert TrimStart(FENCE) == FENCE && StripMarks(FENCE) == FENCE;
  }

  lemma OpeningHasNoFeed(date: CivilDate, i: nat)
    requires Dated(date) && i < |Written(date, " x")|
    ensures Written(date, " x")[i] != '\n'
  {
    hide Written, CivilDate.Exists;
    WrittenShape(date, " x");
    if i < BODY_START {
      WrittenPlain(date, " x", i);
    } else {
      assert Written(date, " x")[i] == Written(date, " x")[BODY_START..][i - BODY_START] == " x"[i - BODY_START];
    }
  }

  lemma MisreadLines(date: CivilDate)
    requires Dated(date)
    ensures Lines(Misread(date)) == [TABBED_FENCE, FENCE, Written(date, " x")]
    ensures forall i :: 0 <= i < |Written(date, " x")| ==> Written(date, " x")[i] != '\n'
  {
    hide Written, Lines, CivilDate.Exists;
    var text := Written(date, " x");
    WrittenShape(date, " x");
    forall i | 0 <= i < |text| ensures text[i] != '\n' { OpeningHasNoFeed(date, i); }
    LinesCons(TABBED_FENCE, FENCE + "\n" + text);
    LinesCons(FENCE, text);
    OneLine(text);
  }

  /** The counter keeps the line the scanner drops, and drops the annotation the scanner reads. */
  lemma MisreadCount(date: CivilDate)
    requires Dated(date)
    ensures RawOccurrences(Misread(date)) == 0
  {
    hide Written, Lines, IsRawMarker, RawCount, Misread;
    MisreadLines(date);
    ScannerSeesTheFence();
    CounterMissesTheFence();
    var raws := Lines(Misread(date));
    assert !RawFencedBefore(raws, 0) && !RawFencedBefore(raws, 1);
    assert RawFencedBefore(raws, 2);
    assert Kept(raws, 3) == [];
    assert Kept(raws, 2) == Kept(raws, 3) by { assert RawExcluded(raws, 2); }
    assert Kept(raws, 1) == Kept(raws, 2) by { assert RawExcluded(raws, 1); }
    assert Kept(raws, 0) == TABBED_FENCE + ("\n" + []) by { assert !RawExcluded(raws, 0); }
    KeptLineCounts(TABBED_FENCE, []);
    EmptyCount();
    forall p | 0 <= p < |TABBED_FENCE| ensures !At(TABBED_FENCE, KEYWORD, p) {
      if At(TABBED_FENCE, KEYWORD, p) { KeywordChars(TABBED_FENCE, p); }
    }
    NothingCounted(TABBED_FENCE, "\n" + [], 0, |TABBED_FENCE|);
    assert RawCount(TABBED_FENCE, "\n" + [], |TABBED_FENCE|) == 0 by { CountEnds(TABBED_FENCE, "\n" + []); }
  }

  lemma CountEnds(text: string, tail: string)
    ensures RawCount(text, tail, |text|) == 0
  {
  }

  lemma {:induction false} OpeningLineIsRecorded(lines: seq<Line>, index: nat, date: CivilDate, body: string)
    requires index < |lines| && Dated(date)
    requires lines[index].segments == SegmentsFrom(Written(date, body), false, 0)
    ensures |SegmentFindings(lines, index, None, 0).records| >= 1
  {
    hide Written, FindingAt, SegmentsFrom, FirstEnd;
    var text := Written(date, body);
    HeadIsUncut(date, body);
    FirstOfSegments(text);
    PrefixIsWritten(date, body, FirstEnd(text));
    FirstFinding(lines, index, FirstSegment(text), None, date, body[..FirstEnd(text) - BODY_START]);
  }

  /** Where the readers' fences differ, the scan can report more records than the counter counts, and
      its divergence then stops at zero. */
  lemma FencesCanDisagree(date: CivilDate)
    requires Dated(date)
    ensures var scan := Scan(Misread(date), None);
            |scan.records| >= 1 && scan.rawOccurrences == 0 && scan.Divergence() == 0
    ensures !FencesAgree(Lines(Misread(date)))
  {
    hide Written, Lines, IsMarker, IsRawMarker, RawOccurrences, SegmentFindings, SplitSegments, IsStopLine, Misread, StripQuote;
    var text := Misread(date);
    MisreadLines(date);
    MisreadCount(date);
    ScannerSeesTheFence();
    CounterMissesTheFence();
    var raws, lines := Lines(text), ReadLines(text);
    assert FencedBefore(raws, 0) == false && FencedBefore(raws, 1) == true && FencedBefore(raws, 2) == false;
    assert Excluded(raws, 0) && !RawExcluded(raws, 0);
    LastLineIsRead(raws, date);
    assert lines[2] == ReadLine(raws, 2);
    OpeningLineIsRecorded(lines, 2, date, " x");
    assert |LineFindings(lines, None, 2).records| >= 1;
    assert |LineFindings(lines, None, 1).records| >= 1;
    assert |LineFindings(lines, None, 0).records| >= 1;
  }

  lemma LastLineIsRead(raws: seq<string>, date: CivilDate)
    requires Dated(date) && |raws| == 3 && raws[2] == Written(date, " x") && !FencedBefore(raws, 2)
    requires forall i :: 0 <= i < |raws[2]| ==> raws[2][i] != '\n'
    ensures ReadLine(raws, 2).segments == SegmentsFrom(Written(date, " x"), false, 0)
  {
    hide Written, SegmentsFrom, IsStopLine, FencedBefore, IsMarker, IsWhite;
    var text := raws[2];
    WrittenShape(date, " x");
    KeywordChars(text, 0);
    ReadOneLine(text);
    MarksAreNotWhite();
    assert TrimStart(text) == text;
    assert text[0..1][0] == text[0];
  }

  // ------------------------------------------------------------------ a claim the scan itself makes unclean

  lemma {:induction false} CollapseWithoutWhite(text: string)
    requires forall i :: 0 <= i < |text| ==> !IsWhite(text[i])
    ensures Collapse(text) == text
  {
    if text != [] { CollapseWithoutWhite(text[..|text| - 1]); }
  }

  /** A body whose token splits a keyword. */
  function Split(horizon: Horizon): string { " Ver" + TokenText(horizon) + "ify:" }

  lemma SplitInside(horizon: Horizon, i: nat)
    requires horizon.Accepted() && i < |Split(horizon)|
    ensures var c := Split(horizon)[i]; c != '<' && c != '\n' && c != 'D' && (i != 1 ==> c != 'V')
  {
    hide TokenText, Horizon.Accepted;
    var k := TokenText(horizon);
    if i < 4 {
      assert Split(horizon)[i] == " Ver"[i];
    } else if i < 4 + |k| {
      TokenIsInert(horizon, i - 4);
      assert Split(horizon)[i] == k[i - 4];
    } else {
      assert Split(horizon)[i] == "ify:"[i - 4 - |k|];
    }
  }

  lemma SplitBody(date: CivilDate, horizon: Horizon, q: nat)
    requires Dated(date) && horizon.Accepted() && BODY_START <= q < |Written(date, Split(horizon))|
    ensures var c := Written(date, Split(horizon))[q]; c != '<' && c != '\n' && c != 'D' && (q != CLAIM_START ==> c != 'V')
  {
    hide Written, Split, Horizon.Accepted, CivilDate.Exists;
    WrittenBody(date, Split(horizon), q);
    SplitInside(horizon, q - BODY_START);
  }

  lemma SplitShape(date: CivilDate, horizon: Horizon, q: nat)
    requires Dated(date) && horizon.Accepted() && q < |Written(date, Split(horizon))|
    ensures var text := Written(date, Split(horizon));
            && text[q] != '<' && text[q] != '\n' && (q >= BODY_START ==> text[q] != 'D')
            && (q >= BODY_START && q != CLAIM_START ==> text[q] != 'V')
  {
    hide Written, Split, Horizon.Accepted, CivilDate.Exists;
    if q < BODY_START { WrittenPlain(date, Split(horizon), q); } else { SplitBody(date, horizon, q); }
  }

  /** The token cuts the keyword apart. */
  lemma SplitOpens(date: CivilDate, horizon: Horizon)
    requires Dated(date) && horizon.Accepted()
    ensures var text := Written(date, Split(horizon)); |text| > 24 && text[24] == '('
  {
    hide Written, TokenText, Horizon.Accepted, CivilDate.Exists;
    var body, k := Split(horizon), TokenText(horizon);
    WrittenShape(date, body);
    TokenTextShape(horizon);
    assert Written(date, body)[24] == Written(date, body)[BODY_START..][4] == body[4] == k[0];
  }

  lemma SplitIsUncut(date: CivilDate, horizon: Horizon)
    requires Dated(date) && horizon.Accepted()
    ensures var text := Written(date, Split(horizon)); FirstEnd(text) == |text| >= BODY_START && LoneEnd(text) == |text|
  {
    hide Written, Split, At, LineBreakAt;
    var text := Written(date, Split(horizon));
    WrittenShape(date, Split(horizon));
    if FirstBoundary(text, false, 0).Some? {
      SplitShape(date, horizon, FirstBoundary(text, false, 0).value);
    }
    assert text[..|text|] == text;
    var stop := LoneEnd(text);
    if stop < |text| {
      SplitShape(date, horizon, stop);
      SplitOpens(date, horizon);
      DueStartsWithD(text, stop);
      if At(text, KEYWORD, stop) { KeywordChars(text, stop); }
    }
  }

  lemma SplitTrims(horizon: Horizon)
    ensures Trim(Split(horizon)) == "Ver" + TokenText(horizon) + "ify:"
  {
    hide TokenText, IsWhite, Trim;
    var body := "Ver" + TokenText(horizon) + "ify:";
    assert Split(horizon)[1..] == body && Split(horizon)[0] == ' ' && body[0] == 'V' && body[|body| - 1] == ':';
    MarksAreNotWhite();
    ColonIsNotWhite();
    TrimIs(Split(horizon), 1, body);
  }

  lemma ColonIsNotWhite()
    ensures !IsWhite(':')
  {
  }

  lemma KeywordCollapses()
    ensures Collapse("Ver" + "ify:") == KEYWORD
  {
    hide Collapse;
    assert "Ver" + "ify:" == KEYWORD;
    CollapseWithoutWhite(KEYWORD);
  }

  lemma SplitRecord(date: CivilDate, horizon: Horizon)
    requires Dated(date) && horizon.Accepted() && FirstEnd(Written(date, Split(horizon))) >= BODY_START
    ensures var r := LoneRecord(Written(date, Split(horizon)), date); r.claim == KEYWORD && !r.malformed
  {
    hide Written, Split, TokenText, LoneEnd, FirstEnd, Collapse, RecordOf, Trim, TrimEnd;
    var text := Written(date, Split(horizon));
    WrittenShape(date, Split(horizon));
    SplitIsUncut(date, horizon);
    assert text[..|text|] == text && text[BODY_START..|text|] == Split(horizon);
    SplitTrims(horizon);
    RecordOfPrinted(date, "Ver", "ify:", horizon, TrimEnd(text), |text|, 1);
    KeywordCollapses();
  }

  /** Taking the token out of a claim can leave a keyword that was not there: this record is well formed,
      and what is printed for it does not scan back to it. */
  lemma TokenRemovalCanMakeAKeyword(date: CivilDate, horizon: Horizon)
    requires Dated(date) && horizon.Accepted()
    ensures var scan := Scan(Written(date, Split(horizon)), None);
            && scan.records != [] && scan.records[0].claim == KEYWORD && !scan.records[0].malformed
            && !ComesBack(scan.records[0])
  {
    hide Written, Split, FirstEnd, LoneRecord, Scan, ComesBack, Clean;
    var text := Written(date, Split(horizon));
    forall i | 0 <= i < |text| ensures text[i] != '\n' { SplitShape(date, horizon, i); }
    LoneScan(date, Split(horizon), None);
    SplitRecord(date, horizon);
    KeywordIsUnclean();
    RenderingIsAFixpoint(text, None, 0);
  }

  lemma KeywordIsUnclean()
    ensures !Clean(KEYWORD)
  {
    assert KEYWORD[0..|KEYWORD|] == KEYWORD;
    assert At(KEYWORD, KEYWORD, 0);
  }

  // ------------------------------------------------------------------ a line that starts with a break tag

  const TAG_LINE := "<br>bar"

  /** An annotation without a horizon, and under it a line that a break tag opens. */
  function Cut(date: CivilDate): string { Opening(date, "foo") + "\n" + TAG_LINE }

  lemma TagLineShape()
    ensures TAG_LINE[0] == '<' && |TAG_LINE| == 7 && !IsWhite('<') && !IsWhite('r') && !IsWhite('f') && !IsWhite('o')
    ensures LineBreakAt(TAG_LINE, 0) == Some(4)
  {
    assert SkipAsciiWhite(TAG_LINE, 3) == 3;
  }

  lemma TagLineRunsOn()
    ensures !IsStopLine(TAG_LINE) && !IsMarker(TAG_LINE) && StripQuote(TAG_LINE) == (TAG_LINE, false)
  {
    hide IsWhite;
    TagLineShape();
    TrimmedAlready(TAG_LINE);
    forall key | key in ["#", "|", FENCE, KEYWORD, OTHER_KEYWORD, "- ", "* ", "+ "] ensures !StartsWith(TAG_LINE, key) {
      if |key| <= 7 { assert TAG_LINE[0..|key|][0] == '<'; }
    }
  }

  lemma TagLineGivesNothing(line: Line)
    requires line.segments == SplitSegments(TAG_LINE)
    ensures line.segments != [] && PieceOf(line) == ([], false)
  {
    hide LineBreakAt, SegmentsFrom, IsWhite, IsStopLine;
    TagLineShape();
    TagLineRunsOn();
    FirstOfLine(TAG_LINE);
    assert BoundaryAt(TAG_LINE, false, 0).Some?;
    assert FirstEnd(TAG_LINE) == 0;
    AllWhite([]);
  }

  lemma FooIsClean()
    ensures Clean("foo") && forall i :: 0 <= i < 3 ==> "foo"[i] != '(' && !IsWhite("foo"[i])
  {
    forall p | 0 <= p < 3 ensures !At("foo", KEYWORD, p) && !At("foo", OTHER_KEYWORD, p) {}
  }

  lemma {:induction false} NoToken(body: string, upto: nat)
    requires upto <= |body| && forall i :: 0 <= i < |body| ==> body[i] != '('
    ensures LastToken(body, upto).None?
  {
    if upto > 0 { NoToken(body, upto - 1); }
  }

  lemma CutLines(date: CivilDate)
    requires Dated(date)
    ensures Lines(Cut(date)) == [Opening(date, "foo"), TAG_LINE] && Opens(Opening(date, "foo"), date, BODY_START)
    ensures Trim(Opening(date, "foo")[BODY_START..]) == "foo"
  {
    hide Lines, Opening, IsWhite, Opens, Clean, Trim;
    var first := Opening(date, "foo");
    FooIsClean();
    OpeningOpens(date, "foo");
    OpeningIsFeedless(date);
    FirstLine(first, TAG_LINE);
    WholeLine(TAG_LINE);
  }

  lemma OpeningIsFeedless(date: CivilDate)
    requires Dated(date)
    ensures Feedless(Opening(date, "foo")) && WithoutReturn(Opening(date, "foo")) == Opening(date, "foo")
  {
    hide Written, CivilDate.Show;
    WrittenShape(date, " foo");
    var text := Opening(date, "foo");
    assert " " + "foo" == " foo";
    forall i | 0 <= i < |text| ensures text[i] != '\n' {
      if i < BODY_START { WrittenPlain(date, " foo", i); } else { WrittenBody(date, " foo", i); }
    }
    WrittenBody(date, " foo", BODY_START + 3);
  }

  /** What the annotation gathers: its own line, and an empty piece of the next. */
  lemma CutGathers(date: CivilDate)
    requires Dated(date)
    ensures var lines, first := ReadLines(Cut(date)), Opening(date, "foo");
            && |lines| == 2 && lines[0].segments == [Segment(first, false)] && |first| >= BODY_START
            && Assemble(lines, 0, Segment(first, false), 0, BODY_START, |first|) == Span(first + "\n", "foo ", |first|)
  {
    hide Lines, Opening, IsWhite, Opens, Clean, Trim, TrimEnd, IsStopLine, StripQuote, SplitSegments, IsMarker, FencedBefore, PieceOf, BodyStop;
    var raws, lines, first := Lines(Cut(date)), ReadLines(Cut(date)), Opening(date, "foo");
    CutLines(date);
    ReadOpening(raws, date, BODY_START);
    NotFencedAfter(raws);
    TagLineRunsOn();
    TagLineGivesNothing(lines[1]);
    OpeningStops(first, date);
    assert lines[1] == Line(2, false, false, SplitSegments(TAG_LINE));
    assert Continuation(lines, false, 1) == [PieceOf(lines[1]).0];
    assert first[0..|first|] == first && first[BODY_START..|first|] == first[BODY_START..];
    assert Joined([first, []], "\n") == first + "\n" by { assert [first, []][..1] == [first]; }
    assert Joined(["foo", []], " ") == "foo" + " " by { assert ["foo", []][..1] == ["foo"]; }
    assert [first] + [[]] == [first, []] && ["foo"] + [[]] == ["foo", []];
  }

  lemma OpeningStops(first: string, date: CivilDate)
    requires Opens(first, date, BODY_START)
    ensures BodyStop(first, BODY_START, |first|) == |first| && TrimEnd(first) == first
  {
    hide At, LineBreakAt, IsWhite, Heads;
  }

  lemma NotFencedAfter(raws: seq<string>)
    requires |raws| == 2 && !IsMarker(raws[0])
    ensures !FencedBefore(raws, 0) && !FencedBefore(raws, 1)
  {
    hide IsMarker;
  }

  /** Below an annotation, a line that a break tag opens leaves an empty piece and so a line feed at the end
      of the source, which is gone when the record is rendered and scanned again. */
  lemma LeadingTagLeavesAFeed(date: CivilDate)
    requires Dated(date)
    ensures var scan := Scan(Cut(date), None);
            && scan.records != [] && scan.records[0].malformed && scan.records[0].source == Opening(date, "foo") + "\n"
            && !ComesBack(scan.records[0])
            && Scan(scan.records[0].Render(), None).records == [scan.records[0].(source := Opening(date, "foo"), line := 1)]
  {
    hide Opening, LineFindings, ReadLines, RawOccurrences, ComesBack, FindingAt, Assemble, Lines, Scan;
    var lines, first := ReadLines(Cut(date)), Opening(date, "foo");
    CutGathers(date);
    OpeningIsWrittenFoo(date);
    FirstFinding(lines, 0, Segment(first, false), None, date, " foo");
    CutRecord(date, first + "\n", |first|, lines[0].number);
    FirstRecord(Cut(date), Segment(first, false));
    RenderingIsAFixpoint(Cut(date), None, 0);
    MalformedRescans(Cut(date), None, 0);
    var r := Scan(Cut(date), None).records[0];
    LineOfRecord(date, first + "\n", "foo ", |first|, lines[0].number);
    assert r.source[..|r.source| - 1] == first;
  }

  lemma OpeningIsWrittenFoo(date: CivilDate)
    ensures Opening(date, "foo") == Written(date, " foo")
  {
    assert " " + "foo" == " foo";
  }

  lemma LineOfRecord(date: CivilDate, source: string, body: string, end: nat, line: nat)
    ensures RecordOf(date, Span(source, body, end), line).line == line
  {
    hide Collapse, LastToken;
  }

  lemma CutRecord(date: CivilDate, source: string, end: nat, line: nat)
    ensures var r := RecordOf(date, Span(source, "foo ", end), line); r.malformed && r.source == source
  {
    hide Collapse, LastToken;
    NoToken("foo ", 4);
  }

  lemma FirstRecord(text: string, segment: Segment)
    requires ReadLines(text) != [] && ReadLines(text)[0].segments == [segment] && segment.text != []
    requires |FindingAt(ReadLines(text), 0, segment, None, 0).records| == 1
    ensures Scan(text, None).records != []
    ensures Scan(text, None).records[0] == FindingAt(ReadLines(text), 0, segment, None, 0).records[0]
  {
    hide ReadLines, FindingAt, RawOccurrences;
  }

  // ------------------------------------------------------------------ how a record is written

  lemma DigitsOfADate()
    ensures Decimal.Pad(2026, 4) == "2026" && Decimal.Pad(8, 2) == "08" && Decimal.Pad(1, 2) == "01" && Decimal.Print(7) == "7"
  {
    assert Decimal.Print(2) == "2" && Decimal.Print(8) == "8" && Decimal.Print(1) == "1" && Decimal.Print(7) == "7";
    assert Decimal.Print(20) == "20";
    assert Decimal.Print(202) == "202";
    assert Decimal.Print(2026) == "2026";
    assert Decimal.Zeros(1) == "0" by { assert Decimal.Zeros(0) == ""; }
  }

  lemma DateExample()
    ensures CivilDate(2026, 8, 1).Show() == "2026-08-01" && Horizon(7).Show() == "7d"
  {
    hide Decimal.Pad, Decimal.Print;
    DigitsOfADate();
  }

  lemma Marks()
    ensures KEYWORD + " " == "Verify: " && " " + [SEPARATOR] + " " == " \U{2014} " && " (" + TOKEN_KEYWORD + ": " == " (horizon: "
  {
    assert |KEYWORD + " "| == 8 && |" (" + TOKEN_KEYWORD + ": "| == 11;
  }

  lemma Regroup(a: string, b: string, c: string, d: string, e: string, f: string, g: string, h: string)
    ensures a + b + c + d + e + f + g + h == (a + b) + c + (d + e + f) + g + h
  {
  }

  /** How a well-formed record is written. */
  lemma RenderedExactly(r: ClaimRecord)
    requires !r.malformed
    ensures r.Render() == "Verify: " + r.date.Show() + " \U{2014} " + r.claim + " (horizon: " + r.horizon.Show() + ")"
  {
    hide CivilDate.Show, Horizon.Show;
    Marks();
    var date, claim, days := r.date.Show(), r.claim, r.horizon.Show();
    Regroup(KEYWORD, " ", date, " ", [SEPARATOR], " ", claim, " (" + TOKEN_KEYWORD + ": " + days + ")");
    assert " (" + TOKEN_KEYWORD + ": " + days + ")" == " (horizon: " + days + ")";
  }
}
