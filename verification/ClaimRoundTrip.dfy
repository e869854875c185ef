/** Printing a record and scanning what was printed (crates/aep-backend-markdown/src/claim.rs:228-238):
    the record comes back exactly when its claim holds nothing a reader would cut it at. */
module ClaimRoundTrip {
  import opened Wrappers
  import opened Texts
  import opened Dates
  import opened ClaimLines
  import opened Claims
  import opened ClaimCounting
  import opened ClaimAccounting
  import opened ClaimFences
  import Decimal

  /** An annotation's text up to and including its em-dash, and then its body. */
  function Written(date: CivilDate, body: string): string {
    KEYWORD + " " + date.Show() + " " + [SEPARATOR] + body
  }

  const BODY_START := 20

  function TokenText(horizon: Horizon): string { "(" + TOKEN_KEYWORD + ": " + horizon.Show() + ")" }

  /** The body a well-formed record is printed with. */
  function PrintedBody(claim: string, horizon: Horizon): string { " " + claim + " " + TokenText(horizon) }

  lemma RenderIsWritten(r: ClaimRecord)
    requires !r.malformed
    ensures r.Render() == Written(r.date, PrintedBody(r.claim, r.horizon))
  {
    hide CivilDate.Show, Horizon.Show;
    var head := KEYWORD + " " + r.date.Show() + " " + [SEPARATOR];
    Regroup(head, " ", r.claim, " (", TOKEN_KEYWORD + ": " + r.horizon.Show() + ")");
    assert " (" == " " + "(";
  }

  lemma Regroup(a: string, b: string, c: string, d: string, e: string)
    ensures a + b + c + d + e == a + (b + c + (d + e))
  {
  }

  ghost predicate Dated(date: CivilDate) { date.Exists() && date.year <= 9999 }

  // ------------------------------------------------------------------ reading the head back

  lemma WrittenShape(date: CivilDate, body: string)
    requires Dated(date)
    ensures var text := Written(date, body);
            && |text| == BODY_START + |body| && text[BODY_START..] == body
            && At(text, KEYWORD, 0) && text[7..] == " " + date.Show() + " " + [SEPARATOR] + body
  {
    hide CivilDate.Show;
    ShownDateIsParsed(date);
    var text := Written(date, body);
    assert text[0..|KEYWORD|] == KEYWORD;
  }

  /** The body of an annotation, and nothing more about its text. */
  lemma WrittenBody(date: CivilDate, body: string, q: nat)
    requires Dated(date) && BODY_START <= q < |Written(date, body)|
    ensures |Written(date, body)| == BODY_START + |body|
    ensures Written(date, body)[q] == body[q - BODY_START]
  {
    hide CivilDate.Show, At, Written, CivilDate.Exists;
    WrittenShape(date, body);
    assert Written(date, body)[q] == Written(date, body)[BODY_START..][q - BODY_START];
  }

  /** The fixed part of an annotation holds no break tag, line feed, fence or quote. */
  lemma WrittenPlain(date: CivilDate, body: string, i: nat)
    requires Dated(date) && i < BODY_START
    ensures i < |Written(date, body)|
    ensures var c := Written(date, body)[i]; c != '<' && c != '\n' && c != '`' && (i > 0 ==> c != 'V')
  {
    hide CivilDate.Show, Decimal.AllDigits;
    ShownDateIsParsed(date);
    WrittenShape(date, body);
    var text, rest := Written(date, body), " " + date.Show() + " " + [SEPARATOR] + body;
    if i >= 7 {
      assert text[i] == text[7..][i - 7] == rest[i - 7];
      if 8 <= i < 18 {
        assert rest[i - 7] == date.Show()[i - 8];
        IsoIsPlain(date.Show(), i - 8);
      }
    } else {
      assert text[i] == KEYWORD[i];
    }
  }

  lemma IsoIsPlain(date: string, i: nat)
    requires IsIsoShaped(date) && i < DATE_LEN
    ensures date[i] == '-' || Decimal.IsDigit(date[i])
  {
    if i < 4 { assert date[..4][i] == date[i]; }
    if 4 < i < 7 { assert date[5..7][i - 5] == date[i]; }
    if 7 < i { assert date[8..][i - 8] == date[i]; }
  }

  lemma HeadOfWritten(date: CivilDate, body: string)
    requires Dated(date)
    ensures ReadHead(Written(date, body)[7..]) == Some(Head(date.Show(), 13, true))
  {
    hide CivilDate.Show, SkipBlanks, Decimal.AllDigits, IsIsoShaped;
    WrittenShape(date, body);
    ShownDateIsParsed(date);
    IsoHasTen(date.Show());
    var rest := " " + date.Show() + " " + [SEPARATOR] + body;
    IsoStartsWithDigit(date.Show());
    assert rest[1..11] == date.Show() && rest[1] == date.Show()[0];
    SkipBlanksIs(rest, 0, 1);
    SkipBlanksIs(rest, 11, 12);
    assert Written(date, body)[7..] == rest;
  }

  lemma IsoHasTen(date: string)
    requires IsIsoShaped(date)
    ensures |date| == DATE_LEN
  {
  }

  /** A segment that opens with an annotation contributes its record first. */
  lemma FirstFinding(lines: seq<Line>, index: nat, segment: Segment, now: Option<CivilDate>, date: CivilDate, body: string)
    requires index < |lines| && Dated(date) && segment.text == Written(date, body) && (now.Some? ==> !date.After(now.value))
    ensures |segment.text| >= BODY_START
    ensures FindingAt(lines, index, segment, now, 0)
            == Findings([RecordOf(date, Assemble(lines, index, segment, 0, BODY_START, |segment.text|), lines[index].number)], [])
  {
    hide CivilDate.Show, ReadHead, RecordOf, Assemble, ParseDate, IsIsoShaped, Written, At;
    WrittenShape(date, body);
    HeadOfWritten(date, body);
    ShownDateIsParsed(date);
    assert SpanLimit(segment.text, 0) == |segment.text|;
    assert segment.text[7..|segment.text|] == segment.text[7..];
  }

  /** Alone on its line, an annotation is its own text. */
  lemma AloneSpan(line: Line, segment: Segment)
    requires |segment.text| >= BODY_START
    ensures var end := BodyStop(segment.text, BODY_START, |segment.text|);
            Assemble([line], 0, segment, 0, BODY_START, |segment.text|)
            == Span(TrimEnd(segment.text[..end]), Trim(segment.text[BODY_START..end]), end)
  {
    hide BodyStop, TrimEnd, Trim, PieceOf;
    var end := BodyStop(segment.text, BODY_START, |segment.text|);
    assert Continuation([line], line.quoted, 1) == [];
    var source, body := [TrimEnd(segment.text[0..end])], [Trim(segment.text[BODY_START..end])];
    assert source + [] == source && body + [] == body;
    assert segment.text[0..end] == segment.text[..end];
  }

  // ------------------------------------------------------------------ reading the token back

  lemma {:induction false} LastTokenIs(body: string, from: nat, upto: nat)
    requires from < upto <= |body| && TokenAt(body, from).Some?
    requires forall q :: from < q < upto ==> body[q] != '('
    ensures LastToken(body, upto) == TokenAt(body, from)
  {
    hide IsTokenKeyword, ParseHorizon, LeadingWhite;
    if upto - 1 > from { LastTokenIs(body, from, upto - 1); }
  }

  lemma TokenTextShape(horizon: Horizon)
    requires horizon.Accepted()
    ensures var k := TokenText(horizon);
            && |k| == |horizon.Show()| + 11 && k[0] == '(' && k[1..8] == TOKEN_KEYWORD && k[8] == ':'
            && k[|k| - 1] == ')' && k[9..|k| - 1] == " " + horizon.Show()
            && (forall i :: 0 < i < |k| ==> k[i] != '(' && k[i] != '<' && k[i] != '\n' && k[i] != 'V' && k[i] != 'D')
            && (forall i :: 0 <= i < |k| - 1 ==> k[i] != ')')
  {
    hide Decimal.Print;
    var k, shown := TokenText(horizon), horizon.Show();
    assert forall i :: 0 <= i < |shown| ==> shown[i] == 'd' || Decimal.IsDigit(shown[i]) by { ShownIsDigits(horizon); }
    assert forall i :: 10 <= i < |k| - 1 ==> k[i] == shown[i - 10];
    assert forall i :: 1 <= i < 8 ==> k[i] == TOKEN_KEYWORD[i - 1];
  }

  lemma ShownIsDigits(horizon: Horizon)
    ensures var shown := horizon.Show(); forall i :: 0 <= i < |shown| ==> shown[i] == 'd' || Decimal.IsDigit(shown[i])
  {
    hide Decimal.Print, Decimal.IsDigit;
  }

  /** A token of this shape is read where it opens. */
  lemma TokenOfShape(body: string, open: nat, close: nat, horizon: Horizon)
    requires open + 9 <= close < |body| && body[open] == '(' && body[open + 1..open + 8] == TOKEN_KEYWORD
    requires body[open + 8] == ':' && body[close] == ')' && forall i :: open + 9 <= i < close ==> body[i] != ')'
    requires ParseHorizon(body[open + 9..close]) == Some(horizon)
    ensures TokenAt(body, open) == Some(Token(open, close + 1, horizon))
  {
    hide ParseHorizon, LeadingWhite;
    var rest := body[open + 8..];
    assert rest[0] == ':' && !IsWhite(rest[0]);
    LeadingWhiteIs(rest, 0);
    assert IsTokenKeyword(TOKEN_KEYWORD);
    assert FindChar(body, ')', open + 9) == Some(close);
  }

  /** A printed token is read back, whatever it follows. */
  lemma TokenIsRead(before: string, after: string, horizon: Horizon)
    requires horizon.Accepted()
    ensures TokenAt(before + TokenText(horizon) + after, |before|)
            == Some(Token(|before|, |before| + |TokenText(horizon)|, horizon))
  {
    hide Horizon.Show, ParseHorizon, TokenText, TokenAt, Horizon.Accepted;
    var k := TokenText(horizon);
    var body, open := before + k + after, |before|;
    TokenTextShape(horizon);
    assert forall i :: 0 <= i < |k| ==> body[open + i] == k[i];
    assert body[open + 1..open + 8] == k[1..8];
    assert body[open + 9..open + |k| - 1] == k[9..|k| - 1];
    ShownHorizonIsParsed(horizon);
    forall i | open + 9 <= i < open + |k| - 1 ensures body[i] != ')' { assert body[i] == k[i - open]; }
    TokenOfShape(body, open, open + |k| - 1, horizon);
  }

  /** Of a body that ends in a printed token, that token is the last, and what is left is what came before. */
  lemma RecordOfPrinted(date: CivilDate, before: string, after: string, horizon: Horizon, source: string, end: nat, line: nat)
    requires horizon.Accepted() && forall i :: 0 <= i < |after| ==> after[i] != '('
    ensures RecordOf(date, Span(source, before + TokenText(horizon) + after, end), line)
            == ClaimRecord(Collapse(before + after), date, horizon, false, source, line)
  {
    hide Horizon.Show, TokenText, TokenAt, LastToken, Collapse, Horizon.Accepted;
    var k := TokenText(horizon);
    var body := before + k + after;
    TokenIsRead(before, after, horizon);
    TokenTextShape(horizon);
    forall q | |before| < q < |body| ensures body[q] != '(' {
      if q < |before| + |k| { assert body[q] == k[q - |before|]; } else { assert body[q] == after[q - |before| - |k|]; }
    }
    LastTokenIs(body, |before|, |body|);
    assert body[..|before|] == before && body[|before| + |k|..] == after;
  }

  lemma TrimIs(s: string, n: nat, kept: string)
    requires n <= |s| && (forall i :: 0 <= i < n ==> IsWhite(s[i])) && s[n..] == kept
    requires kept != [] && !IsWhite(kept[0]) && !IsWhite(kept[|kept| - 1])
    ensures Trim(s) == kept
  {
    hide IsWhite;
    assert s[n] == kept[0];
    LeadingWhiteIs(s, n);
  }

  lemma CollapseDropsSpace(claim: string)
    requires Collapse(claim) == claim
    ensures Collapse(claim + " ") == claim
  {
    MarksAreNotWhite();
    assert (claim + " ")[..|claim|] == claim;
  }

  /** What comes before the token of a printed body, once the body is trimmed. */
  function BeforeToken(claim: string): string { if claim == [] then [] else claim + " " }

  lemma TrimPrinted(claim: string, horizon: Horizon)
    requires horizon.Accepted() && Collapse(claim) == claim
    ensures Trim(PrintedBody(claim, horizon)) == BeforeToken(claim) + TokenText(horizon)
  {
    hide TokenText, Horizon.Accepted, IsWhite, Trim, Collapse;
    CollapsedShape(claim);
    TokenTextShape(horizon);
    MarksAreNotWhite();
    var body, kept := PrintedBody(claim, horizon), BeforeToken(claim) + TokenText(horizon);
    var n := if claim == [] then 2 else 1;
    assert body[n..] == kept;
    TrimIs(body, n, kept);
  }

  lemma MarksAreNotWhite()
    ensures IsWhite(' ') && !IsWhite('(') && !IsWhite(')') && !IsWhite('V')
  {
  }

  // ------------------------------------------------------------------ a document of one line

  lemma OneLine(text: string)
    requires text != [] && forall i :: 0 <= i < |text| ==> text[i] != '\n'
    ensures Lines(text) == [text]
  {
  }

  lemma ReadOneLine(text: string)
    requires text != [] && text[0] == 'V' && forall i :: 0 <= i < |text| ==> text[i] != '\n'
    ensures Lines(text) == [text] && !IsMarker(text)
    ensures ReadLines(text) == [Line(1, false, IsStopLine(text), SegmentsFrom(text, false, 0))]
  {
    hide SegmentsFrom, IsStopLine, IsMarker, Lines, IsWhite, QuoteLength;
    OneLine(text);
    MarksAreNotWhite();
    assert QuoteLength(text) == 0;
    MarkerLooksPast(text);
    assert text[0..] == text;
    if StartsWith(text, FENCE) { FenceOpensWithBacktick(text); }
    assert TrimStart(text) == text;
    assert text[0..1][0] == text[0];
    assert !StartsWith(text, "|");
    assert !FencedBefore([text], 0);
    assert ReadLines(text)[0] == ReadLine([text], 0);
  }

  /** Where the first segment of a line ends. */
  function FirstEnd(text: string): (end: nat)
    ensures end <= |text|
  {
    match FirstBoundary(text, false, 0)
    case None => |text|
    case Some(at) => at
  }

  function FirstSegment(text: string): Segment {
    Segment(text[..FirstEnd(text)], FirstBoundary(text, false, 0).Some?)
  }

  lemma FirstOfSegments(text: string)
    ensures SegmentsFrom(text, false, 0)[0] == FirstSegment(text)
    ensures FirstEnd(text) == |text| ==> SegmentsFrom(text, false, 0) == [FirstSegment(text)]
  {
    hide BoundaryAt;
    assert text[0..] == text;
  }

  /** The line of a document of one line. */
  function OnlyLine(text: string): Line { Line(1, false, IsStopLine(text), SegmentsFrom(text, false, 0)) }

  /** What a document of one line reports: what its first segment opens with, and then the rest. */
  lemma OnlyLineFindings(text: string, now: Option<CivilDate>)
    requires FirstEnd(text) > 0
    ensures LineFindings([OnlyLine(text)], now, 0)
            == FindingAt([OnlyLine(text)], 0, FirstSegment(text), now, 0)
               .Then(FindingsFrom([OnlyLine(text)], 0, FirstSegment(text), now, 1))
               .Then(SegmentFindings([OnlyLine(text)], 0, now, 1))
  {
    hide SegmentsFrom, FindingAt, FirstEnd, IsStopLine, Findings.Then;
    var lines := [OnlyLine(text)];
    FirstOfSegments(text);
    assert LineFindings(lines, now, 1) == NOTHING;
    ThenNothing(SegmentFindings(lines, 0, now, 0));
  }

  // ------------------------------------------------------------------ the first record of an annotation on a line of its own

  /** Where the body of a lone annotation ends. */
  function LoneEnd(text: string): nat
    requires FirstEnd(text) >= BODY_START
  {
    BodyStop(text[..FirstEnd(text)], BODY_START, FirstEnd(text))
  }

  lemma HeadIsUncut(date: CivilDate, body: string)
    requires Dated(date)
    ensures FirstEnd(Written(date, body)) >= BODY_START
  {
    hide Written;
    WrittenShape(date, body);
    var text := Written(date, body);
    if FirstBoundary(text, false, 0).Some? && FirstBoundary(text, false, 0).value < BODY_START {
      WrittenPlain(date, body, FirstBoundary(text, false, 0).value);
      assert false;
    }
  }

  /** The record a lone annotation starts with. */
  function LoneRecord(text: string, date: CivilDate): ClaimRecord
    requires FirstEnd(text) >= BODY_START
  {
    var end := LoneEnd(text);
    RecordOf(date, Span(TrimEnd(text[..end]), Trim(text[BODY_START..end]), end), 1)
  }

  lemma PrefixIsWritten(date: CivilDate, body: string, end: nat)
    requires Dated(date) && BODY_START <= end <= |Written(date, body)|
    ensures |Written(date, body)| == BODY_START + |body|
    ensures Written(date, body)[..end] == Written(date, body[..end - BODY_START])
  {
    hide CivilDate.Show;
    WrittenShape(date, body);
    ShownDateIsParsed(date);
  }

  lemma LoneFinding(date: CivilDate, body: string, now: Option<CivilDate>)
    requires Dated(date) && (now.Some? ==> !date.After(now.value))
    ensures FirstEnd(Written(date, body)) >= BODY_START
    ensures FindingAt([OnlyLine(Written(date, body))], 0, FirstSegment(Written(date, body)), now, 0)
            == Findings([LoneRecord(Written(date, body), date)], [])
  {
    hide Written, BodyStop, RecordOf, TrimEnd, Trim, SegmentsFrom, IsStopLine, FindingAt, FirstBoundary;
    HeadIsUncut(date, body);
    var text, line := Written(date, body), OnlyLine(Written(date, body));
    var end := FirstEnd(text);
    PrefixIsWritten(date, body, end);
    FirstFinding([line], 0, FirstSegment(text), now, date, body[..end - BODY_START]);
    AloneSpan(line, FirstSegment(text));
    var stop := LoneEnd(text);
    assert text[..end][..stop] == text[..stop] && text[..end][BODY_START..stop] == text[BODY_START..stop];
  }

  lemma LoneScan(date: CivilDate, body: string, now: Option<CivilDate>)
    requires Dated(date) && (now.Some? ==> !date.After(now.value))
    requires forall i :: 0 <= i < |Written(date, body)| ==> Written(date, body)[i] != '\n'
    ensures FirstEnd(Written(date, body)) >= BODY_START
    ensures var scan := Scan(Written(date, body), now);
            && scan.records != [] && scan.records[0] == LoneRecord(Written(date, body), date)
  {
    hide Written, RecordOf, SegmentsFrom, IsStopLine, FindingAt, FirstBoundary, LoneRecord, ReadLines, RawOccurrences;
    var text := Written(date, body);
    WrittenShape(date, body);
    KeywordChars(text, 0);
    ReadOneLine(text);
    OnlyLineFindings(text, now);
    LoneFinding(date, body, now);
  }

  // ------------------------------------------------------------------ what would cut a claim

  /** Nothing in the claim is a place a reader would cut it: neither keyword, and no break tag. */
  ghost predicate Clean(claim: string) {
    forall p :: 0 <= p < |claim| ==> !At(claim, KEYWORD, p) && !At(claim, OTHER_KEYWORD, p) && LineBreakAt(claim, p).None?
  }

  /** A printed claim sits in its line at `CLAIM_START`, with a space and a parenthesis after it. */
  ghost predicate Holds(text: string, claim: string) {
    && |text| >= CLAIM_START + |claim| + 2
    && (forall i :: 0 <= i < |claim| ==> text[CLAIM_START + i] == claim[i])
    && text[CLAIM_START + |claim|] == ' ' && text[CLAIM_START + |claim| + 1] == '('
  }

  const CLAIM_START := 21

  lemma PrintedHolds(date: CivilDate, claim: string, horizon: Horizon)
    requires Dated(date) && horizon.Accepted()
    ensures Holds(Written(date, PrintedBody(claim, horizon)), claim)
    ensures Written(date, PrintedBody(claim, horizon))[20] == ' '
  {
    hide Written, PrintedBody, Holds, Horizon.Accepted, CivilDate.Exists;
    WrittenShape(date, PrintedBody(claim, horizon));
    BodyHolds(Written(date, PrintedBody(claim, horizon)), claim, horizon);
  }

  lemma BodyHolds(text: string, claim: string, horizon: Horizon)
    requires horizon.Accepted() && |text| >= BODY_START && text[BODY_START..] == PrintedBody(claim, horizon)
    ensures Holds(text, claim) && |text| > BODY_START && text[BODY_START] == ' '
  {
    hide TokenText, Horizon.Accepted;
    TokenTextShape(horizon);
    var body := PrintedBody(claim, horizon);
    assert body[0] == ' ' && body[|claim| + 1] == ' ' && body[|claim| + 2] == TokenText(horizon)[0];
    assert text[BODY_START] == body[0] && text[CLAIM_START + |claim|] == body[|claim| + 1];
    assert text[CLAIM_START + |claim| + 1] == body[|claim| + 2];
    forall i | 0 <= i < |claim| ensures text[CLAIM_START + i] == claim[i] {
      assert text[CLAIM_START + i] == text[BODY_START..][i + 1] == body[i + 1];
    }
  }

  lemma {:induction false} SkipShift(text: string, claim: string, a: nat)
    requires Holds(text, claim) && a <= |claim|
    ensures SkipAsciiWhite(text, CLAIM_START + a)
            == CLAIM_START + if SkipAsciiWhite(claim, a) < |claim| then SkipAsciiWhite(claim, a) else |claim| + 1
    decreases |claim| - a
  {
    hide IsAsciiWhite;
    AsciiMarks();
    if a < |claim| {
      assert text[CLAIM_START + a] == claim[a];
      if IsAsciiWhite(claim[a]) { SkipShift(text, claim, a + 1); }
    } else {
      assert SkipAsciiWhite(text, CLAIM_START + a) == SkipAsciiWhite(text, CLAIM_START + a + 1);
    }
  }

  lemma AsciiMarks()
    ensures IsAsciiWhite(' ') && !IsAsciiWhite('(')
  {
  }

  /** A break tag in the claim is one in its line, and the other way around. */
  lemma BreakShift(text: string, claim: string, p: nat)
    requires Holds(text, claim) && p < |claim|
    ensures LineBreakAt(text, CLAIM_START + p).Some? <==> LineBreakAt(claim, p).Some?
  {
    hide SkipAsciiWhite;
    var n := |claim|;
    assert text[CLAIM_START + p] == claim[p];
    if p + 1 < n { assert text[CLAIM_START + p + 1] == claim[p + 1]; }
    if p + 2 < n {
      assert text[CLAIM_START + p + 2] == claim[p + 2];
      SkipShift(text, claim, p + 3);
      var index := SkipAsciiWhite(claim, p + 3);
      if index < n {
        assert text[CLAIM_START + index] == claim[index];
        if claim[index] == '/' {
          SkipShift(text, claim, index + 1);
          var end := SkipAsciiWhite(claim, index + 1);
          if end < n { assert text[CLAIM_START + end] == claim[end]; }
        }
      }
    }
  }

  /** A keyword in the claim is one in its line, and one in its line past the head is in the claim. */
  lemma KeywordShift(text: string, claim: string, key: string, p: nat)
    requires Holds(text, claim) && (key == KEYWORD || key == OTHER_KEYWORD) && p < |claim|
    ensures At(text, key, CLAIM_START + p) <==> At(claim, key, p)
  {
    var n := |key|;
    if p + n <= |claim| {
      assert text[CLAIM_START + p..CLAIM_START + p + n] == claim[p..p + n];
    } else if CLAIM_START + p + n <= |text| {
      var written := text[CLAIM_START + p..CLAIM_START + p + n];
      assert written[|claim| - p] == ' ';
      KeyIsUnspaced(key, |claim| - p);
    }
  }

  lemma KeyIsUnspaced(key: string, i: nat)
    requires (key == KEYWORD || key == OTHER_KEYWORD) && i < |key|
    ensures key[i] != ' '
  {
  }

  /** Nothing that starts a keyword or a tag, or ends a line. */
  predicate Inert(c: char) { c != '<' && c != '\n' && c != 'V' && c != 'D' }

  lemma SpaceIsInert()
    ensures Inert(' ')
  {
  }

  lemma TokenIsInert(horizon: Horizon, i: nat)
    requires horizon.Accepted() && i < |TokenText(horizon)|
    ensures Inert(TokenText(horizon)[i])
  {
    hide TokenText, Horizon.Show;
    TokenTextShape(horizon);
  }

  lemma BodyAround(claim: string, horizon: Horizon, i: nat)
    requires horizon.Accepted() && i < |PrintedBody(claim, horizon)| && (i == 0 || i > |claim|)
    ensures Inert(PrintedBody(claim, horizon)[i])
  {
    hide TokenText, Horizon.Accepted, Inert;
    var k := TokenText(horizon);
    SpaceIsInert();
    if i > |claim| + 1 {
      TokenIsInert(horizon, i - |claim| - 2);
      assert PrintedBody(claim, horizon)[i] == k[i - |claim| - 2];
    } else {
      assert PrintedBody(claim, horizon)[i] == ' ';
    }
  }

  /** Past the claim, a printed line holds nothing that starts a keyword or a tag. */
  lemma AfterTheClaim(date: CivilDate, claim: string, horizon: Horizon, q: nat)
    requires Dated(date) && horizon.Accepted()
    requires q < |Written(date, PrintedBody(claim, horizon))| && q >= BODY_START
    requires q < CLAIM_START || q >= CLAIM_START + |claim|
    ensures Inert(Written(date, PrintedBody(claim, horizon))[q])
  {
    hide PrintedBody, Written, Horizon.Accepted, CivilDate.Exists, Inert;
    WrittenBody(date, PrintedBody(claim, horizon), q);
    BodyAround(claim, horizon, q - BODY_START);
  }

  /** Past the claim and before it, a printed line holds nothing that starts a keyword or a tag. */
  lemma OutsideTheClaim(date: CivilDate, claim: string, horizon: Horizon, q: nat)
    requires Dated(date) && horizon.Accepted()
    requires q < |Written(date, PrintedBody(claim, horizon))| && (q < CLAIM_START || q >= CLAIM_START + |claim|)
    ensures var c := Written(date, PrintedBody(claim, horizon))[q];
            c != '<' && c != '\n' && (q > 0 ==> c != 'V') && (q >= BODY_START ==> c != 'D')
  {
    hide PrintedBody, Written, Horizon.Accepted, CivilDate.Exists;
    if q < BODY_START { WrittenPlain(date, PrintedBody(claim, horizon), q); } else { AfterTheClaim(date, claim, horizon, q); }
  }

  lemma CleanHasNoTag(date: CivilDate, claim: string, horizon: Horizon, q: nat)
    requires Dated(date) && horizon.Accepted() && Clean(claim)
    requires q < |Written(date, PrintedBody(claim, horizon))|
    ensures BoundaryAt(Written(date, PrintedBody(claim, horizon)), false, q).None?
  {
    hide PrintedBody, Written, Holds;
    var text := Written(date, PrintedBody(claim, horizon));
    PrintedHolds(date, claim, horizon);
    if CLAIM_START <= q < CLAIM_START + |claim| {
      BreakShift(text, claim, q - CLAIM_START);
    } else {
      OutsideTheClaim(date, claim, horizon, q);
    }
  }

  lemma CleanHasNoKeyword(date: CivilDate, claim: string, horizon: Horizon, q: nat)
    requires Dated(date) && horizon.Accepted() && Clean(claim)
    requires 0 < q < |Written(date, PrintedBody(claim, horizon))|
    ensures var text := Written(date, PrintedBody(claim, horizon));
            !At(text, KEYWORD, q) && (q >= BODY_START ==> !At(text, OTHER_KEYWORD, q))
  {
    hide PrintedBody, Written, Holds, At;
    var text := Written(date, PrintedBody(claim, horizon));
    PrintedHolds(date, claim, horizon);
    if CLAIM_START <= q < CLAIM_START + |claim| {
      KeywordShift(text, claim, KEYWORD, q - CLAIM_START);
      KeywordShift(text, claim, OTHER_KEYWORD, q - CLAIM_START);
    } else {
      OutsideTheClaim(date, claim, horizon, q);
      if At(text, KEYWORD, q) { KeywordChars(text, q); }
      DueStartsWithD(text, q);
    }
  }

  lemma DueStartsWithD(text: string, q: nat)
    ensures At(text, OTHER_KEYWORD, q) ==> text[q] == 'D'
  {
    if At(text, OTHER_KEYWORD, q) { assert text[q..q + |OTHER_KEYWORD|][0] == text[q]; }
  }

  /** A clean claim is read to the end of its line. */
  lemma CleanIsUncut(date: CivilDate, claim: string, horizon: Horizon)
    requires Dated(date) && horizon.Accepted() && Clean(claim)
    ensures var text := Written(date, PrintedBody(claim, horizon));
            FirstEnd(text) == |text| >= BODY_START && LoneEnd(text) == |text|
  {
    hide Written, PrintedBody, Clean, BoundaryAt, At;
    var body := PrintedBody(claim, horizon);
    var text := Written(date, body);
    WrittenShape(date, body);
    if FirstBoundary(text, false, 0).Some? { CleanHasNoTag(date, claim, horizon, FirstBoundary(text, false, 0).value); }
    assert text[..|text|] == text;
    var stop := LoneEnd(text);
    if stop < |text| { CleanHasNoKeyword(date, claim, horizon, stop); }
  }

  /** A claim that is not clean is cut before its end. */
  lemma UncleanIsCut(date: CivilDate, claim: string, horizon: Horizon)
    requires Dated(date) && horizon.Accepted() && !Clean(claim)
    ensures var text := Written(date, PrintedBody(claim, horizon));
            FirstEnd(text) >= BODY_START && LoneEnd(text) < CLAIM_START + |claim|
  {
    hide Written, PrintedBody, BoundaryAt, At, Holds, LineBreakAt, BodyStop;
    var body := PrintedBody(claim, horizon);
    var text := Written(date, body);
    WrittenShape(date, body);
    PrintedHolds(date, claim, horizon);
    HeadIsUncut(date, body);
    var p :| 0 <= p < |claim| && (At(claim, KEYWORD, p) || At(claim, OTHER_KEYWORD, p) || LineBreakAt(claim, p).Some?);
    var q := CLAIM_START + p;
    if LineBreakAt(claim, p).Some? {
      BreakShift(text, claim, p);
      TagIsBoundary(text, q);
    } else {
      KeywordShift(text, claim, KEYWORD, p);
      KeywordShift(text, claim, OTHER_KEYWORD, p);
      if FirstEnd(text) > q { KeywordStops(text, FirstEnd(text), q); }
    }
  }

  lemma TagIsBoundary(text: string, q: nat)
    requires q < |text| && LineBreakAt(text, q).Some?
    ensures FirstEnd(text) <= q
  {
    hide LineBreakAt;
    assert BoundaryAt(text, false, q).Some?;
  }

  /** A keyword inside a segment is wholly inside, and ends the body before it. */
  lemma KeywordStops(text: string, end: nat, q: nat)
    requires end == FirstEnd(text) > q >= BODY_START && (At(text, KEYWORD, q) || At(text, OTHER_KEYWORD, q))
    ensures LoneEnd(text) <= q
  {
    hide BodyStop, FirstBoundary, LineBreakAt;
    var segment := text[..end];
    var key := if At(text, KEYWORD, q) then KEYWORD else OTHER_KEYWORD;
    if end < |text| && q < end < q + |key| {
      EndIsTag(text);
      assert text[q..q + |key|][end - q] == text[end];
      KeyHasNoTag(key, end - q);
      assert false;
    }
    assert segment[q..q + |key|] == text[q..q + |key|];
    assert StopsBody(segment, q, end);
  }

  lemma EndIsTag(text: string)
    ensures FirstEnd(text) < |text| ==> text[FirstEnd(text)] == '<'
  {
  }

  lemma KeyHasNoTag(key: string, i: nat)
    requires (key == KEYWORD || key == OTHER_KEYWORD) && i < |key|
    ensures key[i] != '<'
  {
  }

  // ------------------------------------------------------------------ print then scan

  lemma CleanRecord(r: ClaimRecord)
    requires !r.malformed && Dated(r.date) && r.horizon.Accepted() && Collapse(r.claim) == r.claim && Clean(r.claim)
    ensures FirstEnd(r.Render()) >= BODY_START
    ensures LoneRecord(r.Render(), r.date) == r.(source := r.Render(), line := 1)
  {
    hide Written, PrintedBody, BodyStop, Trim, Collapse, RecordOf, FirstEnd, TokenText, ClaimRecord.Render, BeforeToken, TrimEnd;
    RenderIsWritten(r);
    var body := PrintedBody(r.claim, r.horizon);
    var text := r.Render();
    WrittenShape(r.date, body);
    CleanIsUncut(r.date, r.claim, r.horizon);
    assert text[..|text|] == text && text[BODY_START..|text|] == body;
    PrintedEnds(r);
    TrimPrinted(r.claim, r.horizon);
    var before := BeforeToken(r.claim);
    assert before + TokenText(r.horizon) + [] == before + TokenText(r.horizon) && before + [] == before;
    RecordOfPrinted(r.date, before, [], r.horizon, text, |text|, 1);
    BeforeCollapses(r.claim);
  }

  lemma BeforeCollapses(claim: string)
    requires Collapse(claim) == claim
    ensures Collapse(BeforeToken(claim)) == claim
  {
    CollapseDropsSpace(claim);
  }

  lemma PrintedEnds(r: ClaimRecord)
    requires !r.malformed
    ensures TrimEnd(r.Render()) == r.Render()
  {
    hide CivilDate.Show, Horizon.Show;
    MarksAreNotWhite();
    assert r.Render()[|r.Render()| - 1] == ')';
  }

  lemma PrintedHasNoFeed(r: ClaimRecord)
    requires !r.malformed && Dated(r.date) && r.horizon.Accepted() && Collapse(r.claim) == r.claim
    ensures forall i :: 0 <= i < |r.Render()| ==> r.Render()[i] != '\n'
  {
    hide Written, PrintedBody, Collapse, ClaimRecord.Render, Holds;
    RenderIsWritten(r);
    CollapsedShape(r.claim);
    PrintedHolds(r.date, r.claim, r.horizon);
    var text := r.Render();
    forall i | 0 <= i < |text| ensures text[i] != '\n' {
      if CLAIM_START <= i < CLAIM_START + |r.claim| {
        FeedIsWhite(r.claim, text, i - CLAIM_START);
      } else {
        OutsideTheClaim(r.date, r.claim, r.horizon, i);
      }
    }
  }

  lemma FeedIsWhite(claim: string, text: string, i: nat)
    requires Holds(text, claim) && i < |claim|
    requires forall i :: 0 <= i < |claim| && IsWhite(claim[i]) ==> claim[i] == ' '
    ensures text[CLAIM_START + i] != '\n'
  {
    assert text[CLAIM_START + i] == claim[i];
    if claim[i] == '\n' { assert IsWhite(claim[i]); }
  }

  /** Scanning what was printed gives back the record, and nothing else, with nothing unaccounted for,
      even when the claim itself holds an earlier horizon token. */
  lemma PrintThenScan(r: ClaimRecord, now: Option<CivilDate>)
    requires !r.malformed && Dated(r.date) && r.horizon.Accepted() && Collapse(r.claim) == r.claim && Clean(r.claim)
    requires now.Some? ==> !r.date.After(now.value)
    ensures Scan(r.Render(), now) == ClaimScan([r.(source := r.Render(), line := 1)], 1, [])
  {
    hide Written, PrintedBody, ClaimRecord.Render, LoneRecord, LineFindings, RawOccurrences, ReadLines, Findings.Then;
    RenderIsWritten(r);
    PrintedHasNoFeed(r);
    CleanRecord(r);
    PrintedFindings(r, now);
    PrintedCount(r);
  }

  lemma PrintedFindings(r: ClaimRecord, now: Option<CivilDate>)
    requires !r.malformed && Dated(r.date) && r.horizon.Accepted() && Collapse(r.claim) == r.claim && Clean(r.claim)
    requires now.Some? ==> !r.date.After(now.value)
    ensures FirstEnd(r.Render()) >= BODY_START
    ensures LineFindings(ReadLines(r.Render()), now, 0) == Findings([LoneRecord(r.Render(), r.date)], [])
  {
    hide Written, PrintedBody, ClaimRecord.Render, LoneRecord, ReadLines, SegmentsFrom, IsStopLine, FindingAt, BodyStop, LoneEnd;
    RenderIsWritten(r);
    PrintedHasNoFeed(r);
    var text, line := r.Render(), OnlyLine(r.Render());
    WrittenShape(r.date, PrintedBody(r.claim, r.horizon));
    KeywordChars(text, 0);
    ReadOneLine(text);
    CleanIsUncut(r.date, r.claim, r.horizon);
    FirstOfSegments(text);
    OnlyLineFindings(text, now);
    LoneFinding(r.date, PrintedBody(r.claim, r.horizon), now);
    assert text[..|text|] == text;
    forall q | 1 <= q < |text| ensures !At(text, KEYWORD, q) { CleanHasNoKeyword(r.date, r.claim, r.horizon, q); }
    NothingBetween([line], 0, FirstSegment(text), now, 1, |text|);
    BeyondTheEnd([line], 0, FirstSegment(text), now, |text|);
    assert SegmentFindings([line], 0, now, 1) == NOTHING;
  }

  lemma PrintedCount(r: ClaimRecord)
    requires !r.malformed && Dated(r.date) && r.horizon.Accepted() && Collapse(r.claim) == r.claim && Clean(r.claim)
    ensures RawOccurrences(r.Render()) == 1
  {
    hide Written, PrintedBody, ClaimRecord.Render, SegmentsFrom, RawAt, RawCount, Annotates, At, IsRawMarker;
    RenderIsWritten(r);
    PrintedHasNoFeed(r);
    var text := r.Render();
    WrittenShape(r.date, PrintedBody(r.claim, r.horizon));
    KeywordChars(text, 0);
    ReadOneLine(text);
    MarkersDifferExactly(text);
    assert Kept([text], 1) == [] && Kept([text], 0) == text + ("\n" + []);
    KeptLineCounts(text, []);
    EmptyCount();
    forall q | 1 <= q < |text| ensures !At(text, KEYWORD, q) { CleanHasNoKeyword(r.date, r.claim, r.horizon, q); }
    NothingCounted(text, "\n" + [], 1, |text|);
    HeadOfWritten(r.date, PrintedBody(r.claim, r.horizon));
    CountedOnce(text, "\n" + []);
  }

  lemma CountedOnce(text: string, tail: string)
    requires At(text, KEYWORD, 0) && ReadHead(text[7..]).Some? && ReadHead(text[7..]).value.emDash
    requires RawCount(text, tail, 1) == RawCount(text, tail, |text|)
    ensures RawCount(text, tail, 0) == 1
  {
    hide Annotates, ReadHead;
    assert SpanLimit(text, 0) == |text| && text[7..|text|] == text[7..];
    ReadableIsCounted(text, tail, 0);
    assert RawCount(text, tail, |text|) == 0;
  }

  // ------------------------------------------------------------------ where a record comes from

  lemma {:induction false} RecordInSegment(lines: seq<Line>, index: nat, segment: Segment, now: Option<CivilDate>, from: nat, i: nat)
    returns (p: nat)
    requires index < |lines| && i < |FindingsFrom(lines, index, segment, now, from).records|
    ensures FindingAt(lines, index, segment, now, p).records == [FindingsFrom(lines, index, segment, now, from).records[i]]
    decreases |segment.text| - from
  {
    hide FindingAt;
    AtMostOne(lines, index, segment, now, from);
    var here := FindingAt(lines, index, segment, now, from).records;
    if i < |here| { p := from; } else { p := RecordInSegment(lines, index, segment, now, from + 1, i - |here|); }
  }

  lemma AtMostOne(lines: seq<Line>, index: nat, segment: Segment, now: Option<CivilDate>, p: nat)
    requires index < |lines|
    ensures |FindingAt(lines, index, segment, now, p).records| <= 1
  {
    hide At, SpanLimit, ReadHead, RecordOf, Assemble, ParseDate, IsIsoShaped;
  }

  lemma {:induction false} RecordInLine(lines: seq<Line>, index: nat, now: Option<CivilDate>, from: nat, i: nat) returns (n: nat, p: nat)
    requires index < |lines| && i < |SegmentFindings(lines, index, now, from).records|
    ensures n < |lines[index].segments|
    ensures FindingAt(lines, index, lines[index].segments[n], now, p).records == [SegmentFindings(lines, index, now, from).records[i]]
    decreases |lines[index].segments| - from
  {
    hide FindingAt, FindingsFrom;
    var here := FindingsFrom(lines, index, lines[index].segments[from], now, 0).records;
    if i < |here| {
      n := from;
      p := RecordInSegment(lines, index, lines[index].segments[from], now, 0, i);
    } else {
      n, p := RecordInLine(lines, index, now, from + 1, i - |here|);
    }
  }

  lemma {:induction false} RecordInLines(lines: seq<Line>, now: Option<CivilDate>, from: nat, i: nat) returns (index: nat, n: nat, p: nat)
    requires i < |LineFindings(lines, now, from).records|
    ensures index < |lines| && n < |lines[index].segments|
    ensures FindingAt(lines, index, lines[index].segments[n], now, p).records == [LineFindings(lines, now, from).records[i]]
    decreases |lines| - from
  {
    hide FindingAt, SegmentFindings;
    var here := SegmentFindings(lines, from, now, 0).records;
    if i < |here| {
      index := from;
      n, p := RecordInLine(lines, from, now, 0, i);
    } else {
      index, n, p := RecordInLines(lines, now, from + 1, i - |here|);
    }
  }

  // ------------------------------------------------------------------ and only then

  /** What every scanned record is, whatever document it came from. */
  ghost predicate Normal(r: ClaimRecord) { Collapse(r.claim) == r.claim && Dated(r.date) && r.horizon.Accepted() }

  ghost predicate AllNormal(records: seq<ClaimRecord>) { forall i :: 0 <= i < |records| ==> Normal(records[i]) }

  lemma ParsedDateIsDated(text: string)
    requires IsIsoShaped(text)
    ensures ParseDate(text).Some? ==> Dated(ParseDate(text).value)
  {
    ShortDigits(text[..4], 4);
    assert Decimal.Power10(4) == 10000 by { assert Decimal.Power10(1) == 10; assert Decimal.Power10(3) == 1000; }
  }

  lemma RecordIsNormal(date: CivilDate, span: Span, line: nat)
    requires Dated(date)
    ensures Normal(RecordOf(date, span, line))
  {
    hide Collapse, LastToken, Dated;
    match LastToken(span.body, |span.body|) {
      case Some(token) => CollapseIsIdempotent(span.body[..token.start] + span.body[token.end..]);
      case None => CollapseIsIdempotent(span.body);
    }
  }

  lemma FindingIsNormal(lines: seq<Line>, index: nat, segment: Segment, now: Option<CivilDate>, p: nat)
    requires index < |lines|
    ensures AllNormal(FindingAt(lines, index, segment, now, p).records)
  {
    hide At, SpanLimit, ReadHead, Normal, RecordOf, Assemble, ParseDate, IsIsoShaped, Dated;
    if At(segment.text, KEYWORD, p) {
      AtFits(segment.text, p);
      var limit := SpanLimit(segment.text, p);
      var head := ReadHead(segment.text[p + |KEYWORD|..limit]);
      if head.Some? && ParseDate(head.value.date).Some? {
        ParsedDateIsDated(head.value.date);
        var from := p + |KEYWORD| + head.value.bodyStart;
        RecordIsNormal(ParseDate(head.value.date).value, Assemble(lines, index, segment, p, from, limit), lines[index].number);
      }
    }
  }

  lemma ScannedIsNormal(text: string, now: Option<CivilDate>, i: nat)
    requires i < |Scan(text, now).records|
    ensures Normal(Scan(text, now).records[i])
  {
    hide LineFindings, ReadLines, RawOccurrences, Normal, FindingAt;
    var lines := ReadLines(text);
    var index, n, p := RecordInLines(lines, now, 0, i);
    FindingIsNormal(lines, index, lines[index].segments[n], now, p);
    assert FindingAt(lines, index, lines[index].segments[n], now, p).records[0] == Scan(text, now).records[i];
  }

  lemma TrimShortens(s: string)
    ensures |Trim(s)| <= |s|
    ensures s != [] && IsWhite(s[0]) ==> |Trim(s)| < |s|
  {
    hide IsWhite;
    LeadingWhiteShortens(s);
    if s != [] && IsWhite(s[0]) { LeadingWhiteShortens(s[1..]); }
    TrimEndShortens(TrimStart(s));
  }

  lemma {:induction false} TrimEndShortens(s: string)
    ensures |TrimEnd(s)| <= |s|
  {
    if s != [] && IsWhite(s[|s| - 1]) { TrimEndShortens(s[..|s| - 1]); }
  }

  lemma ClaimIsInBody(date: CivilDate, span: Span, line: nat)
    ensures |RecordOf(date, span, line).claim| <= |span.body|
  {
    hide Collapse, LastToken;
    match LastToken(span.body, |span.body|) {
      case Some(token) => CollapsedShape(span.body[..token.start] + span.body[token.end..]);
      case None => CollapsedShape(span.body);
    }
  }

  /** A claim that is not clean comes back shorter. */
  lemma UncleanComesBackShorter(r: ClaimRecord)
    requires !r.malformed && Dated(r.date) && r.horizon.Accepted() && !Clean(r.claim)
    ensures FirstEnd(r.Render()) >= BODY_START
    ensures |LoneRecord(r.Render(), r.date).claim| < |r.claim|
  {
    hide Written, PrintedBody, ClaimRecord.Render, RecordOf, TrimEnd, Trim, Clean, IsWhite, FirstEnd, Holds;
    RenderIsWritten(r);
    var text := r.Render();
    WrittenShape(r.date, PrintedBody(r.claim, r.horizon));
    PrintedHolds(r.date, r.claim, r.horizon);
    UncleanIsCut(r.date, r.claim, r.horizon);
    NotEmptyWhenUnclean(r.claim);
    var end := LoneEnd(text);
    var body := text[BODY_START..end];
    MarksAreNotWhite();
    TrimShortens(body);
    if body != [] { assert body[0] == text[BODY_START] == ' '; }
    ClaimIsInBody(r.date, Span(TrimEnd(text[..end]), Trim(body), end), 1);
  }

  lemma NotEmptyWhenUnclean(claim: string)
    requires !Clean(claim)
    ensures |claim| > 0
  {
  }

  /** The record a document of one printed line gives back is the one printed. */
  ghost predicate ComesBack(r: ClaimRecord) {
    var scan := Scan(r.Render(), None);
    |scan.records| == 1 && scan.records[0] == r.(source := r.Render(), line := 1)
  }

  /** A printed record comes back exactly when its year has four digits, its whitespace is collapsed,
      and its claim is clean. */
  lemma ComesBackExactly(r: ClaimRecord)
    requires !r.malformed && r.date.Exists() && r.horizon.Accepted()
    ensures ComesBack(r) <==> r.date.year <= 9999 && Collapse(r.claim) == r.claim && Clean(r.claim)
  {
    hide Scan, ClaimRecord.Render, Collapse, Clean;
    if r.date.year <= 9999 && Collapse(r.claim) == r.claim {
      if Clean(r.claim) {
        PrintThenScan(r, None);
      } else {
        UncleanDoesNotComeBack(r);
      }
    } else if |Scan(r.Render(), None).records| == 1 {
      ScannedIsNormal(r.Render(), None, 0);
    }
  }

  lemma UncleanDoesNotComeBack(r: ClaimRecord)
    requires !r.malformed && Dated(r.date) && r.horizon.Accepted() && Collapse(r.claim) == r.claim && !Clean(r.claim)
    ensures !ComesBack(r)
  {
    hide Scan, ClaimRecord.Render, Collapse, Clean, LoneRecord, PrintedBody, Written;
    UncleanComesBackShorter(r);
    RenderIsWritten(r);
    PrintedHasNoFeed(r);
    LoneScan(r.date, PrintedBody(r.claim, r.horizon), None);
  }
}
