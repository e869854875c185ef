/** Reading `Verify:` annotations (crates/aep-backend-markdown/src/claim.rs:501-634, 763-857): what
    each position of a segment contributes, and the cursor-driven scan that finds exactly that. */
module Claims {
  import opened Wrappers
  import opened Texts
  import opened Dates
  import opened ClaimLines
  import Decimal

  const SEPARATOR: char := '\U{2014}'
  const TOKEN_KEYWORD := "horizon"

  // ------------------------------------------------------------------ what a scan reports

  datatype ClaimRecord = ClaimRecord(
    claim: string,
    date: CivilDate,
    horizon: Horizon,
    malformed: bool,
    source: string,
    line: nat)
  {
    /** The canonical line for a well-formed record, and the source span verbatim for a malformed one. */
    function Render(): string {
      if malformed then source
      else KEYWORD + " " + date.Show() + " " + [SEPARATOR] + " " + claim + " (" + TOKEN_KEYWORD + ": " + horizon.Show() + ")"
    }
  }

  datatype ClaimRejectionReason = SeparatorNotEmDash | ImpossibleDate | FutureObservation

  datatype ClaimRejection = ClaimRejection(line: nat, text: string, reason: ClaimRejectionReason)

  /** Records and refusals, each in document order. */
  datatype Findings = Findings(records: seq<ClaimRecord>, rejections: seq<ClaimRejection>) {
    function Then(next: Findings): Findings { Findings(records + next.records, rejections + next.rejections) }
  }

  const NOTHING := Findings([], [])

  datatype ClaimScan = ClaimScan(records: seq<ClaimRecord>, rawOccurrences: nat, rejections: seq<ClaimRejection>) {
    /** How many annotation-shaped occurrences have no record, stopping at zero. */
    function Divergence(): nat { if rawOccurrences >= |records| then rawOccurrences - |records| else 0 }
  }

  // ------------------------------------------------------------------ the head of an annotation

  datatype Head = Head(date: string, bodyStart: nat, emDash: bool)

  function SkipBlanks(text: string, at: nat): (next: nat)
    requires at <= |text|
    ensures at <= next <= |text|
    ensures forall i :: at <= i < next ==> IsBlank(text[i])
    ensures next < |text| ==> !IsBlank(text[next])
    decreases |text| - at
  {
    if at < |text| && IsBlank(text[at]) then SkipBlanks(text, at + 1) else at
  }

  /** The date and separator that follow the keyword. */
  function ReadHead(rest: string): (head: Option<Head>)
    ensures head.Some? ==> head.value.bodyStart <= |rest| && IsIsoShaped(head.value.date)
  {
    var index := SkipBlanks(rest, 0);
    if index + DATE_LEN > |rest| || !IsIsoShaped(rest[index..index + DATE_LEN]) then None
    else
      var after := SkipBlanks(rest, index + DATE_LEN);
      var emDash := after < |rest| && rest[after] == SEPARATOR;
      Some(Head(rest[index..index + DATE_LEN], if emDash then after + 1 else after, emDash))
  }

  method SkipBlanksInPlace(text: string, at: nat) returns (next: nat)
    requires at <= |text|
    ensures next == SkipBlanks(text, at)
  {
    next := at;
    while next < |text| && IsBlank(text[next])
      invariant at <= next <= |text|
      invariant SkipBlanks(text, next) == SkipBlanks(text, at)
    {
      next := next + 1;
    }
  }

  method ReadHeadInPlace(rest: string) returns (head: Option<Head>)
    ensures head == ReadHead(rest)
  {
    hide IsIsoShaped, SkipBlanks;
    var index := SkipBlanksInPlace(rest, 0);
    if index + DATE_LEN > |rest| { return None; }
    var date := rest[index..index + DATE_LEN];
    if !IsIsoShaped(date) { return None; }
    index := SkipBlanksInPlace(rest, index + DATE_LEN);
    var emDash := index < |rest| && rest[index] == SEPARATOR;
    return Some(Head(date, if emDash then index + 1 else index, emDash));
  }

  /** Where an annotation's span ends inside its segment: at the closing backtick when the keyword
      opened an inline-code span, and at the segment's end otherwise. */
  function SpanLimit(text: string, start: nat): (limit: nat)
    requires start + |KEYWORD| <= |text|
    ensures start + |KEYWORD| <= limit <= |text|
  {
    if start == 0 || text[start - 1] != '`' then |text|
    else
      match FindChar(text, '`', start + |KEYWORD|)
      case None => |text|
      case Some(at) => at
  }

  // ------------------------------------------------------------------ the body

  /** Either annotation keyword, written wholly before `limit`. */
  predicate StopsBody(text: string, p: nat, limit: nat) {
    (At(text, KEYWORD, p) && p + |KEYWORD| <= limit) || (At(text, OTHER_KEYWORD, p) && p + |OTHER_KEYWORD| <= limit)
  }

  /** Where a body ends inside its segment: at the next annotation keyword, or at `limit`. */
  function BodyStop(text: string, from: nat, limit: nat): (stop: nat)
    requires from <= limit <= |text|
    ensures from <= stop <= limit
    ensures stop < limit ==> StopsBody(text, stop, limit)
    ensures forall p :: from <= p < stop ==> !StopsBody(text, p, limit)
    decreases limit - from
  {
    if from == limit || StopsBody(text, from, limit) then from else BodyStop(text, from + 1, limit)
  }

  predicate EndsBody(line: Line, quoted: bool) {
    line.stopsABody || line.quoted != quoted || line.segments == []
  }

  /** What a body takes of a line it runs into, and whether it may run on. */
  function PieceOf(line: Line): (string, bool)
    requires line.segments != []
  {
    var first := line.segments[0];
    var stop := BodyStop(first.text, 0, |first.text|);
    (Trim(first.text[..stop]), stop == |first.text| && !first.bounded)
  }

  /** The pieces a body absorbs from line `next` on. */
  function Continuation(lines: seq<Line>, quoted: bool, next: nat): seq<string>
    decreases |lines| - next
  {
    if next >= |lines| || EndsBody(lines[next], quoted) then []
    else [PieceOf(lines[next]).0] + if PieceOf(lines[next]).1 then Continuation(lines, quoted, next + 1) else []
  }

  /** An annotation's text, gathered across whatever continuation lines belong to it. */
  datatype Span = Span(source: string, body: string, end: nat)

  function Assemble(lines: seq<Line>, index: nat, segment: Segment, start: nat, bodyStart: nat, limit: nat): Span
    requires index < |lines| && start <= bodyStart <= limit <= |segment.text|
  {
    var text := segment.text;
    var end := BodyStop(text, bodyStart, limit);
    var more := if end == |text| && !segment.bounded then Continuation(lines, lines[index].quoted, index + 1) else [];
    Span(Joined([TrimEnd(text[start..end])] + more, "\n"), Joined([Trim(text[bodyStart..end])] + more, " "), end)
  }

  method PieceInPlace(line: Line) returns (piece: string, open: bool)
    requires line.segments != []
    ensures (piece, open) == PieceOf(line)
  {
    var first := line.segments[0];
    var stop := BodyStop(first.text, 0, |first.text|);
    piece, open := Trim(first.text[..stop]), stop == |first.text| && !first.bounded;
  }

  /** Of the pieces absorbed from line `from` on, `taken` are the ones before line `next`. */
  ghost predicate Absorbing(lines: seq<Line>, quoted: bool, from: nat, taken: seq<string>, open: bool, next: nat) {
    Continuation(lines, quoted, from) == taken + if open then Continuation(lines, quoted, next) else []
  }

  lemma AbsorbOne(lines: seq<Line>, quoted: bool, from: nat, taken: seq<string>, next: nat)
    requires Absorbing(lines, quoted, from, taken, true, next)
    requires next < |lines| && !EndsBody(lines[next], quoted) && lines[next].segments != []
    ensures Absorbing(lines, quoted, from, taken + [PieceOf(lines[next]).0], PieceOf(lines[next]).1, next + 1)
  {
    hide EndsBody, PieceOf;
  }

  lemma AbsorbedAll(lines: seq<Line>, quoted: bool, from: nat, taken: seq<string>, open: bool, next: nat)
    requires Absorbing(lines, quoted, from, taken, open, next)
    requires !open || next >= |lines| || EndsBody(lines[next], quoted)
    ensures Continuation(lines, quoted, from) == taken
  {
    hide EndsBody, PieceOf;
  }

  method AbsorbInPlace(lines: seq<Line>, quoted: bool, from: nat, source: seq<string>, body: seq<string>)
    returns (sources: seq<string>, bodies: seq<string>)
    ensures sources == source + Continuation(lines, quoted, from)
    ensures bodies == body + Continuation(lines, quoted, from)
  {
    hide EndsBody, PieceOf, Continuation, Absorbing;
    sources, bodies := source, body;
    var open, next := true, from;
    ghost var taken: seq<string> := [];
    assert Absorbing(lines, quoted, from, taken, open, next) by { AbsorbedNone(lines, quoted, from); }
    while open && next < |lines| && !EndsBody(lines[next], quoted)
      invariant sources == source + taken && bodies == body + taken
      invariant Absorbing(lines, quoted, from, taken, open, next)
      decreases |lines| - next
    {
      OpenHasSegments(lines[next], quoted);
      AbsorbOne(lines, quoted, from, taken, next);
      var piece, on := PieceInPlace(lines[next]);
      sources, bodies := sources + [piece], bodies + [piece];
      taken := taken + [piece];
      open, next := on, next + 1;
    }
    AbsorbedAll(lines, quoted, from, taken, open, next);
  }

  lemma AbsorbedNone(lines: seq<Line>, quoted: bool, from: nat)
    ensures Absorbing(lines, quoted, from, [], true, from)
  {
  }

  lemma OpenHasSegments(line: Line, quoted: bool)
    requires !EndsBody(line, quoted)
    ensures line.segments != []
  {
  }

  method AssembleInPlace(lines: seq<Line>, index: nat, segment: Segment, start: nat, bodyStart: nat, limit: nat) returns (span: Span)
    requires index < |lines| && start <= bodyStart <= limit <= |segment.text|
    ensures span == Assemble(lines, index, segment, start, bodyStart, limit)
  {
    hide BodyStop, Trim, TrimEnd, Joined, Continuation;
    var text := segment.text;
    var end := BodyStop(text, bodyStart, limit);
    var source, body := [TrimEnd(text[start..end])], [Trim(text[bodyStart..end])];
    if end == |text| && !segment.bounded {
      source, body := AbsorbInPlace(lines, lines[index].quoted, index + 1, source, body);
    } else {
      assert source + [] == source && body + [] == body;
    }
    span := Span(Joined(source, "\n"), Joined(body, " "), end);
  }

  // ------------------------------------------------------------------ the horizon token

  function Lower(c: char): char { if 'A' <= c <= 'Z' then (c as int + 32) as char else c }

  predicate IsTokenKeyword(word: string) {
    |word| == |TOKEN_KEYWORD| && forall i :: 0 <= i < |word| ==> Lower(word[i]) == TOKEN_KEYWORD[i]
  }

  /** Where a token that opens at `open` ends, and what it says. */
  datatype Token = Token(start: nat, end: nat, horizon: Horizon)

  /** The horizon token opening at `open`: strict on its left edge, tolerant of case and inner spaces. */
  function TokenAt(body: string, open: nat): (token: Option<Token>)
    requires open <= |body|
    ensures token.Some? ==> token.value.start == open < token.value.end <= |body| && token.value.horizon.Accepted()
  {
    if open == |body| || body[open] != '(' then None
    else
      var word := open + 1 + |TOKEN_KEYWORD|;
      if word > |body| || !IsTokenKeyword(body[open + 1..word]) then None
      else
        var colon := word + LeadingWhite(body[word..]);
        if colon == |body| || body[colon] != ':' then None
        else
          match FindChar(body, ')', colon + 1)
          case None => None
          case Some(close) =>
            match ParseHorizon(body[colon + 1..close])
            case None => None
            case Some(horizon) => Some(Token(open, close + 1, horizon))
  }

  /** The last horizon token opening before `upto`. */
  function LastToken(body: string, upto: nat): (token: Option<Token>)
    requires upto <= |body|
    ensures token.Some? ==> token.value.start < upto && token.value.start < token.value.end <= |body|
    ensures token.Some? ==> token.value.horizon.Accepted()
  {
    if upto == 0 then None
    else if TokenAt(body, upto - 1).Some? then TokenAt(body, upto - 1)
    else LastToken(body, upto - 1)
  }

  method FindTokenInPlace(body: string) returns (found: Option<Token>)
    ensures found == LastToken(body, |body|)
  {
    hide IsTokenKeyword, LeadingWhite, FindChar, ParseHorizon;
    found := None;
    var open := 0;
    while open < |body|
      invariant 0 <= open <= |body|
      invariant found == LastToken(body, open)
    {
      if body[open] == '(' {
        var token := TokenAt(body, open);
        if token.Some? { found := token; }
      }
      open := open + 1;
    }
  }

  /** Turns a gathered span into a record, applying the default when no token parses. */
  function RecordOf(date: CivilDate, span: Span, line: nat): ClaimRecord {
    match LastToken(span.body, |span.body|)
    case Some(token) =>
      ClaimRecord(Collapse(span.body[..token.start] + span.body[token.end..]), date, token.horizon, false, span.source, line)
    case None =>
      ClaimRecord(Collapse(span.body), date, Horizon(DEFAULT_HORIZON_DAYS), true, span.source, line)
  }

  // ------------------------------------------------------------------ what one position contributes

  function Refused(line: nat, text: string, reason: ClaimRejectionReason): Findings {
    Findings([], [ClaimRejection(line, Trim(text), reason)])
  }

  /** What a keyword at `start` whose head was read makes. */
  function Judged(lines: seq<Line>, index: nat, segment: Segment, now: Option<CivilDate>, start: nat, limit: nat, head: Head): Findings
    requires index < |lines| && start + |KEYWORD| + head.bodyStart <= limit <= |segment.text| && IsIsoShaped(head.date)
  {
    var number, text := lines[index].number, segment.text[start..limit];
    if !head.emDash then Refused(number, text, SeparatorNotEmDash)
    else
      match ParseDate(head.date)
      case None => Refused(number, text, ImpossibleDate)
      case Some(date) =>
        if now.Some? && date.After(now.value) then Refused(number, text, FutureObservation)
        else
          Findings([RecordOf(date, Assemble(lines, index, segment, start, start + |KEYWORD| + head.bodyStart, limit), number)], [])
  }

  function FindingAt(lines: seq<Line>, index: nat, segment: Segment, now: Option<CivilDate>, p: nat): Findings
    requires index < |lines|
  {
    if !At(segment.text, KEYWORD, p) then NOTHING
    else
      var limit := SpanLimit(segment.text, p);
      match ReadHead(segment.text[p + |KEYWORD|..limit])
      case None => NOTHING
      case Some(head) => Judged(lines, index, segment, now, p, limit, head)
  }

  /** Everything the positions of a segment from `from` on contribute, in order. */
  function FindingsFrom(lines: seq<Line>, index: nat, segment: Segment, now: Option<CivilDate>, from: nat): Findings
    requires index < |lines|
    decreases |segment.text| - from
  {
    if from >= |segment.text| then NOTHING
    else FindingAt(lines, index, segment, now, from).Then(FindingsFrom(lines, index, segment, now, from + 1))
  }

  // ------------------------------------------------------------------ the cursor visits every keyword once

  predicate InKeyword(c: char) { c == 'V' || c == 'e' || c == 'r' || c == 'i' || c == 'f' || c == 'y' || c == ':' }

  lemma KeywordChars(text: string, p: nat)
    requires At(text, KEYWORD, p)
    ensures text[p] == 'V'
    ensures forall k :: p <= k < p + |KEYWORD| ==> InKeyword(text[k])
    ensures forall k :: p < k < p + |KEYWORD| ==> text[k] != 'V'
  {
    var word := text[p..p + |KEYWORD|];
    forall k | p <= k < p + |KEYWORD| ensures text[k] == KEYWORD[k - p] { assert word[k - p] == text[k]; }
  }

  lemma NothingAt(lines: seq<Line>, index: nat, segment: Segment, now: Option<CivilDate>, p: nat)
    requires index < |lines| && !At(segment.text, KEYWORD, p)
    ensures FindingAt(lines, index, segment, now, p) == NOTHING
  {
    hide At, Judged, ReadHead, SpanLimit;
  }

  /** Where no keyword starts, nothing is contributed. */
  lemma {:induction false} NothingBetween(lines: seq<Line>, index: nat, segment: Segment, now: Option<CivilDate>, from: nat, upto: nat)
    requires index < |lines| && from <= upto
    requires forall p :: from <= p < upto ==> !At(segment.text, KEYWORD, p)
    ensures FindingsFrom(lines, index, segment, now, from) == FindingsFrom(lines, index, segment, now, upto)
    decreases upto
  {
    hide At, FindingAt, Findings.Then;
    if from < upto {
      NothingBetween(lines, index, segment, now, from, upto - 1);
      NothingAt(lines, index, segment, now, upto - 1);
      ThenNothing(FindingsFrom(lines, index, segment, now, upto));
      BeyondTheEnd(lines, index, segment, now, upto);
    }
  }

  lemma BeyondTheEnd(lines: seq<Line>, index: nat, segment: Segment, now: Option<CivilDate>, from: nat)
    requires index < |lines|
    ensures from >= |segment.text| ==> FindingsFrom(lines, index, segment, now, from) == NOTHING
  {
  }

  /** A keyword does not overlap itself. */
  lemma NoKeywordInside(text: string, start: nat, p: nat)
    requires At(text, KEYWORD, start) && start < p < start + |KEYWORD|
    ensures !At(text, KEYWORD, p)
  {
    hide At;
    KeywordChars(text, start);
    if At(text, KEYWORD, p) { KeywordChars(text, p); }
  }

  /** A head holds no keyword. */
  lemma NoKeywordInHead(text: string, from: nat, limit: nat, p: nat)
    requires from <= limit <= |text| && ReadHead(text[from..limit]).Some?
    requires from <= p < from + ReadHead(text[from..limit]).value.bodyStart
    ensures !At(text, KEYWORD, p)
  {
    hide At, SkipBlanks, Decimal.AllDigits;
    var rest := text[from..limit];
    HeadChars(rest, p - from);
    assert rest[p - from] == text[p];
    if At(text, KEYWORD, p) { KeywordChars(text, p); }
  }

  lemma HeadChars(rest: string, i: nat)
    requires ReadHead(rest).Some? && i < ReadHead(rest).value.bodyStart
    ensures rest[i] != 'V'
  {
    var index := SkipBlanks(rest, 0);
    var date := rest[index..index + DATE_LEN];
    if index <= i < index + DATE_LEN {
      assert rest[i] == date[i - index];
      IsoChars(date, i - index);
    }
  }

  lemma IsoChars(date: string, i: nat)
    requires IsIsoShaped(date) && i < DATE_LEN
    ensures date[i] != 'V'
  {
    if i < 4 { assert date[..4][i] == date[i]; }
    if 4 < i < 7 { assert date[5..7][i - 5] == date[i]; }
    if 7 < i { assert date[8..][i - 8] == date[i]; }
  }

  /** A body holds no keyword, within its span and so within its segment. */
  lemma NoKeywordInBody(text: string, start: nat, from: nat, p: nat)
    requires start + |KEYWORD| <= |text| && start + |KEYWORD| <= from <= SpanLimit(text, start)
    requires from <= p < BodyStop(text, from, SpanLimit(text, start))
    ensures !At(text, KEYWORD, p)
  {
    hide At, BodyStop, SpanLimit;
    assert !StopsBody(text, p, SpanLimit(text, start));
    LimitIsBacktick(text, start);
    if At(text, KEYWORD, p) {
      AtFits(text, p);
      KeywordChars(text, p);
      assert false;
    }
  }

  lemma LimitIsBacktick(text: string, start: nat)
    requires start + |KEYWORD| <= |text|
    ensures var limit := SpanLimit(text, start); limit < |text| ==> text[limit] == '`'
  {
  }

  lemma AtFits(text: string, p: nat)
    requires At(text, KEYWORD, p)
    ensures p + |KEYWORD| <= |text|
  {
  }

  /** No keyword starts strictly between these two. */
  ghost predicate NoKeywordBetween(text: string, start: nat, next: nat) {
    forall p :: start < p < next ==> !At(text, KEYWORD, p)
  }

  lemma AfterKeywordIsClear(text: string, start: nat)
    requires At(text, KEYWORD, start)
    ensures NoKeywordBetween(text, start, start + |KEYWORD|)
  {
    forall p | start < p < start + |KEYWORD| ensures !At(text, KEYWORD, p) { NoKeywordInside(text, start, p); }
  }

  lemma AfterBodyIsClear(text: string, start: nat)
    requires At(text, KEYWORD, start) && ReadHead(text[start + |KEYWORD|..SpanLimit(text, start)]).Some?
    ensures var bodyStart, limit := start + |KEYWORD| + ReadHead(text[start + |KEYWORD|..SpanLimit(text, start)]).value.bodyStart,
                                    SpanLimit(text, start);
            bodyStart <= limit && NoKeywordBetween(text, start, BodyStop(text, bodyStart, limit))
  {
    hide ReadHead, SpanLimit, BodyStop, StopsBody, NoKeywordBetween;
    var after, limit := start + |KEYWORD|, SpanLimit(text, start);
    var bodyStart := after + ReadHead(text[after..limit]).value.bodyStart;
    AfterKeywordIsClear(text, start);
    forall p | after <= p < BodyStop(text, bodyStart, limit) ensures !At(text, KEYWORD, p) {
      if p < bodyStart { NoKeywordInHead(text, after, limit, p); } else { NoKeywordInBody(text, start, bodyStart, p); }
    }
    ClearInTwo(text, start, after, BodyStop(text, bodyStart, limit));
  }

  lemma ClearInTwo(text: string, start: nat, middle: nat, next: nat)
    requires NoKeywordBetween(text, start, middle) && forall p :: middle <= p < next ==> !At(text, KEYWORD, p)
    ensures NoKeywordBetween(text, start, next)
  {
  }

  /** Reads the annotation at a keyword, and answers where the cursor goes on: past its body when it
      makes a record, and past the keyword otherwise. */
  method JudgeInPlace(lines: seq<Line>, index: nat, segment: Segment, now: Option<CivilDate>, start: nat)
    returns (found: Findings, cursor: nat)
    requires index < |lines| && At(segment.text, KEYWORD, start)
    ensures found == FindingAt(lines, index, segment, now, start)
    ensures start < cursor <= |segment.text| && NoKeywordBetween(segment.text, start, cursor)
  {
    hide ReadHead, SpanLimit, NoKeywordBetween, BodyStop, RecordOf, IsIsoShaped, ParseDate;
    var text, number, after := segment.text, lines[index].number, start + |KEYWORD|;
    var limit := SpanLimit(text, start);
    var head := ReadHeadInPlace(text[after..limit]);
    AfterKeywordIsClear(text, start);
    if head.None? { return NOTHING, after; }
    if !head.value.emDash { return Refused(number, text[start..limit], SeparatorNotEmDash), after; }
    var date := ParseDate(head.value.date);
    if date.None? { return Refused(number, text[start..limit], ImpossibleDate), after; }
    if now.Some? && date.value.After(now.value) { return Refused(number, text[start..limit], FutureObservation), after; }
    var gathered := AssembleInPlace(lines, index, segment, start, after + head.value.bodyStart, limit);
    AfterBodyIsClear(text, start);
    return Findings([RecordOf(date.value, gathered, number)], []), gathered.end;
  }

  lemma ThenIsAssociative(a: Findings, b: Findings, c: Findings)
    ensures a.Then(b).Then(c) == a.Then(b.Then(c))
  {
    assert a.records + b.records + c.records == a.records + (b.records + c.records);
    assert a.rejections + b.rejections + c.rejections == a.rejections + (b.rejections + c.rejections);
  }

  lemma ThenNothing(a: Findings)
    ensures a.Then(NOTHING) == a && NOTHING.Then(a) == a
  {
    assert a.records + [] == a.records && [] + a.records == a.records;
    assert a.rejections + [] == a.rejections && [] + a.rejections == a.rejections;
  }

  lemma VisitOne(lines: seq<Line>, index: nat, segment: Segment, now: Option<CivilDate>, cursor: nat, start: nat, next: nat)
    requires index < |lines| && cursor <= |segment.text| && FindFrom(segment.text, KEYWORD, cursor) == Some(start)
    requires start < next <= |segment.text| && NoKeywordBetween(segment.text, start, next)
    ensures FindingsFrom(lines, index, segment, now, cursor)
            == FindingAt(lines, index, segment, now, start).Then(FindingsFrom(lines, index, segment, now, next))
  {
    hide FindingAt, At;
    NothingBetween(lines, index, segment, now, cursor, start);
    NothingBetween(lines, index, segment, now, start + 1, next);
  }

  /** Reads every annotation in one segment: exactly what each of its positions contributes, so every
      keyword is visited once, however far the cursor jumps. */
  method ScanSegment(lines: seq<Line>, index: nat, segment: Segment, now: Option<CivilDate>, before: Findings)
    returns (found: Findings)
    requires index < |lines|
    ensures found == before.Then(FindingsFrom(lines, index, segment, now, 0))
  {
    hide FindingAt, FindingsFrom, NoKeywordBetween, At, Findings.Then;
    found := before;
    var cursor := 0;
    var next := FindFrom(segment.text, KEYWORD, cursor);
    while next.Some?
      invariant 0 <= cursor <= |segment.text| && next == FindFrom(segment.text, KEYWORD, cursor)
      invariant found.Then(FindingsFrom(lines, index, segment, now, cursor))
                == before.Then(FindingsFrom(lines, index, segment, now, 0))
      decreases |segment.text| - cursor
    {
      var made, after := JudgeInPlace(lines, index, segment, now, next.value);
      VisitOne(lines, index, segment, now, cursor, next.value, after);
      ThenIsAssociative(found, made, FindingsFrom(lines, index, segment, now, after));
      found := found.Then(made);
      cursor := after;
      next := FindFrom(segment.text, KEYWORD, cursor);
    }
    NothingLeft(lines, index, segment, now, cursor);
    ThenNothing(found);
  }

  lemma NothingLeft(lines: seq<Line>, index: nat, segment: Segment, now: Option<CivilDate>, cursor: nat)
    requires index < |lines| && cursor <= |segment.text| && FindFrom(segment.text, KEYWORD, cursor).None?
    ensures FindingsFrom(lines, index, segment, now, cursor) == NOTHING
  {
    hide FindingAt, At;
    NothingBetween(lines, index, segment, now, cursor, |segment.text|);
  }

  // ------------------------------------------------------------------ the whole document

  /** What the segments of a line from `n` on contribute. */
  function SegmentFindings(lines: seq<Line>, index: nat, now: Option<CivilDate>, n: nat): Findings
    requires index < |lines|
    decreases |lines[index].segments| - n
  {
    if n >= |lines[index].segments| then NOTHING
    else FindingsFrom(lines, index, lines[index].segments[n], now, 0).Then(SegmentFindings(lines, index, now, n + 1))
  }

  /** What the lines of a document from `index` on contribute. */
  function LineFindings(lines: seq<Line>, now: Option<CivilDate>, index: nat): Findings
    decreases |lines| - index
  {
    if index >= |lines| then NOTHING
    else SegmentFindings(lines, index, now, 0).Then(LineFindings(lines, now, index + 1))
  }

  method ScanLine(lines: seq<Line>, index: nat, now: Option<CivilDate>, before: Findings) returns (found: Findings)
    requires index < |lines|
    ensures found == before.Then(SegmentFindings(lines, index, now, 0))
  {
    hide FindingsFrom, Findings.Then;
    found := before;
    for n := 0 to |lines[index].segments|
      invariant found.Then(SegmentFindings(lines, index, now, n)) == before.Then(SegmentFindings(lines, index, now, 0))
    {
      var segment := lines[index].segments[n];
      ThenIsAssociative(found, FindingsFrom(lines, index, segment, now, 0), SegmentFindings(lines, index, now, n + 1));
      found := ScanSegment(lines, index, segment, now, found);
    }
    ThenNothing(found);
  }

  method ScanLinesInPlace(lines: seq<Line>, now: Option<CivilDate>) returns (found: Findings)
    ensures found == LineFindings(lines, now, 0)
  {
    hide SegmentFindings, Findings.Then;
    found := NOTHING;
    ThenNothing(LineFindings(lines, now, 0));
    for index := 0 to |lines|
      invariant found.Then(LineFindings(lines, now, index)) == LineFindings(lines, now, 0)
    {
      ThenIsAssociative(found, SegmentFindings(lines, index, now, 0), LineFindings(lines, now, index + 1));
      found := ScanLine(lines, index, now, found);
    }
    ThenNothing(found);
  }
}
