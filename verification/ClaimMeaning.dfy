/** What a scan says of a document, spelled out without the scanner: which lines it reads, what an annotation
    makes, where its text comes from, and, both ways, every record and every refusal
    (crates/aep-backend-markdown/src/claim.rs:413-634, 763-857). */
module ClaimMeaning {
  import opened Wrappers
  import opened Texts
  import opened Dates
  import opened Calendar
  import opened ClaimLines
  import opened Claims
  import opened ClaimCounting
  import opened ClaimRoundTrip
  import opened ClaimGrammar

  // ------------------------------------------------------------------ lines

  /** What is read of line `n`: its number from one, whether it is quoted, whether a body stops at it, and
      its segments, of which a line that is fenced off has none. */
  lemma ReadLinesExactly(text: string, n: nat)
    requires n < |Lines(text)|
    ensures var raws, line := Lines(text), ReadLines(text)[n];
            var (rest, quoted) := StripQuote(raws[n]);
            && line.number == n + 1 && line.quoted == quoted
            && (line.stopsABody <==> FencedOff(raws, n) || StopText(Trim(rest)))
            && line.segments == if FencedOff(raws, n) then [] else SplitSegments(rest)
  {
    hide FencedOff, Excluded, StopText, IsStopLine, StripQuote, SplitSegments, Trim, Lines;
    FencedExactly(Lines(text), n);
    StopExactly(StripQuote(Lines(text)[n]).0);
  }

  // ------------------------------------------------------------------ the body

  /** `Verify:` or `Due:` stands at `p`, all of it before `limit`. */
  ghost predicate KeywordFits(text: string, p: nat, limit: nat) {
    && limit <= |text|
    && ((p + 7 <= limit && text[p..p + 7] == "Verify:") || (p + 4 <= limit && text[p..p + 4] == "Due:"))
  }

  /** A body that starts at `from` ends at the first keyword after, and otherwise at `limit`. */
  ghost predicate Ends(text: string, from: nat, limit: nat, end: nat) {
    && from <= end <= limit <= |text|
    && (forall p: nat :: from <= p < end ==> !KeywordFits(text, p, limit))
    && (end < limit ==> KeywordFits(text, end, limit))
  }

  lemma FitsExactly(text: string, p: nat, limit: nat)
    requires limit <= |text|
    ensures StopsBody(text, p, limit) <==> KeywordFits(text, p, limit)
  {
    assert |KEYWORD| == 7 && |OTHER_KEYWORD| == 4;
  }

  lemma BodyEndsExactly(text: string, from: nat, limit: nat, end: nat)
    requires from <= limit <= |text|
    ensures BodyStop(text, from, limit) == end <==> Ends(text, from, limit, end)
  {
    hide BodyStop, StopsBody, KeywordFits;
    var stop := BodyStop(text, from, limit);
    forall p: nat ensures StopsBody(text, p, limit) <==> KeywordFits(text, p, limit) { FitsExactly(text, p, limit); }
    assert Ends(text, from, limit, stop);
    if Ends(text, from, limit, end) { assert !(stop < end) && !(end < stop); }
  }

  /** A body may run into this line: it is quoted alike, something is read of it, and no body stops at it. */
  ghost predicate RunsInto(lines: seq<Line>, quoted: bool, n: nat) {
    n < |lines| && !lines[n].stopsABody && lines[n].quoted == quoted && lines[n].segments != []
  }

  /** What a body takes of a line: its first segment up to a keyword. */
  ghost predicate Takes(line: Line, piece: string, stop: nat) {
    && line.segments != [] && Ends(line.segments[0].text, 0, |line.segments[0].text|, stop)
    && piece == Trim(line.segments[0].text[..stop])
  }

  /** A body goes on after a line when it took all of it. */
  ghost predicate Fills(line: Line, stop: nat) {
    line.segments != [] && stop == |line.segments[0].text| && !line.segments[0].bounded
  }

  ghost predicate GathersAt(lines: seq<Line>, quoted: bool, from: nat, pieces: seq<string>, stops: seq<nat>, k: nat)
    requires k < |pieces| == |stops|
  {
    && RunsInto(lines, quoted, from + k) && Takes(lines[from + k], pieces[k], stops[k])
    && (k < |pieces| - 1 ==> Fills(lines[from + k], stops[k]))
  }

  /** The pieces a body takes of the lines from `from` on, and where it stops in each: it fills every line but
      the last, and goes no further because it did not fill the last or cannot run into the next. */
  ghost predicate Gathers(lines: seq<Line>, quoted: bool, from: nat, pieces: seq<string>, stops: seq<nat>) {
    && |pieces| == |stops|
    && (forall k: nat :: k < |pieces| ==> GathersAt(lines, quoted, from, pieces, stops, k))
    && (RunsInto(lines, quoted, from + |pieces|) ==> pieces != [] && !Fills(lines[from + |pieces| - 1], stops[|pieces| - 1]))
  }

  lemma PieceExactly(line: Line) returns (stop: nat)
    requires line.segments != []
    ensures Takes(line, PieceOf(line).0, stop) && (PieceOf(line).1 <==> Fills(line, stop))
  {
    hide BodyStop, Ends, Trim;
    var text := line.segments[0].text;
    stop := BodyStop(text, 0, |text|);
    BodyEndsExactly(text, 0, |text|, stop);
  }

  lemma GathersNone(lines: seq<Line>, quoted: bool, from: nat)
    requires !RunsInto(lines, quoted, from)
    ensures Gathers(lines, quoted, from, [], [])
  {
  }

  lemma GathersOne(lines: seq<Line>, quoted: bool, from: nat, piece: string, stop: nat)
    requires RunsInto(lines, quoted, from) && Takes(lines[from], piece, stop) && !Fills(lines[from], stop)
    ensures Gathers(lines, quoted, from, [piece], [stop])
  {
    hide RunsInto, Takes, Fills;
  }

  lemma GathersMore(lines: seq<Line>, quoted: bool, from: nat, piece: string, stop: nat, pieces: seq<string>, stops: seq<nat>)
    requires RunsInto(lines, quoted, from) && Takes(lines[from], piece, stop) && Fills(lines[from], stop)
    requires Gathers(lines, quoted, from + 1, pieces, stops)
    ensures Gathers(lines, quoted, from, [piece] + pieces, [stop] + stops)
  {
    hide Takes, Fills;
    var all, ends := [piece] + pieces, [stop] + stops;
    forall k: nat | k < |all| ensures GathersAt(lines, quoted, from, all, ends, k) {
      if k > 0 { assert GathersAt(lines, quoted, from + 1, pieces, stops, k - 1); }
    }
    assert from + |all| == from + 1 + |pieces|;
    if pieces != [] {
      var last: nat := |pieces| - 1;
      assert ends[|all| - 1] == stops[last];
      assert GathersAt(lines, quoted, from + 1, pieces, stops, last);
    }
  }

  /** What a body gathers is what the scanner absorbs. */
  lemma {:induction false} ContinuationGathers(lines: seq<Line>, quoted: bool, from: nat) returns (stops: seq<nat>)
    ensures Gathers(lines, quoted, from, Continuation(lines, quoted, from), stops)
    decreases |lines| - from
  {
    hide PieceOf, Gathers, Takes, Fills;
    var taken := Continuation(lines, quoted, from);
    if !RunsInto(lines, quoted, from) {
      stops := [];
      GathersNone(lines, quoted, from);
    } else {
      var piece := PieceOf(lines[from]).0;
      var stop := PieceExactly(lines[from]);
      if Fills(lines[from], stop) {
        var more := ContinuationGathers(lines, quoted, from + 1);
        stops := [stop] + more;
        assert taken == [piece] + Continuation(lines, quoted, from + 1);
        GathersMore(lines, quoted, from, piece, stop, Continuation(lines, quoted, from + 1), more);
      } else {
        stops := [stop];
        assert taken == [piece];
        GathersOne(lines, quoted, from, piece, stop);
      }
    }
  }

  lemma {:induction false} GatheredIsAbsorbed(lines: seq<Line>, quoted: bool, from: nat, pieces: seq<string>, stops: seq<nat>)
    requires Gathers(lines, quoted, from, pieces, stops)
    ensures Continuation(lines, quoted, from) == pieces
    decreases |pieces|
  {
    hide PieceOf, Takes, Fills;
    assert RunsInto(lines, quoted, from + |pieces|) ==> pieces != [];
    if pieces != [] {
      assert GathersAt(lines, quoted, from, pieces, stops, 0);
      TakenIsPiece(lines[from], pieces[0], stops[0]);
      if |pieces| > 1 {
        GathersRest(lines, quoted, from, pieces, stops);
        GatheredIsAbsorbed(lines, quoted, from + 1, pieces[1..], stops[1..]);
        assert pieces == [pieces[0]] + pieces[1..];
      }
    }
  }

  lemma TakenIsPiece(line: Line, piece: string, stop: nat)
    requires Takes(line, piece, stop)
    ensures PieceOf(line).0 == piece && (PieceOf(line).1 <==> Fills(line, stop))
  {
    hide BodyStop, Ends, Trim;
    BodyEndsExactly(line.segments[0].text, 0, |line.segments[0].text|, stop);
  }

  lemma GathersRest(lines: seq<Line>, quoted: bool, from: nat, pieces: seq<string>, stops: seq<nat>)
    requires Gathers(lines, quoted, from, pieces, stops) && |pieces| > 1
    ensures Gathers(lines, quoted, from + 1, pieces[1..], stops[1..])
    ensures from < |lines| && Fills(lines[from], stops[0])
  {
    hide Takes, Fills;
    var next: nat := from + 1;
    var more, ends := pieces[1..], stops[1..];
    assert GathersAt(lines, quoted, from, pieces, stops, 0);
    forall k: nat | k < |more| ensures GathersAt(lines, quoted, next, more, ends, k) {
      assert GathersAt(lines, quoted, from, pieces, stops, k + 1);
    }
    assert from + 1 + |more| == from + |pieces|;
    assert ends[|more| - 1] == stops[|pieces| - 1];
    assert GathersAt(lines, quoted, from, pieces, stops, |pieces| - 1);
  }

  /** The text of an annotation whose body starts at `bodyStart`: up to the next keyword, and across the lines
      it runs into when it fills its own. The source keeps the line breaks; the body has spaces for them. */
  ghost predicate Assembled(
    lines: seq<Line>, index: nat, segment: Segment, p: nat, bodyStart: nat, limit: nat, end: nat,
    pieces: seq<string>, stops: seq<nat>, source: string, body: string)
    requires index < |lines|
  {
    && p <= bodyStart && Ends(segment.text, bodyStart, limit, end)
    && (if end == |segment.text| && !segment.bounded then Gathers(lines, lines[index].quoted, index + 1, pieces, stops) else pieces == [])
    && source == Joined([TrimEnd(segment.text[p..end])] + pieces, "\n")
    && body == Joined([Trim(segment.text[bodyStart..end])] + pieces, " ")
  }

  lemma AssembleExactly(lines: seq<Line>, index: nat, segment: Segment, p: nat, bodyStart: nat, limit: nat)
    returns (end: nat, pieces: seq<string>, stops: seq<nat>)
    requires index < |lines| && p <= bodyStart <= limit <= |segment.text|
    ensures var span := Assemble(lines, index, segment, p, bodyStart, limit);
            Assembled(lines, index, segment, p, bodyStart, limit, end, pieces, stops, span.source, span.body)
  {
    hide BodyStop, Ends, Trim, TrimEnd, Joined, Continuation, Gathers;
    end := BodyStop(segment.text, bodyStart, limit);
    BodyEndsExactly(segment.text, bodyStart, limit, end);
    pieces, stops := [], [];
    if end == |segment.text| && !segment.bounded {
      pieces := Continuation(lines, lines[index].quoted, index + 1);
      stops := ContinuationGathers(lines, lines[index].quoted, index + 1);
    }
  }

  lemma AssembledIsGathered(
    lines: seq<Line>, index: nat, segment: Segment, p: nat, bodyStart: nat, limit: nat, end: nat,
    pieces: seq<string>, stops: seq<nat>, source: string, body: string)
    requires index < |lines| && p <= bodyStart <= limit <= |segment.text|
    requires Assembled(lines, index, segment, p, bodyStart, limit, end, pieces, stops, source, body)
    ensures var span := Assemble(lines, index, segment, p, bodyStart, limit); span.source == source && span.body == body
  {
    hide BodyStop, Ends, Trim, TrimEnd, Joined, Continuation, Gathers;
    BodyEndsExactly(segment.text, bodyStart, limit, end);
    if end == |segment.text| && !segment.bounded {
      GatheredIsAbsorbed(lines, lines[index].quoted, index + 1, pieces, stops);
    }
  }

  // ------------------------------------------------------------------ the record

  ghost predicate NoTokenFrom(body: string, from: nat) {
    forall start: nat, end: nat, days: nat :: from <= start < end <= |body| ==> !SpellsToken(body[start..end], days)
  }

  /** What a body says with the token at `start`, the last one in it: its days, and the rest, collapsed. */
  ghost predicate SaysWith(body: string, days: nat, claim: string, start: nat, end: nat) {
    && start < end <= |body| && SpellsToken(body[start..end], days) && NoTokenFrom(body, start + 1)
    && claim == Joined(Words(body[..start] + body[end..]), " ")
  }

  /** What a body says: with its last horizon token, or, malformed and for 14 days, with none. */
  ghost predicate Says(body: string, days: nat, claim: string, malformed: bool) {
    if malformed then NoTokenFrom(body, 0) && days == 14 && claim == Joined(Words(body), " ")
    else exists start: nat, end: nat :: SaysWith(body, days, claim, start, end)
  }

  lemma NoTokenMeans(body: string, from: nat)
    ensures NoTokenFrom(body, from) <==> forall open: nat :: from <= open < |body| ==> TokenAt(body, open).None?
  {
    hide TokenAt, SpellsToken;
    if forall open: nat :: from <= open < |body| ==> TokenAt(body, open).None? {
      forall start: nat, end: nat, days: nat | from <= start < end <= |body| ensures !SpellsToken(body[start..end], days) {
        TokenExactly(body, start, end, days);
      }
    }
    if NoTokenFrom(body, from) {
      forall open: nat | from <= open < |body| ensures TokenAt(body, open).None? {
        if TokenAt(body, open).Some? {
          var token := TokenAt(body, open).value;
          TokenExactly(body, open, token.end, token.horizon.days);
        }
      }
    }
  }

  /** The token with none after it is the last one. */
  lemma LastTokenIs(body: string, start: nat, end: nat, days: nat)
    requires start < |body| && TokenAt(body, start) == Some(Token(start, end, Horizon(days)))
    requires forall open: nat :: start + 1 <= open < |body| ==> TokenAt(body, open).None?
    ensures LastToken(body, |body|) == Some(Token(start, end, Horizon(days)))
  {
    hide TokenAt, LastToken;
    LastTokenExactly(body, |body|);
    var found := LastToken(body, |body|);
    assert found.Some? && found.value.start == start;
  }

  lemma NoTokenIsLast(body: string)
    requires forall open: nat :: open < |body| ==> TokenAt(body, open).None?
    ensures LastToken(body, |body|).None?
  {
    hide TokenAt, LastToken;
    LastTokenExactly(body, |body|);
  }

  /** A record says what its body says, and nothing else does. */
  lemma RecordExactly(date: CivilDate, span: Span, line: nat, r: ClaimRecord)
    ensures r == RecordOf(date, span, line) <==>
            && Says(span.body, r.horizon.days, r.claim, r.malformed)
            && r.date == date && r.source == span.source && r.line == line
  {
    hide LastToken, Says, RecordOf;
    SaidIsRecord(date, span, line);
    if Says(span.body, r.horizon.days, r.claim, r.malformed) {
      OneMeaning(span.body, r, date, span.source, line);
    }
  }

  lemma SaidIsRecord(date: CivilDate, span: Span, line: nat)
    ensures var r := RecordOf(date, span, line);
            Says(span.body, r.horizon.days, r.claim, r.malformed) && r.date == date && r.source == span.source && r.line == line
  {
    hide LastToken, TokenAt, SpellsToken, Collapse, Words, Joined, NoTokenFrom;
    var body := span.body;
    LastTokenExactly(body, |body|);
    match LastToken(body, |body|) {
      case Some(token) =>
        TokenExactly(body, token.start, token.end, token.horizon.days);
        NoTokenMeans(body, token.start + 1);
        CollapseIsWords(body[..token.start] + body[token.end..]);
        assert SaysWith(body, token.horizon.days, RecordOf(date, span, line).claim, token.start, token.end);
      case None =>
        NoTokenMeans(body, 0);
        CollapseIsWords(body);
    }
  }

  lemma OneMeaning(body: string, r: ClaimRecord, date: CivilDate, source: string, line: nat)
    requires Says(body, r.horizon.days, r.claim, r.malformed)
    ensures forall span: Span :: span.body == body && span.source == source && r.date == date && r.source == source && r.line == line
              ==> r == RecordOf(date, span, line)
  {
    hide LastToken, TokenAt, SpellsToken, Collapse, Words, Joined, NoTokenFrom;
    if r.malformed {
      NoTokenMeans(body, 0);
      NoTokenIsLast(body);
      CollapseIsWords(body);
    } else {
      var start: nat, end: nat :| SaysWith(body, r.horizon.days, r.claim, start, end);
      TokenExactly(body, start, end, r.horizon.days);
      NoTokenMeans(body, start + 1);
      LastTokenIs(body, start, end, r.horizon.days);
      CollapseIsWords(body[..start] + body[end..]);
    }
  }

  // ------------------------------------------------------------------ one annotation

  /** `Verify:` stands at `p` with a head after it, in a span that reaches to `limit`. */
  ghost predicate Opens(text: string, p: nat, limit: nat, head: Head) {
    p + 7 <= |text| && text[p..p + 7] == "Verify:" && Reaches(text, p, limit) && HasHead(text[p + 7..limit], head)
  }

  /** The day a date names, when the calendar has one. */
  ghost predicate Names(date: string, day: CivilDate) { day.Exists() && day.Show() == date }

  /** Later than the reference, by the count of days. */
  ghost predicate Beyond(day: CivilDate, now: Option<CivilDate>) { now.Some? && DaysFromEpoch(day) > DaysFromEpoch(now.value) }

  /** Why a head is refused. */
  ghost predicate Earns(head: Head, now: Option<CivilDate>, reason: ClaimRejectionReason) {
    match reason
    case SeparatorNotEmDash => !head.emDash
    case ImpossibleDate => head.emDash && forall day: CivilDate :: !Names(head.date, day)
    case FutureObservation => head.emDash && exists day: CivilDate :: Names(head.date, day) && Beyond(day, now)
  }

  ghost predicate RejectsBy(
    lines: seq<Line>, now: Option<CivilDate>, index: nat, segment: Segment, p: nat, x: ClaimRejection,
    limit: nat, head: Head)
    requires index < |lines|
  {
    && Opens(segment.text, p, limit, head) && Earns(head, now, x.reason)
    && x.line == lines[index].number && x.text == Trim(segment.text[p..limit])
  }

  ghost predicate ObservesBy(
    lines: seq<Line>, now: Option<CivilDate>, index: nat, segment: Segment, p: nat, r: ClaimRecord,
    limit: nat, head: Head, end: nat, pieces: seq<string>, stops: seq<nat>, body: string)
    requires index < |lines|
  {
    && Opens(segment.text, p, limit, head) && head.emDash
    && Names(head.date, r.date) && !Beyond(r.date, now) && r.line == lines[index].number
    && Assembled(lines, index, segment, p, p + 7 + head.bodyStart, limit, end, pieces, stops, r.source, body)
    && Says(body, r.horizon.days, r.claim, r.malformed)
  }

  /** A day is named by a text exactly when reading the text gives that day. */
  lemma NamesExactly(date: string, day: CivilDate)
    requires DateShaped(date)
    ensures IsIsoShaped(date) && (ParseDate(date) == Some(day) <==> Names(date, day))
  {
    hide IsIsoShaped, DateShaped, CivilDate.Show, CivilDate.Exists;
    IsoExactly(date);
    if ParseDate(date) == Some(day) { ParsedDateIsShown(date); }
    if Names(date, day) { ShapedYear(date, day); ShownDateIsParsed(day); }
  }

  /** A date of ten characters has a year of at most four digits. */
  lemma ShapedYear(date: string, day: CivilDate)
    requires DateShaped(date) && Names(date, day)
    ensures day.year <= 9999
  {
    hide Decimal.Pad, Decimal.Value;
    assert |day.Show()| == |Decimal.Pad(day.year, 4)| + 1 + |Decimal.Pad(day.month, 2)| + 1 + |Decimal.Pad(day.day, 2)|;
    Decimal.PadSpells(day.year, 4);
    ShortDigits(Decimal.Pad(day.year, 4), 4);
    assert Decimal.Power10(4) == 10000 by { assert Decimal.Power10(1) == 10; assert Decimal.Power10(3) == 1000; }
  }

  /** Where no keyword opens a head, nothing is found. */
  lemma NothingFound(lines: seq<Line>, index: nat, segment: Segment, now: Option<CivilDate>, p: nat)
    requires index < |lines|
    requires !At(segment.text, KEYWORD, p) || ReadHead(segment.text[p + 7..SpanLimit(segment.text, p)]).None?
    ensures FindingAt(lines, index, segment, now, p) == NOTHING
  {
    hide At, SpanLimit, ReadHead, Judged;
    if At(segment.text, KEYWORD, p) { AtFits(segment.text, p); }
  }

  lemma KeywordExactly(text: string, p: nat)
    ensures At(text, KEYWORD, p) <==> p + 7 <= |text| && text[p..p + 7] == "Verify:"
  {
  }

  /** A keyword opens a head exactly where the scanner reads one. */
  lemma OpensExactly(text: string, p: nat, limit: nat, head: Head)
    ensures Opens(text, p, limit, head) <==>
            At(text, KEYWORD, p) && limit == SpanLimit(text, p) && ReadHead(text[p + 7..limit]) == Some(head)
  {
    hide At, SpanLimit, ReadHead, HasHead, Reaches;
    KeywordExactly(text, p);
    if p + 7 <= |text| {
      SpanExactly(text, p, limit);
      if Reaches(text, p, limit) { HeadExactly(text[p + 7..limit], head); }
    }
  }

  /** What a head that opens is judged to be. */
  lemma FoundIsJudged(lines: seq<Line>, index: nat, segment: Segment, now: Option<CivilDate>, p: nat, limit: nat, head: Head)
    requires index < |lines| && At(segment.text, KEYWORD, p) && limit == SpanLimit(segment.text, p)
    requires ReadHead(segment.text[p + 7..limit]) == Some(head)
    ensures p + 7 + head.bodyStart <= limit && IsIsoShaped(head.date)
    ensures FindingAt(lines, index, segment, now, p) == Judged(lines, index, segment, now, p, limit, head)
  {
    hide At, SpanLimit, ReadHead, Judged, IsIsoShaped;
    assert |KEYWORD| == 7;
  }

  lemma EarnsExactly(lines: seq<Line>, index: nat, segment: Segment, now: Option<CivilDate>, p: nat, limit: nat, head: Head, x: ClaimRejection)
    requires index < |lines| && p + 7 + head.bodyStart <= limit <= |segment.text| && DateShaped(head.date)
    requires now.Some? ==> now.value.Exists()
    ensures IsIsoShaped(head.date)
    ensures x in Judged(lines, index, segment, now, p, limit, head).rejections <==>
            Earns(head, now, x.reason) && x.line == lines[index].number && x.text == Trim(segment.text[p..limit])
  {
    hide Assemble, RecordOf, Trim, ParseDate, DateShaped, IsIsoShaped, CivilDate.After, DaysFromEpoch, CivilDate.Exists, CivilDate.Show;
    IsoExactly(head.date);
    forall day: CivilDate ensures ParseDate(head.date) == Some(day) <==> Names(head.date, day) { NamesExactly(head.date, day); }
    if ParseDate(head.date).Some? && now.Some? { AfterIsMoreDays(ParseDate(head.date).value, now.value); }
  }

  lemma ObservedExactly(lines: seq<Line>, index: nat, segment: Segment, now: Option<CivilDate>, p: nat, limit: nat, head: Head, r: ClaimRecord)
    requires index < |lines| && p + 7 + head.bodyStart <= limit <= |segment.text| && IsIsoShaped(head.date)
    requires now.Some? ==> now.value.Exists()
    ensures var span := Assemble(lines, index, segment, p, p + 7 + head.bodyStart, limit);
            r in Judged(lines, index, segment, now, p, limit, head).records <==>
            head.emDash && Names(head.date, r.date) && !Beyond(r.date, now) && r == RecordOf(r.date, span, lines[index].number)
  {
    hide Assemble, RecordOf, Trim, ParseDate, DateShaped, IsIsoShaped, CivilDate.After, DaysFromEpoch, CivilDate.Exists, CivilDate.Show;
    assert |KEYWORD| == 7;
    IsoExactly(head.date);
    NamesExactly(head.date, r.date);
    if ParseDate(head.date).Some? {
      var day, span := ParseDate(head.date).value, Assemble(lines, index, segment, p, p + 7 + head.bodyStart, limit);
      NamesExactly(head.date, day);
      RecordExactly(day, span, lines[index].number, RecordOf(day, span, lines[index].number));
      if now.Some? { AfterIsMoreDays(day, now.value); }
    }
  }

  ghost predicate Observes(lines: seq<Line>, now: Option<CivilDate>, index: nat, segment: Segment, p: nat, r: ClaimRecord)
    requires index < |lines|
  {
    exists limit: nat, head: Head, end: nat, pieces: seq<string>, stops: seq<nat>, body: string ::
      ObservesBy(lines, now, index, segment, p, r, limit, head, end, pieces, stops, body)
  }

  ghost predicate Rejects(lines: seq<Line>, now: Option<CivilDate>, index: nat, segment: Segment, p: nat, x: ClaimRejection)
    requires index < |lines|
  {
    exists limit: nat, head: Head :: RejectsBy(lines, now, index, segment, p, x, limit, head)
  }

  /** A position contributes exactly the refusal it earns. */
  lemma RejectedExactly(lines: seq<Line>, index: nat, segment: Segment, now: Option<CivilDate>, p: nat, x: ClaimRejection)
    requires index < |lines| && (now.Some? ==> now.value.Exists())
    ensures x in FindingAt(lines, index, segment, now, p).rejections <==> Rejects(lines, now, index, segment, p, x)
  {
    hide At, SpanLimit, ReadHead, Judged, FindingAt, Opens, Earns, Trim;
    var text := segment.text;
    if At(text, KEYWORD, p) && ReadHead(HeadText(text, p)).Some? {
      var limit, head := SpanLimit(text, p), ReadHead(HeadText(text, p)).value;
      FoundIsJudged(lines, index, segment, now, p, limit, head);
      OpensExactly(text, p, limit, head);
      IsoExactly(head.date);
      EarnsExactly(lines, index, segment, now, p, limit, head, x);
      if x in FindingAt(lines, index, segment, now, p).rejections { assert RejectsBy(lines, now, index, segment, p, x, limit, head); }
      if upto: nat, other: Head :| RejectsBy(lines, now, index, segment, p, x, upto, other) { OpensExactly(text, p, upto, other); }
    } else {
      NothingFound(lines, index, segment, now, p);
      if upto: nat, other: Head :| RejectsBy(lines, now, index, segment, p, x, upto, other) { OpensExactly(text, p, upto, other); }
    }
  }

  /** The text a head is read from. */
  ghost function HeadText(text: string, p: nat): string
    requires At(text, KEYWORD, p)
  {
    text[p + 7..SpanLimit(text, p)]
  }

  /** A position contributes exactly the record it makes. */
  lemma RecordedExactly(lines: seq<Line>, index: nat, segment: Segment, now: Option<CivilDate>, p: nat, r: ClaimRecord)
    requires index < |lines| && (now.Some? ==> now.value.Exists())
    ensures r in FindingAt(lines, index, segment, now, p).records <==> Observes(lines, now, index, segment, p, r)
  {
    hide At, SpanLimit, ReadHead, Judged, FindingAt, Opens, Assembled, Says, Beyond, Names, RecordOf, Assemble;
    var text := segment.text;
    if At(text, KEYWORD, p) && ReadHead(HeadText(text, p)).Some? {
      var limit, head := SpanLimit(text, p), ReadHead(HeadText(text, p)).value;
      FoundIsJudged(lines, index, segment, now, p, limit, head);
      OpensExactly(text, p, limit, head);
      ObservedExactly(lines, index, segment, now, p, limit, head, r);
      var span := Assemble(lines, index, segment, p, p + 7 + head.bodyStart, limit);
      RecordExactly(r.date, span, lines[index].number, r);
      if r in FindingAt(lines, index, segment, now, p).records {
        var end, pieces, stops := AssembleExactly(lines, index, segment, p, p + 7 + head.bodyStart, limit);
        assert ObservesBy(lines, now, index, segment, p, r, limit, head, end, pieces, stops, span.body);
      }
      if upto: nat, other: Head, end: nat, pieces: seq<string>, stops: seq<nat>, body: string
        :| ObservesBy(lines, now, index, segment, p, r, upto, other, end, pieces, stops, body)
      {
        OpensExactly(text, p, upto, other);
        AssembledIsGathered(lines, index, segment, p, p + 7 + head.bodyStart, limit, end, pieces, stops, r.source, body);
      }
    } else {
      NothingFound(lines, index, segment, now, p);
      if upto: nat, other: Head, end: nat, pieces: seq<string>, stops: seq<nat>, body: string
        :| ObservesBy(lines, now, index, segment, p, r, upto, other, end, pieces, stops, body)
      {
        OpensExactly(text, p, upto, other);
      }
    }
  }

  // ------------------------------------------------------------------ the scan

  /** One of the findings holds this record or this refusal. */
  datatype Item = Record(record: ClaimRecord) | Rejection(rejection: ClaimRejection)

  ghost predicate Holds(found: Findings, item: Item) {
    match item
    case Record(record) => record in found.records
    case Rejection(rejection) => rejection in found.rejections
  }

  lemma HoldsThen(a: Findings, b: Findings, item: Item)
    ensures Holds(a.Then(b), item) <==> Holds(a, item) || Holds(b, item)
    ensures !Holds(NOTHING, item)
  {
  }

  ghost predicate HeldFrom(lines: seq<Line>, now: Option<CivilDate>, index: nat, segment: Segment, item: Item, from: nat)
    requires index < |lines|
  {
    exists p: nat :: from <= p && Holds(FindingAt(lines, index, segment, now, p), item)
  }

  lemma NothingOutside(lines: seq<Line>, index: nat, segment: Segment, now: Option<CivilDate>, p: nat)
    requires index < |lines| && p >= |segment.text|
    ensures FindingAt(lines, index, segment, now, p) == NOTHING
  {
    NothingFound(lines, index, segment, now, p);
  }

  lemma {:induction false} SegmentHolds(lines: seq<Line>, index: nat, segment: Segment, now: Option<CivilDate>, from: nat, item: Item)
    requires index < |lines|
    ensures Holds(FindingsFrom(lines, index, segment, now, from), item) <==> HeldFrom(lines, now, index, segment, item, from)
    decreases |segment.text| - from
  {
    hide FindingAt, Holds, Findings.Then;
    HoldsThen(NOTHING, NOTHING, item);
    if from >= |segment.text| {
      forall p: nat | from <= p ensures !Holds(FindingAt(lines, index, segment, now, p), item) { NothingOutside(lines, index, segment, now, p); }
    } else {
      SegmentHolds(lines, index, segment, now, from + 1, item);
      HoldsThen(FindingAt(lines, index, segment, now, from), FindingsFrom(lines, index, segment, now, from + 1), item);
    }
  }

  ghost predicate HeldInSegment(lines: seq<Line>, now: Option<CivilDate>, index: nat, item: Item, n: nat)
    requires index < |lines|
  {
    n < |lines[index].segments| && HeldFrom(lines, now, index, lines[index].segments[n], item, 0)
  }

  lemma {:induction false} LineHolds(lines: seq<Line>, index: nat, now: Option<CivilDate>, from: nat, item: Item)
    requires index < |lines|
    ensures Holds(SegmentFindings(lines, index, now, from), item) <==>
            exists n: nat :: from <= n && HeldInSegment(lines, now, index, item, n)
    decreases |lines[index].segments| - from
  {
    hide FindingsFrom, Holds, Findings.Then, HeldFrom;
    HoldsThen(NOTHING, NOTHING, item);
    if from < |lines[index].segments| {
      LineHolds(lines, index, now, from + 1, item);
      SegmentHolds(lines, index, lines[index].segments[from], now, 0, item);
      HoldsThen(FindingsFrom(lines, index, lines[index].segments[from], now, 0), SegmentFindings(lines, index, now, from + 1), item);
      assert HeldInSegment(lines, now, index, item, from) <==> HeldFrom(lines, now, index, lines[index].segments[from], item, 0);
    }
  }

  ghost predicate HeldInLine(lines: seq<Line>, now: Option<CivilDate>, item: Item, index: nat) {
    index < |lines| && exists n: nat :: HeldInSegment(lines, now, index, item, n)
  }

  lemma {:induction false} DocumentHolds(lines: seq<Line>, now: Option<CivilDate>, from: nat, item: Item)
    ensures Holds(LineFindings(lines, now, from), item) <==> exists index: nat :: from <= index && HeldInLine(lines, now, item, index)
    decreases |lines| - from
  {
    hide SegmentFindings, Holds, Findings.Then, HeldInSegment;
    HoldsThen(NOTHING, NOTHING, item);
    if from < |lines| {
      DocumentHolds(lines, now, from + 1, item);
      LineHolds(lines, from, now, 0, item);
      HoldsThen(SegmentFindings(lines, from, now, 0), LineFindings(lines, now, from + 1), item);
      assert HeldInLine(lines, now, item, from) <==> exists n: nat :: HeldInSegment(lines, now, from, item, n);
    }
  }

  /** A record of the document: what some position of some segment of some line makes. */
  ghost predicate IsRecord(text: string, now: Option<CivilDate>, r: ClaimRecord, index: nat, n: nat, p: nat) {
    && index < |Lines(text)| && n < |ReadLines(text)[index].segments|
    && Observes(ReadLines(text), now, index, ReadLines(text)[index].segments[n], p, r)
  }

  ghost predicate IsRejection(text: string, now: Option<CivilDate>, x: ClaimRejection, index: nat, n: nat, p: nat) {
    && index < |Lines(text)| && n < |ReadLines(text)[index].segments|
    && Rejects(ReadLines(text), now, index, ReadLines(text)[index].segments[n], p, x)
  }

  /** A scan answers exactly the records that the document makes. */
  lemma RecordsExactly(text: string, now: Option<CivilDate>, r: ClaimRecord)
    requires now.Some? ==> now.value.Exists()
    ensures r in Scan(text, now).records <==> exists index: nat, n: nat, p: nat :: IsRecord(text, now, r, index, n, p)
  {
    hide ReadLines, LineFindings, FindingAt, Observes, RawOccurrences, CivilDate.Exists, Lines;
    var lines, item := ReadLines(text), Record(r);
    DocumentHolds(lines, now, 0, item);
    forall index: nat, n: nat, p: nat | index < |lines| && n < |lines[index].segments|
      ensures Holds(FindingAt(lines, index, lines[index].segments[n], now, p), item) <==> IsRecord(text, now, r, index, n, p)
    {
      RecordedExactly(lines, index, lines[index].segments[n], now, p, r);
    }
    if r in Scan(text, now).records {
      var index: nat :| HeldInLine(lines, now, item, index);
      var n: nat :| HeldInSegment(lines, now, index, item, n);
      var p: nat :| Holds(FindingAt(lines, index, lines[index].segments[n], now, p), item);
      assert IsRecord(text, now, r, index, n, p);
    }
    if index: nat, n: nat, p: nat :| IsRecord(text, now, r, index, n, p) {
      assert Holds(FindingAt(lines, index, lines[index].segments[n], now, p), item);
      assert HeldInSegment(lines, now, index, item, n);
      assert HeldInLine(lines, now, item, index);
    }
  }

  /** A scan answers exactly the refusals that the document earns. */
  lemma RejectionsExactly(text: string, now: Option<CivilDate>, x: ClaimRejection)
    requires now.Some? ==> now.value.Exists()
    ensures x in Scan(text, now).rejections <==> exists index: nat, n: nat, p: nat :: IsRejection(text, now, x, index, n, p)
  {
    hide ReadLines, LineFindings, FindingAt, Rejects, RawOccurrences, CivilDate.Exists, Lines;
    var lines, item := ReadLines(text), Rejection(x);
    DocumentHolds(lines, now, 0, item);
    forall index: nat, n: nat, p: nat | index < |lines| && n < |lines[index].segments|
      ensures Holds(FindingAt(lines, index, lines[index].segments[n], now, p), item) <==> IsRejection(text, now, x, index, n, p)
    {
      RejectedExactly(lines, index, lines[index].segments[n], now, p, x);
    }
    if x in Scan(text, now).rejections {
      var index: nat :| HeldInLine(lines, now, item, index);
      var n: nat :| HeldInSegment(lines, now, index, item, n);
      var p: nat :| Holds(FindingAt(lines, index, lines[index].segments[n], now, p), item);
      assert IsRejection(text, now, x, index, n, p);
    }
    if index: nat, n: nat, p: nat :| IsRejection(text, now, x, index, n, p) {
      assert Holds(FindingAt(lines, index, lines[index].segments[n], now, p), item);
      assert HeldInSegment(lines, now, index, item, n);
      assert HeldInLine(lines, now, item, index);
    }
  }

  /** An annotation of the document that is dated with an existing day, and refused on line `line`. */
  ghost predicate DatedAt(text: string, line: nat, day: CivilDate, n: nat, p: nat, limit: nat, head: Head) {
    && 0 < line <= |Lines(text)| && n < |ReadLines(text)[line - 1].segments|
    && Opens(ReadLines(text)[line - 1].segments[n].text, p, limit, head) && head.emDash && Names(head.date, day)
  }

  ghost predicate DatedOn(text: string, line: nat, day: CivilDate) {
    exists n: nat, p: nat, limit: nat, head: Head :: DatedAt(text, line, day, n, p, limit, head)
  }

  /** With a reference date, no record is dated beyond it, and whatever is refused for being beyond it is. */
  lemma {:induction false} NoRecordIsBeyond(text: string, now: CivilDate, r: ClaimRecord)
    requires now.Exists() && r in Scan(text, Some(now)).records
    ensures r.date.Exists() && DaysFromEpoch(r.date) <= DaysFromEpoch(now)
  {
    hide ReadLines, RawOccurrences, CivilDate.Exists, Lines, LineFindings, Opens, Assembled, Says, DaysFromEpoch;
    RecordsExactly(text, Some(now), r);
    var index: nat, n: nat, p: nat :| IsRecord(text, Some(now), r, index, n, p);
  }

  lemma {:induction false} RefusedIsBeyond(text: string, now: CivilDate, x: ClaimRejection)
    requires now.Exists() && x in Scan(text, Some(now)).rejections && x.reason == FutureObservation
    ensures exists day: CivilDate :: DatedOn(text, x.line, day) && DaysFromEpoch(day) > DaysFromEpoch(now)
  {
    hide ReadLines, RawOccurrences, CivilDate.Exists, Lines, LineFindings, Opens, DaysFromEpoch;
    RejectionsExactly(text, Some(now), x);
    var index: nat, n: nat, p: nat :| IsRejection(text, Some(now), x, index, n, p);
    RejectionIsBeyond(text, now, x, index, n, p);
  }

  lemma {:induction false} RejectionIsBeyond(text: string, now: CivilDate, x: ClaimRejection, index: nat, n: nat, p: nat)
    requires IsRejection(text, Some(now), x, index, n, p) && x.reason == FutureObservation
    ensures exists day: CivilDate :: DatedOn(text, x.line, day) && DaysFromEpoch(day) > DaysFromEpoch(now)
  {
    hide ReadLines, CivilDate.Exists, Lines, Opens, DaysFromEpoch, Names;
    LineNumber(text, index);
    var segment := ReadLines(text)[index].segments[n];
    var limit: nat, head: Head :| RejectsBy(ReadLines(text), Some(now), index, segment, p, x, limit, head);
    var day: CivilDate :| Names(head.date, day) && Beyond(day, Some(now));
    assert DatedAt(text, x.line, day, n, p, limit, head);
  }

  lemma LineNumber(text: string, n: nat)
    requires n < |Lines(text)|
    ensures ReadLines(text)[n].number == n + 1
  {
    ReadLinesExactly(text, n);
  }

  // ------------------------------------------------------------------ the counter

  /** `Verify:` at `p`, and then whitespace, a date, whitespace and an em-dash, across lines. */
  ghost predicate Occurs(text: string, p: nat) {
    p + 7 <= |text| && text[p..p + 7] == "Verify:" && IsAnnotated(text[p + 7..])
  }

  ghost function Occurrences(text: string, from: nat): set<nat> { set p: nat | from <= p < |text| && Occurs(text, p) }

  lemma OccursExactly(text: string, p: nat)
    ensures RawAt(text, [], p) <==> Occurs(text, p)
  {
    hide At, Annotates, IsAnnotated;
    KeywordExactly(text, p);
    if p + 7 <= |text| {
      AnnotatesExactly(text[p + 7..]);
      assert text[p + 7..] + [] == text[p + 7..];
    }
  }

  lemma {:induction false} CountIsSize(text: string, from: nat)
    ensures RawCount(text, [], from) == |Occurrences(text, from)|
    decreases |text| - from
  {
    hide RawAt, Occurs;
    if from < |text| {
      CountIsSize(text, from + 1);
      OccursExactly(text, from);
      OneOccurrence(text, from);
    } else {
      assert Occurrences(text, from) == {};
    }
  }

  lemma OneOccurrence(text: string, from: nat)
    requires from < |text|
    ensures |Occurrences(text, from)| == |Occurrences(text, from + 1)| + if Occurs(text, from) then 1 else 0
  {
    hide Occurs;
    var more := Occurrences(text, from + 1);
    assert from !in more;
    assert Occurrences(text, from) == if Occurs(text, from) then {from} + more else more;
  }

  /** The count is the number of annotations in the text the counter keeps. */
  lemma OccurrencesExactly(text: string)
    ensures RawOccurrences(text) == |Occurrences(Kept(Lines(text), 0), 0)|
  {
    hide RawCount, Occurrences;
    CountIsSize(Kept(Lines(text), 0), 0);
  }
}
