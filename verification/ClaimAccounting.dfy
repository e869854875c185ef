/** What the scan says about itself: on a document whose fences both readers see alike, the counter's
    number is the records, the refused dates, and the occurrences the scanner could not read, and
    nothing else (crates/aep-backend-markdown/src/claim.rs:300-302, 376-411, 501-563). */
module ClaimAccounting {
  import opened Wrappers
  import opened Texts
  import opened Dates
  import opened ClaimLines
  import opened Claims
  import opened ClaimCounting
  import Decimal

  // ------------------------------------------------------------------ what the scanner can read

  /** A keyword whose date and em-dash the scanner reads inside the span. */
  predicate Readable(text: string, p: nat) {
    && At(text, KEYWORD, p)
    && var head := ReadHead(text[p + |KEYWORD|..SpanLimit(text, p)]);
       head.Some? && head.value.emDash
  }

  function ReadableCount(text: string, from: nat): nat
    decreases |text| - from
  {
    if from >= |text| then 0 else (if Readable(text, from) then 1 else 0) + ReadableCount(text, from + 1)
  }

  /** Annotation-shaped occurrences from `from` on that the scanner does not read. */
  function UnreadCount(text: string, tail: string, from: nat): nat
    decreases |text| - from
  {
    if from >= |text| then 0
    else (if RawAt(text, tail, from) && !Readable(text, from) then 1 else 0) + UnreadCount(text, tail, from + 1)
  }

  lemma LeadingWhiteIs(s: string, n: nat)
    requires n <= |s| && (forall i :: 0 <= i < n ==> IsWhite(s[i])) && (n < |s| ==> !IsWhite(s[n]))
    ensures LeadingWhite(s) == n
  {
    hide IsWhite;
    var m := LeadingWhite(s);
    assert !(m < n) && !(n < m);
  }

  lemma BlankIsWhite(c: char)
    ensures IsBlank(c) ==> IsWhite(c)
    ensures Decimal.IsDigit(c) || c == SEPARATOR ==> !IsWhite(c)
  {
  }

  /** The stretch from `from` to `next` is blanks, so trimming it away is what the counter does. */
  lemma TrimsBlanks(text: string, from: nat, next: nat, more: string)
    requires from <= next < |text| && !IsWhite(text[next])
    requires forall i :: from <= i < next ==> IsBlank(text[i])
    ensures TrimStart(text[from..] + more) == text[next..] + more
  {
    hide IsWhite, IsBlank;
    var s := text[from..] + more;
    forall i | 0 <= i < next - from ensures IsWhite(s[i]) { BlankIsWhite(text[from + i]); }
    LeadingWhiteIs(s, next - from);
  }

  /** Everything the scanner reads, the counter counts, whatever comes after. */
  lemma ReadableIsCounted(text: string, tail: string, p: nat)
    requires Readable(text, p)
    ensures RawAt(text, tail, p)
  {
    hide SkipBlanks, IsIsoShaped, At, IsWhite, IsBlank, SpanLimit;
    var after := p + |KEYWORD|;
    var limit := SpanLimit(text, p);
    var span := text[after..limit];
    var index := SkipBlanks(span, 0);
    var dash := SkipBlanks(span, index + DATE_LEN);
    var more := text[limit..] + tail;
    IsoStartsWithDigit(span[index..index + DATE_LEN]);
    BlankIsWhite(span[index]);
    BlankIsWhite(span[dash]);
    assert text[after..] + tail == span[0..] + more;
    TrimsBlanks(span, 0, index, more);
    var from := span[index..] + more;
    assert from[..DATE_LEN] == span[index..index + DATE_LEN];
    assert from[DATE_LEN..] == span[index + DATE_LEN..] + more;
    TrimsBlanks(span, index + DATE_LEN, dash, more);
  }

  lemma IsoStartsWithDigit(date: string)
    requires IsIsoShaped(date)
    ensures Decimal.IsDigit(date[0])
  {
    assert date[..4][0] == date[0];
  }

  /** The text the counter trims after a keyword, and after the date. */
  ghost predicate HeadFits(text: string, tail: string, p: nat)
    requires RawAt(text, tail, p)
  {
    var rest := text[p + |KEYWORD|..] + tail;
    var before := LeadingWhite(rest);
    var between := LeadingWhite(rest[before + DATE_LEN..]);
    && p + |KEYWORD| + before + DATE_LEN + between < SpanLimit(text, p)
    && (forall i :: 0 <= i < before ==> IsBlank(rest[i]))
    && (forall i :: before + DATE_LEN <= i < before + DATE_LEN + between ==> IsBlank(rest[i]))
  }

  lemma SkipBlanksIs(text: string, from: nat, n: nat)
    requires from <= n <= |text| && (forall i :: from <= i < n ==> IsBlank(text[i])) && (n < |text| ==> !IsBlank(text[n]))
    ensures SkipBlanks(text, from) == n
  {
    hide IsBlank;
    var m := SkipBlanks(text, from);
    assert !(m < n) && !(n < m);
  }

  /** An annotation-shaped occurrence is one the scanner reads exactly when its head ends within the span
      and its whitespace is spaces and tabs. */
  lemma UnreadExactly(text: string, tail: string, p: nat)
    requires RawAt(text, tail, p)
    ensures Readable(text, p) <==> HeadFits(text, tail, p)
  {
    hide At, SpanLimit, IsIsoShaped, SkipBlanks, IsWhite, IsBlank, LeadingWhite;
    if Readable(text, p) { ReadableFits(text, tail, p); }
    if HeadFits(text, tail, p) { FittingIsReadable(text, tail, p); }
  }

  lemma ReadableFits(text: string, tail: string, p: nat)
    requires RawAt(text, tail, p) && Readable(text, p)
    ensures HeadFits(text, tail, p)
  {
    hide At, SpanLimit, IsIsoShaped, SkipBlanks, IsWhite, IsBlank, LeadingWhite, TrimStart, RawAt, Annotates;
    var after, limit := p + |KEYWORD|, SpanLimit(text, p);
    var span, rest := text[after..limit], text[after..] + tail;
    var index := SkipBlanks(span, 0);
    var dash := SkipBlanks(span, index + DATE_LEN);
    IsoStartsWithDigit(span[index..index + DATE_LEN]);
    BlankIsWhite(span[index]);
    BlankIsWhite(span[dash]);
    assert forall i :: 0 <= i < |span| ==> span[i] == rest[i];
    forall i | 0 <= i < index ensures IsWhite(rest[i]) { BlankIsWhite(span[i]); }
    LeadingWhiteIs(rest, index);
    var second := rest[index + DATE_LEN..];
    forall i | 0 <= i < dash - index - DATE_LEN ensures IsWhite(second[i]) { BlankIsWhite(span[index + DATE_LEN + i]); }
    LeadingWhiteIs(second, dash - index - DATE_LEN);
  }

  /** The date and the em-dash stand right after the whitespace the counter skips. */
  lemma AnnotatedParts(rest: string)
    requires Annotates(rest)
    ensures var before := LeadingWhite(rest);
            && before + DATE_LEN <= |rest| && IsIsoShaped(rest[before..before + DATE_LEN])
            && var dash := before + DATE_LEN + LeadingWhite(rest[before + DATE_LEN..]);
               dash < |rest| && rest[dash] == SEPARATOR
  {
    hide IsIsoShaped, IsWhite, LeadingWhite, TrimStart;
    var before := LeadingWhite(rest);
    assert rest[before..][..DATE_LEN] == rest[before..before + DATE_LEN];
    assert rest[before..][DATE_LEN..] == rest[before + DATE_LEN..];
  }

  /** A head with blanks before and after its date is read as it stands. */
  lemma HeadIs(span: string, before: nat, dash: nat)
    requires before + DATE_LEN <= dash < |span| && span[dash] == SEPARATOR && IsIsoShaped(span[before..before + DATE_LEN])
    requires forall i :: 0 <= i < before || before + DATE_LEN <= i < dash ==> IsBlank(span[i])
    ensures ReadHead(span) == Some(Head(span[before..before + DATE_LEN], dash + 1, true))
  {
    hide IsIsoShaped, SkipBlanks, IsWhite, IsBlank;
    IsoStartsWithDigit(span[before..before + DATE_LEN]);
    NotBlank(span[before]);
    NotBlank(span[dash]);
    SkipBlanksIs(span, 0, before);
    SkipBlanksIs(span, before + DATE_LEN, dash);
  }

  lemma NotBlank(c: char)
    ensures Decimal.IsDigit(c) || c == SEPARATOR ==> !IsBlank(c)
  {
  }

  /** A span that starts an annotated stretch and holds its head is read. */
  lemma FittingHead(rest: string, span: string)
    requires span <= rest && Annotates(rest)
    requires var before := LeadingWhite(rest);
             var dash := before + DATE_LEN + LeadingWhite(rest[before + DATE_LEN..]);
             dash < |span| && forall i :: 0 <= i < before || before + DATE_LEN <= i < dash ==> IsBlank(rest[i])
    ensures ReadHead(span).Some? && ReadHead(span).value.emDash
  {
    hide IsIsoShaped, ReadHead, IsBlank, Annotates, LeadingWhite;
    AnnotatedParts(rest);
    var before := LeadingWhite(rest);
    assert rest[before..before + DATE_LEN] == span[before..before + DATE_LEN];
    HeadIs(span, before, before + DATE_LEN + LeadingWhite(rest[before + DATE_LEN..]));
  }

  lemma FittingIsReadable(text: string, tail: string, p: nat)
    requires RawAt(text, tail, p) && HeadFits(text, tail, p)
    ensures Readable(text, p)
  {
    hide At, SpanLimit, IsIsoShaped, ReadHead, IsBlank, Annotates, LeadingWhite;
    var after, limit := p + |KEYWORD|, SpanLimit(text, p);
    assert text[after..limit] <= text[after..] + tail;
    FittingHead(text[after..] + tail, text[after..limit]);
  }

  lemma {:induction false} CountedAreReadOrNot(text: string, tail: string, from: nat)
    ensures RawCount(text, tail, from) == ReadableCount(text, from) + UnreadCount(text, tail, from)
    decreases |text| - from
  {
    hide RawAt, Readable;
    if from < |text| {
      CountedAreReadOrNot(text, tail, from + 1);
      if Readable(text, from) { ReadableIsCounted(text, tail, from); }
    }
  }

  // ------------------------------------------------------------------ what the scanner makes of what it reads

  function CountReason(rejections: seq<ClaimRejection>, reason: ClaimRejectionReason): nat {
    if rejections == [] then 0
    else CountReason(rejections[..|rejections| - 1], reason) + if rejections[|rejections| - 1].reason == reason then 1 else 0
  }

  /** Records, and refusals of a date. */
  function Tally(found: Findings): nat {
    |found.records| + CountReason(found.rejections, ImpossibleDate) + CountReason(found.rejections, FutureObservation)
  }

  lemma {:induction false} CountBoth(a: seq<ClaimRejection>, b: seq<ClaimRejection>, reason: ClaimRejectionReason)
    ensures CountReason(a + b, reason) == CountReason(a, reason) + CountReason(b, reason)
  {
    if b == [] {
      assert a + b == a;
    } else {
      CountBoth(a, b[..|b| - 1], reason);
      assert (a + b)[..|a + b| - 1] == a + b[..|b| - 1];
    }
  }

  lemma TallyBoth(a: Findings, b: Findings)
    ensures Tally(a.Then(b)) == Tally(a) + Tally(b)
  {
    hide CountReason;
    CountBoth(a.rejections, b.rejections, ImpossibleDate);
    CountBoth(a.rejections, b.rejections, FutureObservation);
  }

  lemma OneRejection(rejection: ClaimRejection, reason: ClaimRejectionReason)
    ensures CountReason([rejection], reason) == if rejection.reason == reason then 1 else 0
  {
    assert CountReason([rejection][..0], reason) == 0;
  }

  /** Each keyword the scanner reads makes one record or one refusal of its date; any other makes none. */
  lemma FindingTally(lines: seq<Line>, index: nat, segment: Segment, now: Option<CivilDate>, p: nat)
    requires index < |lines|
    ensures Tally(FindingAt(lines, index, segment, now, p)) == if Readable(segment.text, p) then 1 else 0
  {
    hide At, SpanLimit, ReadHead, CountReason, RecordOf, Assemble, ParseDate, Trim;
    assert CountReason([], ImpossibleDate) == 0 == CountReason([], FutureObservation) by { NoRejections(); }
    if At(segment.text, KEYWORD, p) {
      AtFits(segment.text, p);
      var text := Trim(segment.text[p..SpanLimit(segment.text, p)]);
      forall reason, counted ensures CountReason([ClaimRejection(lines[index].number, text, reason)], counted) == if reason == counted then 1 else 0 {
        OneRejection(ClaimRejection(lines[index].number, text, reason), counted);
      }
    }
  }

  lemma NoRejections()
    ensures CountReason([], ImpossibleDate) == 0 && CountReason([], FutureObservation) == 0
  {
  }

  lemma {:induction false} SegmentTally(lines: seq<Line>, index: nat, segment: Segment, now: Option<CivilDate>, from: nat)
    requires index < |lines|
    ensures Tally(FindingsFrom(lines, index, segment, now, from)) == ReadableCount(segment.text, from)
    decreases |segment.text| - from
  {
    hide FindingAt, Tally, Readable, Findings.Then;
    if from < |segment.text| {
      SegmentTally(lines, index, segment, now, from + 1);
      FindingTally(lines, index, segment, now, from);
      TallyBoth(FindingAt(lines, index, segment, now, from), FindingsFrom(lines, index, segment, now, from + 1));
    } else {
      TallyNothing();
    }
  }

  lemma TallyNothing()
    ensures Tally(NOTHING) == 0
  {
  }

  // ------------------------------------------------------------------ a line in its segments

  /** The unread occurrences of a line's segments from `start` on, each with the rest of the document
      after it as what may complete it. */
  function UnreadInSegments(line: string, cells: bool, start: nat, tail: string): nat
    requires start <= |line|
    decreases |line| - start
  {
    match FirstBoundary(line, cells, start)
    case None => UnreadCount(line[start..], tail, 0)
    case Some(at) =>
      UnreadCount(line[start..at], line[at..] + tail, 0)
      + UnreadInSegments(line, cells, at + BoundaryAt(line, cells, at).value, tail)
  }

  lemma BoundaryChars(line: string, cells: bool, at: nat)
    requires at < |line| && BoundaryAt(line, cells, at).Some?
    ensures !InKeyword(line[at])
    ensures forall i :: at <= i < at + BoundaryAt(line, cells, at).value ==> line[i] != 'V'
  {
  }

  /** Cutting a segment off a line loses no occurrence. */
  lemma CutSegment(line: string, cells: bool, start: nat, at: nat, tail: string)
    requires start <= at < |line| && BoundaryAt(line, cells, at).Some?
    ensures RawCount(line[start..], tail, 0)
            == RawCount(line[start..at], line[at..] + tail, 0) + RawCount(line[at + BoundaryAt(line, cells, at).value..], tail, 0)
  {
    hide RawCount, BoundaryAt, InKeyword;
    var next := at + BoundaryAt(line, cells, at).value;
    BoundaryChars(line, cells, at);
    var boundary := line[at..next];
    assert line[start..] == line[start..at] + line[at..] && line[at..] == boundary + line[next..];
    assert forall i :: 0 <= i < |boundary| ==> boundary[i] == line[at + i];
    SplitCount(line[start..at], line[at..], tail, 0);
    DropPrefix(boundary, line[next..], tail);
  }

  lemma {:induction false} LineTally(lines: seq<Line>, index: nat, now: Option<CivilDate>, n: nat,
                                     line: string, cells: bool, start: nat, tail: string)
    requires index < |lines| && n <= |lines[index].segments| && start <= |line|
    requires lines[index].segments[n..] == SegmentsFrom(line, cells, start)
    ensures RawCount(line[start..], tail, 0)
            == Tally(SegmentFindings(lines, index, now, n)) + UnreadInSegments(line, cells, start, tail)
    decreases |line| - start
  {
    hide RawCount, UnreadCount, BoundaryAt, Tally, FindingsFrom, Findings.Then, ReadableCount;
    var segments := SegmentsFrom(line, cells, start);
    var segment := lines[index].segments[n];
    assert segment == segments[0];
    SegmentTally(lines, index, segment, now, 0);
    TallyBoth(FindingsFrom(lines, index, segment, now, 0), SegmentFindings(lines, index, now, n + 1));
    match FirstBoundary(line, cells, start) {
      case None =>
        CountedAreReadOrNot(line[start..], tail, 0);
        NoMoreSegments(lines, index, now, n + 1);
      case Some(at) =>
        var next := at + BoundaryAt(line, cells, at).value;
        CutSegment(line, cells, start, at, tail);
        CountedAreReadOrNot(line[start..at], line[at..] + tail, 0);
        assert lines[index].segments[n + 1..] == segments[1..] == SegmentsFrom(line, cells, next);
        LineTally(lines, index, now, n + 1, line, cells, next, tail);
    }
  }

  lemma NoMoreSegments(lines: seq<Line>, index: nat, now: Option<CivilDate>, n: nat)
    requires index < |lines|
    ensures n >= |lines[index].segments| ==> Tally(SegmentFindings(lines, index, now, n)) == 0
  {
    TallyNothing();
  }

  /** What quote markers take off the front of a line. */
  lemma QuotePrefix(line: string) returns (n: nat)
    ensures n <= |line| && StripQuote(line).0 == line[n..]
    ensures forall i :: 0 <= i < n ==> IsWhite(line[i]) || line[i] == '>'
    ensures n < |line| ==> !IsWhite(line[n]) && line[n] != '>'
    decreases |line|
  {
    hide IsWhite, TrimStart, LeadingWhite;
    n := LeadingWhite(line);
    var rest := line[n..];
    if rest != [] && rest[0] == '>' {
      var after := line[n + 1..];
      assert rest[1..] == after;
      var more := QuotePrefix(after);
      assert after[more..] == line[n + 1 + more..];
      forall i | n < i < n + 1 + more ensures IsWhite(line[i]) || line[i] == '>' { assert after[i - n - 1] == line[i]; }
      n := n + 1 + more;
    }
  }

  lemma UnquotedCount(raw: string, tail: string)
    ensures RawCount(raw, tail, 0) == RawCount(StripQuote(raw).0, tail, 0)
  {
    hide RawCount, StripQuote;
    var n := QuotePrefix(raw);
    assert raw == raw[..n] + raw[n..];
    DropPrefix(raw[..n], raw[n..], tail);
  }

  // ------------------------------------------------------------------ the whole document

  /** The two readers exclude the same lines. */
  ghost predicate FencesAgree(raws: seq<string>) {
    forall n :: 0 <= n < |raws| ==> (Excluded(raws, n) <==> RawExcluded(raws, n))
  }

  /** Occurrences from line `n` on that are annotation-shaped and that the scanner does not read. */
  function UnreadFrom(raws: seq<string>, n: nat): nat
    requires n <= |raws|
    decreases |raws| - n
  {
    if n == |raws| then 0
    else
      var stripped := StripQuote(raws[n]).0;
      (if Excluded(raws, n) then 0 else UnreadInSegments(stripped, StartsWith(stripped, "|"), 0, "\n" + Kept(raws, n + 1)))
      + UnreadFrom(raws, n + 1)
  }

  lemma KeptLineTally(text: string, now: Option<CivilDate>, n: nat, tail: string)
    requires n < |Lines(text)| && !Excluded(Lines(text), n)
    ensures var stripped := StripQuote(Lines(text)[n]).0;
            RawCount(Lines(text)[n], tail, 0)
            == Tally(SegmentFindings(ReadLines(text), n, now, 0)) + UnreadInSegments(stripped, StartsWith(stripped, "|"), 0, tail)
  {
    hide RawCount, StripQuote, Tally, SegmentFindings, UnreadInSegments, Lines, SegmentsFrom, StartsWith, IsStopLine, Excluded;
    var raw, lines := Lines(text)[n], ReadLines(text);
    var stripped := StripQuote(raw).0;
    UnquotedCount(raw, tail);
    assert lines[n] == ReadLine(Lines(text), n);
    assert lines[n].segments[0..] == SegmentsFrom(stripped, StartsWith(stripped, "|"), 0);
    LineTally(lines, n, now, 0, stripped, StartsWith(stripped, "|"), 0, tail);
    assert stripped[0..] == stripped;
  }

  lemma ExcludedLineTally(text: string, now: Option<CivilDate>, n: nat)
    requires n < |Lines(text)| && Excluded(Lines(text), n)
    ensures Tally(SegmentFindings(ReadLines(text), n, now, 0)) == 0
  {
    hide Lines, Excluded, Tally;
    assert ReadLines(text)[n] == ReadLine(Lines(text), n);
    TallyNothing();
  }

  lemma {:induction false} DocumentTally(text: string, now: Option<CivilDate>, n: nat)
    requires n <= |Lines(text)| && FencesAgree(Lines(text))
    ensures RawCount(Kept(Lines(text), n), [], 0) == Tally(LineFindings(ReadLines(text), now, n)) + UnreadFrom(Lines(text), n)
    decreases |Lines(text)| - n
  {
    hide RawCount, Tally, SegmentFindings, UnreadInSegments, Lines, ReadLines, Findings.Then, StripQuote, StartsWith, Excluded, RawExcluded;
    var raws, lines := Lines(text), ReadLines(text);
    if n == |raws| {
      TallyNothing();
      NothingCounted([], [], 0, 0);
      assert RawCount([], [], 0) == 0 by { EmptyCount(); }
    } else {
      var rest := Kept(raws, n + 1);
      assert Excluded(raws, n) <==> RawExcluded(raws, n);
      DocumentTally(text, now, n + 1);
      TallyBoth(SegmentFindings(lines, n, now, 0), LineFindings(lines, now, n + 1));
      if Excluded(raws, n) {
        ExcludedLineTally(text, now, n);
      } else {
        KeptLineTally(text, now, n, "\n" + rest);
        KeptLineCounts(raws[n], rest);
      }
    }
  }

  lemma EmptyCount()
    ensures RawCount([], [], 0) == 0
  {
  }

  /** The accounting: what the counter counts is the records, the dates refused as impossible or in the
      future, and the occurrences the scanner could not read. */
  lemma ScanAccountsForEveryOccurrence(text: string, now: Option<CivilDate>)
    requires FencesAgree(Lines(text))
    ensures var scan := Scan(text, now);
            scan.rawOccurrences == |scan.records| + CountReason(scan.rejections, ImpossibleDate)
                                   + CountReason(scan.rejections, FutureObservation) + UnreadFrom(Lines(text), 0)
  {
    hide RawCount, LineFindings, Kept, Lines, ReadLines, CountReason, UnreadFrom;
    DocumentTally(text, now, 0);
  }

  /** So the divergence never stops at zero short of the truth: it is exactly what has no record. */
  lemma DivergenceIsExact(text: string, now: Option<CivilDate>)
    requires FencesAgree(Lines(text))
    ensures var scan := Scan(text, now);
            && |scan.records| <= scan.rawOccurrences
            && scan.Divergence() == CountReason(scan.rejections, ImpossibleDate)
                                    + CountReason(scan.rejections, FutureObservation) + UnreadFrom(Lines(text), 0)
  {
    hide Scan, Lines, CountReason, UnreadFrom;
    ScanAccountsForEveryOccurrence(text, now);
  }
}
