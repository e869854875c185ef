/** How a document is cut into lines and the pieces a reader sees inside a line
    (crates/aep-backend-markdown/src/claim.rs:637-759). */
module ClaimLines {
  import opened Wrappers
  import opened Texts
  import Decimal

  const KEYWORD := "Verify:"
  const OTHER_KEYWORD := "Due:"
  const FENCE := "```"

  /** A stretch of one physical line that a reader sees as a line of its own. */
  datatype Segment = Segment(text: string, bounded: bool)

  /** One physical line, stripped of the scaffolding a reader ignores. */
  datatype Line = Line(number: nat, quoted: bool, stopsABody: bool, segments: seq<Segment>)

  // ------------------------------------------------------------------ quotes

  /** Drops a line's `>` markers, reporting whether there were any. */
  function StripQuote(line: string): (string, bool)
    decreases |line|
  {
    var rest := TrimStart(line);
    if rest != [] && rest[0] == '>' then
      LeadingWhiteShortens(line);
      (StripQuote(rest[1..]).0, true)
    else (rest, false)
  }

  lemma LeadingWhiteShortens(line: string)
    ensures |TrimStart(line)| <= |line|
  {
    assert LeadingWhite(line) <= |line|;
  }

  method StripQuoteInPlace(line: string) returns (rest: string, quoted: bool)
    ensures (rest, quoted) == StripQuote(line)
  {
    rest := TrimStart(line);
    quoted := false;
    TrimStartTwice(line);
    while rest != [] && rest[0] == '>'
      invariant rest == TrimStart(rest)
      invariant StripQuote(line).0 == StripQuote(rest).0
      invariant StripQuote(line).1 == (quoted || StripQuote(rest).1)
      decreases |rest|
    {
      quoted := true;
      LeadingWhiteShortens(rest[1..]);
      TrimStartTwice(rest[1..]);
      rest := TrimStart(rest[1..]);
    }
  }

  lemma {:induction false} TrimStartTwice(s: string)
    ensures TrimStart(TrimStart(s)) == TrimStart(s)
  {
    if s != [] && IsWhite(s[0]) { TrimStartTwice(s[1..]); }
  }

  // ------------------------------------------------------------------ lines that stop a body

  function LeadingDigits(text: string): (n: nat)
    ensures n <= |text|
  {
    if text != [] && Decimal.IsDigit(text[0]) then LeadingDigits(text[1..]) + 1 else 0
  }

  predicate IsBullet(text: string) {
    || StartsWith(text, "- ") || StartsWith(text, "* ") || StartsWith(text, "+ ")
    || (var digits := LeadingDigits(text);
        && digits > 0 && digits + 1 < |text|
        && (text[digits] == '.' || text[digits] == ')') && text[digits + 1] == ' ')
  }

  predicate IsStopLine(stripped: string) {
    var text := Trim(stripped);
    || text == [] || StartsWith(text, "#") || StartsWith(text, "|") || StartsWith(text, FENCE)
    || StartsWith(text, KEYWORD) || StartsWith(text, OTHER_KEYWORD) || IsBullet(text)
  }

  // ------------------------------------------------------------------ boundaries inside a line

  function SkipAsciiWhite(line: string, at: nat): (next: nat)
    requires at <= |line|
    ensures at <= next <= |line|
    ensures forall i :: at <= i < next ==> IsAsciiWhite(line[i])
    ensures next < |line| ==> !IsAsciiWhite(line[next])
    decreases |line| - at
  {
    if at < |line| && IsAsciiWhite(line[at]) then SkipAsciiWhite(line, at + 1) else at
  }

  /** The length of a `<br>` tag at `at`, in any of the spellings a document uses. */
  function LineBreakAt(line: string, at: nat): (length: Option<nat>)
    requires at <= |line|
    ensures length.Some? ==> 4 <= length.value && at + length.value <= |line|
    ensures length.Some? ==> line[at] == '<' && line[at + length.value - 1] == '>'
  {
    if at + 2 < |line| && line[at] == '<' && (line[at + 1] == 'b' || line[at + 1] == 'B') && (line[at + 2] == 'r' || line[at + 2] == 'R') then
      var index := SkipAsciiWhite(line, at + 3);
      var end := if index < |line| && line[index] == '/' then SkipAsciiWhite(line, index + 1) else index;
      if end < |line| && line[end] == '>' then Some(end + 1 - at) else None
    else None
  }

  method LineBreakInPlace(line: string, at: nat) returns (length: Option<nat>)
    requires at <= |line|
    ensures length == LineBreakAt(line, at)
  {
    if at >= |line| || line[at] != '<' { return None; }
    if at + 1 >= |line| || (line[at + 1] != 'b' && line[at + 1] != 'B') { return None; }
    if at + 2 >= |line| || (line[at + 2] != 'r' && line[at + 2] != 'R') { return None; }
    var index := at + 3;
    while index < |line| && IsAsciiWhite(line[index])
      invariant at + 3 <= index <= |line|
      invariant SkipAsciiWhite(line, index) == SkipAsciiWhite(line, at + 3)
    {
      index := index + 1;
    }
    if index < |line| && line[index] == '/' {
      ghost var slash := index;
      index := index + 1;
      while index < |line| && IsAsciiWhite(line[index])
        invariant slash < index <= |line|
        invariant SkipAsciiWhite(line, index) == SkipAsciiWhite(line, slash + 1)
      {
        index := index + 1;
      }
    }
    if index < |line| && line[index] == '>' { return Some(index + 1 - at); }
    return None;
  }

  /** The length of the boundary at `at`: a cell edge in a table row, or a break tag anywhere. */
  function BoundaryAt(line: string, cells: bool, at: nat): (length: Option<nat>)
    requires at < |line|
    ensures length.Some? ==> 1 <= length.value && at + length.value <= |line|
  {
    if cells && line[at] == '|' then Some(1) else LineBreakAt(line, at)
  }

  /** Where the first boundary at or after `from` is. */
  function FirstBoundary(line: string, cells: bool, from: nat): (found: Option<nat>)
    requires from <= |line|
    ensures found.Some? ==> from <= found.value < |line| && BoundaryAt(line, cells, found.value).Some?
    ensures forall p :: from <= p < (if found.Some? then found.value else |line|) ==> BoundaryAt(line, cells, p).None?
    decreases |line| - from
  {
    if from == |line| then None
    else if BoundaryAt(line, cells, from).Some? then Some(from)
    else FirstBoundary(line, cells, from + 1)
  }

  /** The segments of a line from `start` on: one up to each boundary, and one after the last. */
  function SegmentsFrom(line: string, cells: bool, start: nat): (segments: seq<Segment>)
    requires start <= |line|
    ensures segments != []
    decreases |line| - start
  {
    match FirstBoundary(line, cells, start)
    case None => [Segment(line[start..], false)]
    case Some(at) =>
      [Segment(line[start..at], true)] + SegmentsFrom(line, cells, at + BoundaryAt(line, cells, at).value)
  }

  function SplitSegments(line: string): seq<Segment> { SegmentsFrom(line, StartsWith(line, "|"), 0) }

  method BoundaryInPlace(line: string, cells: bool, at: nat) returns (length: Option<nat>)
    requires at < |line|
    ensures length == BoundaryAt(line, cells, at)
  {
    if cells && line[at] == '|' { return Some(1); }
    length := LineBreakInPlace(line, at);
  }

  lemma NextSegment(line: string, cells: bool, start: nat, cursor: nat)
    requires start <= cursor < |line| && FirstBoundary(line, cells, start) == FirstBoundary(line, cells, cursor)
    ensures BoundaryAt(line, cells, cursor).None? ==> FirstBoundary(line, cells, start) == FirstBoundary(line, cells, cursor + 1)
    ensures BoundaryAt(line, cells, cursor).Some? ==>
              SegmentsFrom(line, cells, start)
              == [Segment(line[start..cursor], true)] + SegmentsFrom(line, cells, cursor + BoundaryAt(line, cells, cursor).value)
  {
    hide BoundaryAt;
  }

  method SplitSegmentsInPlace(line: string) returns (segments: seq<Segment>)
    ensures segments == SplitSegments(line)
  {
    hide BoundaryAt, FirstBoundary, SegmentsFrom, StartsWith;
    var cells := StartsWith(line, "|");
    segments := [];
    var start: nat, cursor: nat := 0, 0;
    while cursor < |line|
      invariant start <= cursor <= |line|
      invariant FirstBoundary(line, cells, start) == FirstBoundary(line, cells, cursor)
      invariant segments + SegmentsFrom(line, cells, start) == SplitSegments(line)
    {
      NextSegment(line, cells, start, cursor);
      var boundary := BoundaryInPlace(line, cells, cursor);
      if boundary.Some? {
        segments := segments + [Segment(line[start..cursor], true)];
        cursor := cursor + boundary.value;
        start := cursor;
      } else {
        cursor := cursor + 1;
      }
    }
    LastSegment(line, cells, start);
    segments := segments + [Segment(line[start..], false)];
  }

  lemma LastSegment(line: string, cells: bool, start: nat)
    requires start <= |line| && FirstBoundary(line, cells, start) == FirstBoundary(line, cells, |line|)
    ensures SegmentsFrom(line, cells, start) == [Segment(line[start..], false)]
  {
  }

  // ------------------------------------------------------------------ fences

  /** Whether the scanner takes this line for one end of a fenced block. */
  predicate IsMarker(raw: string) { StartsWith(Trim(StripQuote(raw).0), FENCE) }

  /** Whether an odd number of fence markers come before line `n`. */
  predicate FencedBefore(raws: seq<string>, n: nat)
    requires n <= |raws|
  {
    if n == 0 then false else FencedBefore(raws, n - 1) != IsMarker(raws[n - 1])
  }

  /** Fence markers and everything between them are a document showing what an annotation looks like. */
  predicate Excluded(raws: seq<string>, n: nat)
    requires n < |raws|
  {
    FencedBefore(raws, n) || IsMarker(raws[n])
  }

  function ReadLine(raws: seq<string>, n: nat): Line
    requires n < |raws|
  {
    var (stripped, quoted) := StripQuote(raws[n]);
    Line(n + 1, quoted, Excluded(raws, n) || IsStopLine(stripped), if Excluded(raws, n) then [] else SplitSegments(stripped))
  }

  /** A document as lines, each stripped of its quote markers and cut at its boundaries. */
  function ReadLines(text: string): (lines: seq<Line>)
    ensures |lines| == |Lines(text)|
  {
    var raws := Lines(text);
    seq(|raws|, n requires 0 <= n < |raws| => ReadLine(raws, n))
  }

  method ReadLineInPlace(raws: seq<string>, n: nat, fenced: bool) returns (line: Line, fencedAfter: bool)
    requires n < |raws| && fenced == FencedBefore(raws, n)
    ensures line == ReadLine(raws, n) && fencedAfter == FencedBefore(raws, n + 1)
  {
    hide StripQuote, SplitSegments, IsStopLine, Trim, StartsWith;
    var stripped, quoted := StripQuoteInPlace(raws[n]);
    var marker := StartsWith(Trim(stripped), FENCE);
    var excluded := fenced || marker;
    fencedAfter := if marker then !fenced else fenced;
    var segments := [];
    if !excluded { segments := SplitSegmentsInPlace(stripped); }
    line := Line(n + 1, quoted, excluded || IsStopLine(stripped), segments);
  }

  method ReadLinesInPlace(text: string) returns (lines: seq<Line>)
    ensures lines == ReadLines(text)
  {
    hide ReadLine, IsMarker;
    var raws := Lines(text);
    var fenced := false;
    lines := [];
    for n := 0 to |raws|
      invariant |lines| == n && fenced == FencedBefore(raws, n)
      invariant forall k :: 0 <= k < n ==> lines[k] == ReadLine(raws, k)
    {
      var line, after := ReadLineInPlace(raws, n, fenced);
      lines, fenced := lines + [line], after;
    }
  }
}
