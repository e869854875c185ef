/** What each reader of the scanner accepts, spelled out and both ways: whitespace, lines, break tags, the
    segments of a line, heads, spans and horizon tokens
    (crates/aep-backend-markdown/src/claim.rs:376-411, 637-857, crates/aep-domain/src/time.rs:351-369). */
module ClaimGrammar {
  import opened Wrappers
  import opened Texts
  import opened Dates
  import opened ClaimLines
  import opened Claims
  import opened ClaimCounting
  import opened ClaimAccounting
  import opened ClaimRoundTrip
  import opened ClaimVerbatim
  import Decimal

  // ------------------------------------------------------------------ characters

  /** The code points that are whitespace. */
  lemma WhiteExactly(c: char)
    ensures IsWhite(c) <==>
            c as int in {0x09, 0x0A, 0x0B, 0x0C, 0x0D, 0x20, 0x85, 0xA0, 0x1680, 0x2000, 0x2001, 0x2002, 0x2003, 0x2004, 0x2005,
                         0x2006, 0x2007, 0x2008, 0x2009, 0x200A, 0x2028, 0x2029, 0x202F, 0x205F, 0x3000}
  {
  }

  ghost predicate AllIn(text: string, chars: string) { forall i :: 0 <= i < |text| ==> text[i] in chars }

  ghost predicate Blank(text: string) { forall i :: 0 <= i < |text| ==> IsWhite(text[i]) }

  // ------------------------------------------------------------------ lines and words

  /** A line ends at a line feed, or at a carriage return and a line feed, or at the end of the text. */
  lemma LinesExactly(line: string, rest: string)
    requires '\n' !in line && (line != [] ==> line[|line| - 1] != '\r')
    ensures Lines(line + "\n" + rest) == [line] + Lines(rest)
    ensures Lines(line + "\r\n" + rest) == [line] + Lines(rest)
    ensures Lines(line) == if line == [] then [] else [line]
  {
    hide Lines, WithoutReturn;
    WithoutReturnIs(line);
    FirstLine(line, rest);
    FirstLine(line + "\r", rest);
    assert line + "\r" + "\n" + rest == line + "\r\n" + rest;
    OnlyLine(line);
  }

  lemma WithoutReturnIs(line: string)
    requires line != [] ==> line[|line| - 1] != '\r'
    ensures WithoutReturn(line) == line && WithoutReturn(line + "\r") == line
  {
    assert (line + "\r")[..|line|] == line;
  }

  lemma OnlyLine(line: string)
    requires '\n' !in line
    ensures Lines(line) == if line == [] then [] else [line]
  {
    hide WithoutReturn;
  }

  /** The runs of whatever is not whitespace, in order. */
  ghost function Words(text: string): seq<string> {
    if text == [] then []
    else
      var front, c := text[..|text| - 1], text[|text| - 1];
      var words := Words(front);
      if IsWhite(c) then words
      else if front == [] || IsWhite(front[|front| - 1]) || words == [] then words + [[c]]
      else words[..|words| - 1] + [words[|words| - 1] + [c]]
  }

  lemma {:induction false} WordsShape(text: string)
    ensures forall k :: 0 <= k < |Words(text)| ==> Words(text)[k] != [] && forall i :: 0 <= i < |Words(text)[k]| ==> !IsWhite(Words(text)[k][i])
    ensures text != [] && !IsWhite(text[|text| - 1]) ==> Words(text) != []
  {
    hide IsWhite;
    if text != [] { WordsShape(text[..|text| - 1]); }
  }

  lemma JoinedOneMore(words: seq<string>, word: string)
    ensures Joined(words + [word], " ") == if words == [] then word else Joined(words, " ") + " " + word
  {
    assert (words + [word])[..|words|] == words;
  }

  lemma JoinedIsNotEmpty(words: seq<string>)
    requires forall k :: 0 <= k < |words| ==> words[k] != []
    ensures Joined(words, " ") == [] <==> words == []
  {
  }

  /** Collapsing whitespace leaves the words, with a space between any two. */
  lemma {:induction false} CollapseIsWords(text: string)
    ensures Collapse(text) == Joined(Words(text), " ")
  {
    hide IsWhite, Joined;
    if text == [] {
      NoWords();
    } else {
      var front, c := text[..|text| - 1], text[|text| - 1];
      var words := Words(front);
      CollapseIsWords(front);
      WordsShape(front);
      JoinedIsNotEmpty(words);
      JoinedOneMore(words, [c]);
      assert Joined(words, " ") + [' ', c] == Joined(words, " ") + " " + [c];
      if words != [] { JoinedLonger(words, c); }
    }
  }

  lemma {:induction false} JoinedLonger(words: seq<string>, c: char)
    requires words != []
    ensures Joined(words[..|words| - 1] + [words[|words| - 1] + [c]], " ") == Joined(words, " ") + [c]
  {
    hide Joined;
    var before, last := words[..|words| - 1], words[|words| - 1];
    assert words == before + [last];
    JoinedOneMore(before, last);
    JoinedOneMore(before, last + [c]);
    Regroup(Joined(before, " ") + " ", last, [c]);
  }

  lemma Regroup(a: string, b: string, c: string)
    ensures a + (b + c) == a + b + c
  {
  }

  lemma NoWords()
    ensures Joined([], " ") == []
  {
  }

  // ------------------------------------------------------------------ quotes

  /** A line is whitespace and quote markers, and what is read of it; it is quoted when there is a marker. */
  lemma {:induction false} QuoteExactly(line: string)
    ensures var rest := StripQuote(line).0;
            && |rest| <= |line| && rest == line[|line| - |rest|..]
            && (rest != [] ==> !IsWhite(rest[0]) && rest[0] != '>')
            && (forall i :: 0 <= i < |line| - |rest| ==> IsWhite(line[i]) || line[i] == '>')
            && (StripQuote(line).1 <==> exists i :: 0 <= i < |line| - |rest| && line[i] == '>')
    decreases |line|
  {
    hide IsWhite, TrimStart;
    var n := LeadingWhite(line);
    MarkIsNotWhite();
    if n < |line| && line[n] == '>' {
      var after := line[n + 1..];
      assert TrimStart(line)[1..] == after;
      QuoteExactly(after);
      var m := |line| - |StripQuote(after).0|;
      assert forall i :: n < i < m ==> line[i] == after[i - n - 1];
      assert line[n] == '>';
    }
  }

  lemma MarkIsNotWhite()
    ensures !IsWhite('>') && !IsWhite(':') && !IsWhite('(') && !IsWhite(')')
  {
  }

  // ------------------------------------------------------------------ break tags

  /** `<br>` in any case, with whitespace before its end, and a slash with whitespace after it. */
  ghost predicate IsTag(tag: string) {
    exists b: string, before: string, slash: string, after: string :: TagOf(tag, b, before, slash, after)
  }

  ghost predicate TagOf(tag: string, b: string, before: string, slash: string, after: string) {
    && tag == "<" + b + before + slash + after + ">" && b in {"br", "bR", "Br", "BR"}
    && AllIn(before, " \t\n\r\U{0C}") && AllIn(after, " \t\n\r\U{0C}")
    && (slash == "/" || (slash == "" && after == ""))
  }

  lemma SliceOfSlice(text: string, from: nat, upto: nat, i: nat, j: nat)
    requires from <= upto <= |text| && i <= j <= upto - from
    ensures text[from..upto][i..j] == text[from + i..from + j]
  {
    var part, whole := text[from..upto][i..j], text[from + i..from + j];
    forall k | 0 <= k < j - i ensures part[k] == whole[k] { assert part[k] == text[from..upto][i + k]; }
  }

  /** Where the parts of a tag stand. */
  lemma TagParts(tag: string, b: string, before: string, slash: string, after: string)
    requires TagOf(tag, b, before, slash, after)
    ensures |b| == 2 && |tag| == 4 + |before| + |slash| + |after| && tag[0] == '<' && tag[1] == b[0] && tag[2] == b[1]
    ensures tag[|tag| - 1] == '>' && tag[3..3 + |before|] == before
    ensures slash == "/" ==> tag[3 + |before|] == '/' && tag[4 + |before|..|tag| - 1] == after
  {
    assert tag == ("<" + b) + (before + slash + after + ">");
    assert tag == ("<" + b + before) + (slash + after + ">");
    assert tag == ("<" + b + before + slash) + (after + ">");
  }

  lemma SkipIs(line: string, at: nat, next: nat)
    requires at <= next <= |line| && AllIn(line[at..next], " \t\n\r\U{0C}")
    requires next < |line| && line[next] !in " \t\n\r\U{0C}"
    ensures SkipAsciiWhite(line, at) == next
  {
    hide SkipAsciiWhite;
    var m := SkipAsciiWhite(line, at);
    forall i | at <= i < next ensures IsAsciiWhite(line[i]) { assert line[at..next][i - at] == line[i]; }
    assert !(m < next) && !(next < m);
  }

  /** The characters that may stand in a tag. */
  lemma SkippedAreIn(line: string, at: nat)
    requires at <= |line|
    ensures AllIn(line[at..SkipAsciiWhite(line, at)], " \t\n\r\U{0C}")
  {
    hide SkipAsciiWhite;
    var next := SkipAsciiWhite(line, at);
    forall i | 0 <= i < next - at ensures line[at..next][i] in " \t\n\r\U{0C}" { assert line[at..next][i] == line[at + i]; }
  }

  lemma TagIsSpelled(line: string, at: nat)
    requires at <= |line| && LineBreakAt(line, at).Some?
    ensures at + LineBreakAt(line, at).value <= |line| && IsTag(line[at..at + LineBreakAt(line, at).value])
  {
    hide SkipAsciiWhite, TagOf, AllIn;
    var end := at + LineBreakAt(line, at).value;
    var index := SkipAsciiWhite(line, at + 3);
    if line[index] == '/' { SlashedTag(line, at, index, end); } else { PlainTag(line, at, index); }
  }

  lemma PlainTag(line: string, at: nat, index: nat)
    requires at + 3 <= index < |line| && index == SkipAsciiWhite(line, at + 3) && line[at] == '<' && line[index] == '>'
    requires (line[at + 1] == 'b' || line[at + 1] == 'B') && (line[at + 2] == 'r' || line[at + 2] == 'R')
    ensures IsTag(line[at..index + 1])
  {
    hide SkipAsciiWhite;
    SkippedAreIn(line, at + 3);
    var b, before := [line[at + 1], line[at + 2]], line[at + 3..index];
    assert line[at..index + 1] == "<" + b + before + "" + "" + ">";
    assert b in {"br", "bR", "Br", "BR"};
    assert TagOf(line[at..index + 1], b, before, "", "");
  }

  lemma TagSpans(line: string, at: nat, index: nat, end: nat)
    requires at + 3 <= index < end - 1 < |line| && line[at] == '<' && line[index] == '/' && line[end - 1] == '>'
    ensures line[at..end] == "<" + [line[at + 1], line[at + 2]] + line[at + 3..index] + "/" + line[index + 1..end - 1] + ">"
  {
    assert line[at..at + 3] == "<" + [line[at + 1], line[at + 2]];
    assert line[at..end] == line[at..at + 3] + line[at + 3..index] + "/" + line[index + 1..end - 1] + ">";
  }

  lemma SlashedTag(line: string, at: nat, index: nat, end: nat)
    requires at + 3 <= index < end - 1 < |line| && index == SkipAsciiWhite(line, at + 3) && line[at] == '<' && line[index] == '/'
    requires end - 1 == SkipAsciiWhite(line, index + 1) && line[end - 1] == '>'
    requires (line[at + 1] == 'b' || line[at + 1] == 'B') && (line[at + 2] == 'r' || line[at + 2] == 'R')
    ensures IsTag(line[at..end])
  {
    hide SkipAsciiWhite, AllIn;
    SkippedAreIn(line, at + 3);
    SkippedAreIn(line, index + 1);
    var b, before, after := [line[at + 1], line[at + 2]], line[at + 3..index], line[index + 1..end - 1];
    TagSpans(line, at, index, end);
    assert b in {"br", "bR", "Br", "BR"};
    assert TagOf(line[at..end], b, before, "/", after);
  }

  lemma SpelledIsTag(line: string, at: nat, end: nat)
    requires at < end <= |line| && IsTag(line[at..end])
    ensures LineBreakAt(line, at) == Some(end - at)
  {
    hide SkipAsciiWhite, TagOf, AllIn;
    var tag := line[at..end];
    var b: string, before: string, slash: string, after: string :| TagOf(tag, b, before, slash, after);
    TagParts(tag, b, before, slash, after);
    TagChars(tag, b, before, slash, after);
    var index := at + 3 + |before|;
    SliceOfSlice(line, at, end, 3, 3 + |before|);
    assert line[index] == tag[3 + |before|];
    SkipIs(line, at + 3, index);
    assert line[at] == tag[0] && line[at + 1] == tag[1] && line[at + 2] == tag[2] && line[end - 1] == tag[|tag| - 1];
    if slash == "/" {
      SliceOfSlice(line, at, end, 4 + |before|, |tag| - 1);
      SkipIs(line, index + 1, end - 1);
    }
  }

  lemma TagChars(tag: string, b: string, before: string, slash: string, after: string)
    requires TagOf(tag, b, before, slash, after)
    ensures |b| == 2 && (b[0] == 'b' || b[0] == 'B') && (b[1] == 'r' || b[1] == 'R')
    ensures AllIn(before, " \t\n\r\U{0C}") && AllIn(after, " \t\n\r\U{0C}") && (slash == "/" || (slash == "" && after == ""))
    ensures '/' !in " \t\n\r\U{0C}" && '>' !in " \t\n\r\U{0C}"
  {
  }

  /** The reader finds a tag exactly where one is written, and all of it. */
  lemma TagExactly(line: string, at: nat, length: nat)
    requires at + length <= |line|
    ensures LineBreakAt(line, at) == Some(length) <==> length > 0 && IsTag(line[at..at + length])
  {
    hide LineBreakAt, IsTag;
    if LineBreakAt(line, at) == Some(length) { TagIsSpelled(line, at); }
    if length > 0 && IsTag(line[at..at + length]) { SpelledIsTag(line, at, at + length); }
  }

  // ------------------------------------------------------------------ segments

  /** The segments of a line with what stood between them put back. */
  ghost function Rebuilt(segments: seq<Segment>, cuts: seq<string>): string
    requires |segments| == |cuts| + 1
  {
    if cuts == [] then segments[0].text else segments[0].text + cuts[0] + Rebuilt(segments[1..], cuts[1..])
  }

  /** Cuts and segments of a line, or of what is left of it: every cut is a cell edge of a table row or a
      break tag, no segment holds either, and all segments but the last are bounded. */
  ghost predicate Cuts(rest: string, cells: bool, segments: seq<Segment>, cuts: seq<string>) {
    && |segments| == |cuts| + 1 && rest == Rebuilt(segments, cuts)
    && (forall k :: 0 <= k < |cuts| ==> (cells && cuts[k] == "|") || IsTag(cuts[k]))
    && (forall k :: 0 <= k < |segments| ==>
          && Tagless(segments[k].text) && (cells ==> '|' !in segments[k].text)
          && (segments[k].bounded <==> k < |segments| - 1))
  }

  lemma CutsOneMore(text: string, cut: string, rest: string, cells: bool, segments: seq<Segment>, cuts: seq<string>)
    requires Cuts(rest, cells, segments, cuts) && Tagless(text) && (cells ==> '|' !in text)
    requires (cells && cut == "|") || IsTag(cut)
    ensures Cuts(text + cut + rest, cells, [Segment(text, true)] + segments, [cut] + cuts)
  {
    hide Tagless, IsTag;
    var all, between := [Segment(text, true)] + segments, [cut] + cuts;
    assert all[1..] == segments && between[1..] == cuts;
    forall k | 0 <= k < |between| ensures (cells && between[k] == "|") || IsTag(between[k]) {
      if k > 0 { assert between[k] == cuts[k - 1]; }
    }
    forall k | 0 <= k < |all|
      ensures Tagless(all[k].text) && (cells ==> '|' !in all[k].text) && (all[k].bounded <==> k < |all| - 1)
    {
      if k > 0 { assert all[k] == segments[k - 1]; }
    }
  }

  lemma StretchHasNoCell(line: string, cells: bool, start: nat, end: nat)
    requires start <= end <= |line| && forall p :: start <= p < end ==> BoundaryAt(line, cells, p).None?
    ensures Tagless(line[start..end]) && (cells ==> '|' !in line[start..end])
  {
    hide LineBreakAt, Tagless;
    StretchIsTagless(line, cells, start, end);
    if cells {
      forall i | 0 <= i < end - start ensures line[start..end][i] != '|' { assert BoundaryAt(line, cells, start + i).None?; }
    }
  }

  lemma LastCut(line: string, cells: bool, start: nat)
    requires start <= |line| && FirstBoundary(line, cells, start).None?
    ensures Cuts(line[start..], cells, SegmentsFrom(line, cells, start), [])
  {
    hide BoundaryAt, FirstBoundary, Tagless, IsTag;
    StretchHasNoCell(line, cells, start, |line|);
    assert line[start..] == line[start..|line|];
  }

  lemma {:induction false} SegmentsAreCut(line: string, cells: bool, start: nat) returns (cuts: seq<string>)
    requires start <= |line|
    ensures Cuts(line[start..], cells, SegmentsFrom(line, cells, start), cuts)
    decreases |line| - start
  {
    hide BoundaryAt, FirstBoundary, Tagless, IsTag, Cuts;
    match FirstBoundary(line, cells, start)
    case None =>
      cuts := [];
      LastCut(line, cells, start);
    case Some(at) =>
      var next := at + BoundaryAt(line, cells, at).value;
      var more := SegmentsAreCut(line, cells, next);
      cuts := [line[at..next]] + more;
      StretchHasNoCell(line, cells, start, at);
      BoundaryIsCut(line, cells, at);
      CutsOneMore(line[start..at], line[at..next], line[next..], cells, SegmentsFrom(line, cells, next), more);
      assert line[start..] == line[start..at] + line[at..next] + line[next..];
  }

  lemma BoundaryIsCut(line: string, cells: bool, at: nat)
    requires at < |line| && BoundaryAt(line, cells, at).Some?
    ensures var cut := line[at..at + BoundaryAt(line, cells, at).value]; (cells && cut == "|") || IsTag(cut)
  {
    hide LineBreakAt, IsTag;
    if !(cells && line[at] == '|') { TagIsSpelled(line, at); }
  }

  /** A line is its segments with its cuts between them: cell edges when it starts with one, and break tags. */
  lemma SegmentsExactly(line: string) returns (cuts: seq<string>)
    ensures Cuts(line, line != [] && line[0] == '|', SplitSegments(line), cuts)
  {
    hide SegmentsFrom, Cuts;
    cuts := SegmentsAreCut(line, StartsWith(line, "|"), 0);
    assert line[0..] == line;
    if |line| >= 1 { assert line[0..1] == [line[0]]; }
  }

  // ------------------------------------------------------------------ heads

  /** A date as documents write it, whether or not the calendar has it. */
  ghost predicate DateShaped(date: string) {
    |date| == 10 && forall i :: 0 <= i < 10 ==> if i == 4 || i == 7 then date[i] == '-' else '0' <= date[i] <= '9'
  }

  lemma IsoExactly(date: string)
    ensures IsIsoShaped(date) <==> DateShaped(date)
  {
    if IsIsoShaped(date) {
      assert forall i :: 0 <= i < 4 ==> date[..4][i] == date[i];
      assert forall i :: 5 <= i < 7 ==> date[5..7][i - 5] == date[i];
      assert forall i :: 8 <= i < 10 ==> date[8..][i - 8] == date[i];
    }
  }

  /** A head: blanks, a date, blanks, and the em-dash or whatever else follows. */
  ghost predicate HeadOf(rest: string, head: Head, before: string, between: string) {
    && AllIn(before, " \t") && AllIn(between, " \t") && DateShaped(head.date)
    && before + head.date + between <= rest
    && var dash := |before| + 10 + |between|;
       if head.emDash then head.bodyStart == dash + 1 <= |rest| && rest[dash] == '\U{2014}'
       else head.bodyStart == dash && (dash < |rest| ==> rest[dash] !in " \t\U{2014}")
  }

  ghost predicate HasHead(rest: string, head: Head) { exists before: string, between: string :: HeadOf(rest, head, before, between) }

  lemma BlankExactly(c: char)
    ensures IsBlank(c) <==> c in " \t"
  {
  }

  lemma BlanksAre(text: string, at: nat, next: nat)
    requires at <= next <= |text| && AllIn(text[at..next], " \t") && (next < |text| ==> text[next] !in " \t")
    ensures SkipBlanks(text, at) == next
  {
    hide IsBlank, SkipBlanks;
    forall i | at <= i < next ensures IsBlank(text[i]) { assert text[at..next][i - at] == text[i]; BlankExactly(text[i]); }
    if next < |text| { BlankExactly(text[next]); }
    var m := SkipBlanks(text, at);
    assert !(m < next) && !(next < m);
  }

  lemma SkippedAreBlanks(text: string, at: nat)
    requires at <= |text|
    ensures AllIn(text[at..SkipBlanks(text, at)], " \t")
    ensures SkipBlanks(text, at) < |text| ==> text[SkipBlanks(text, at)] !in " \t"
  {
    hide IsBlank, SkipBlanks;
    var next := SkipBlanks(text, at);
    forall i | 0 <= i < next - at ensures text[at..next][i] in " \t" { assert text[at..next][i] == text[at + i]; BlankExactly(text[at + i]); }
    if next < |text| { BlankExactly(text[next]); }
  }

  /** The head that is read is the one that is written, and none is read where none is. */
  lemma HeadExactly(rest: string, head: Head)
    ensures ReadHead(rest) == Some(head) <==> HasHead(rest, head)
  {
    hide IsIsoShaped, SkipBlanks, DateShaped, AllIn;
    if ReadHead(rest) == Some(head) {
      var index := SkipBlanks(rest, 0);
      var dash := SkipBlanks(rest, index + DATE_LEN);
      SkippedAreBlanks(rest, 0);
      SkippedAreBlanks(rest, index + DATE_LEN);
      IsoExactly(head.date);
      assert rest[..dash] == rest[0..index] + head.date + rest[index + DATE_LEN..dash];
      assert HeadOf(rest, head, rest[0..index], rest[index + DATE_LEN..dash]);
    }
    if before: string, between: string :| HeadOf(rest, head, before, between) { WrittenHeadIsRead(rest, head, before, between); }
  }

  lemma WrittenHeadIsRead(rest: string, head: Head, before: string, between: string)
    requires HeadOf(rest, head, before, between)
    ensures ReadHead(rest) == Some(head)
  {
    hide IsIsoShaped, SkipBlanks, AllIn;
    var index := |before|;
    var start := before + head.date + between;
    var dash := |start|;
    assert rest[..dash] == start && |head.date| == 10;
    SliceOfSlice(rest, 0, dash, 0, index);
    SliceOfSlice(rest, 0, dash, index, index + 10);
    SliceOfSlice(rest, 0, dash, index + 10, dash);
    assert rest[0..dash] == start && start == before + (head.date + between);
    assert rest[0..index] == before && rest[index..index + 10] == head.date && rest[index + 10..dash] == between;
    assert rest[index] == head.date[0];
    BlanksAre(rest, 0, index);
    BlanksAre(rest, index + 10, dash);
    IsoExactly(head.date);
  }

  // ------------------------------------------------------------------ spans

  /** An annotation in inline code reaches to the closing backtick, and any other to the end of its segment. */
  ghost predicate Reaches(text: string, start: nat, limit: nat) {
    && start + 7 <= limit <= |text|
    && (limit < |text| <==> start > 0 && text[start - 1] == '`' && exists q :: start + 7 <= q < |text| && text[q] == '`')
    && (limit < |text| ==> text[limit] == '`' && forall q :: start + 7 <= q < limit ==> text[q] != '`')
  }

  lemma SpanExactly(text: string, start: nat, limit: nat)
    requires start + 7 <= |text|
    ensures SpanLimit(text, start) == limit <==> Reaches(text, start, limit)
  {
    hide FindChar;
    var found := SpanLimit(text, start);
    assert Reaches(text, start, found);
    if Reaches(text, start, limit) { assert !(found < limit) && !(limit < found); }
  }

  // ------------------------------------------------------------------ what the counter counts

  /** Whitespace, a date, whitespace, and an em-dash. */
  ghost predicate AnnotationOf(rest: string, before: string, date: string, between: string) {
    Blank(before) && Blank(between) && DateShaped(date) && before + date + between + "\U{2014}" <= rest
  }

  ghost predicate IsAnnotated(rest: string) {
    exists before: string, date: string, between: string :: AnnotationOf(rest, before, date, between)
  }

  /** The counter counts exactly the keywords that whitespace, a date, whitespace and an em-dash follow. */
  lemma AnnotatesExactly(rest: string)
    ensures Annotates(rest) <==> IsAnnotated(rest)
  {
    hide IsIsoShaped, IsWhite, LeadingWhite, Annotates, DateShaped;
    if Annotates(rest) { var before, date, between := CountedIsAnnotation(rest); }
    if before: string, date: string, between: string :| AnnotationOf(rest, before, date, between) {
      AnnotationIsCounted(rest, before, date, between);
    }
  }

  lemma CountedIsAnnotation(rest: string) returns (before: string, date: string, between: string)
    requires Annotates(rest)
    ensures AnnotationOf(rest, before, date, between)
  {
    hide IsIsoShaped, IsWhite, LeadingWhite, Annotates, DateShaped;
    AnnotatedParts(rest);
    var n := LeadingWhite(rest);
    var m := n + 10 + LeadingWhite(rest[n + 10..]);
    before, date, between := rest[..n], rest[n..n + 10], rest[n + 10..m];
    IsoExactly(date);
    forall i | 0 <= i < |between| ensures IsWhite(between[i]) { assert between[i] == rest[n + 10..][i]; }
    assert rest[..m + 1] == before + date + between + [rest[m]];
  }

  lemma AnnotationIsCounted(rest: string, before: string, date: string, between: string)
    requires AnnotationOf(rest, before, date, between)
    ensures Annotates(rest)
  {
    hide IsIsoShaped, IsWhite, LeadingWhite, TrimStart;
    var n, m := |before|, |before| + 10 + |between|;
    var start := before + date + between + "\U{2014}";
    assert |date| == 10 && rest[..|start|] == start;
    assert rest[n] == start[n] == date[0];
    DigitIsNotWhite(date[0]);
    forall i | 0 <= i < n ensures IsWhite(rest[i]) { assert rest[i] == start[i] == before[i]; }
    LeadingWhiteIs(rest, n);
    var after := rest[n + 10..];
    assert rest[n..][..10] == date by { SliceOfSlice(rest, 0, |start|, n, n + 10); assert start == before + (date + (between + "\U{2014}")); }
    assert rest[n..][10..] == after;
    forall i | 0 <= i < |between| ensures IsWhite(after[i]) { assert after[i] == rest[n + 10 + i] == start[n + 10 + i] == between[i]; }
    assert after[|between|] == rest[m] == start[m] == '\U{2014}';
    DigitIsNotWhite('\U{2014}');
    LeadingWhiteIs(after, |between|);
    IsoExactly(date);
  }

  lemma DigitIsNotWhite(c: char)
    ensures '0' <= c <= '9' || c == '\U{2014}' || c == 'd' || c == 'D' ==> !IsWhite(c)
  {
  }

  // ------------------------------------------------------------------ horizons and their tokens

  /** A number of days from one to 3650: whitespace, digits, and perhaps whitespace and a d, and whitespace. */
  ghost predicate HorizonOf(value: string, days: nat, before: string, digits: string, between: string, unit: string, after: string) {
    && value == before + digits + between + unit + after
    && Blank(before) && Blank(between) && Blank(after) && digits != [] && Decimal.AllDigits(digits) && Decimal.Value(digits) == days
    && (unit in {"d", "D"} || (unit == "" && between == "")) && 1 <= days <= 3650
  }

  ghost predicate SpellsHorizon(value: string, days: nat) {
    exists before: string, digits: string, between: string, unit: string, after: string ::
      HorizonOf(value, days, before, digits, between, unit, after)
  }

  /** A text is whitespace, what is left when it is trimmed, and whitespace. */
  lemma TrimParts(s: string) returns (before: string, after: string)
    ensures s == before + Trim(s) + after && Blank(before) && Blank(after)
    ensures Trim(s) != [] ==> !IsWhite(Trim(s)[0]) && !IsWhite(Trim(s)[|Trim(s)| - 1])
  {
    hide IsWhite, TrimStart, LeadingWhite;
    var n := LeadingWhite(s);
    var rest := s[n..];
    after := TrimEndParts(rest);
    before := s[..n];
    TrimEndEnds(rest);
    if Trim(s) != [] { assert Trim(s)[0] == rest[0]; }
  }

  lemma {:induction false} TrimEndParts(s: string) returns (after: string)
    ensures s == TrimEnd(s) + after && Blank(after)
  {
    hide IsWhite;
    after := [];
    if s != [] && IsWhite(s[|s| - 1]) {
      after := TrimEndParts(s[..|s| - 1]);
      after := after + [s[|s| - 1]];
    }
  }

  lemma {:induction false} TrimEndIs(kept: string, after: string)
    requires Blank(after) && (kept != [] ==> !IsWhite(kept[|kept| - 1]))
    ensures TrimEnd(kept + after) == kept
  {
    hide IsWhite;
    if after == [] {
      assert kept + after == kept;
    } else {
      TrimEndIs(kept, after[..|after| - 1]);
      assert (kept + after)[..|kept + after| - 1] == kept + after[..|after| - 1];
    }
  }

  lemma TrimIsBetween(before: string, kept: string, after: string)
    requires Blank(before) && Blank(after) && kept != [] && !IsWhite(kept[0]) && !IsWhite(kept[|kept| - 1])
    ensures Trim(before + kept + after) == kept
  {
    hide IsWhite, TrimStart, TrimEnd;
    var s := before + kept + after;
    assert s[|before|] == kept[0] && s[|before|..] == kept + after;
    forall i | 0 <= i < |before| ensures IsWhite(s[i]) { assert s[i] == before[i]; }
    LeadingWhiteIs(s, |before|);
    TrimEndIs(kept, after);
  }

  lemma HorizonIsSpelled(value: string)
    requires ParseHorizon(value).Some?
    ensures SpellsHorizon(value, ParseHorizon(value).value.days)
  {
    hide IsWhite, Trim, TrimEnd, Decimal.Value;
    var before, after := TrimParts(value);
    var trimmed, days := Trim(value), ParseHorizon(value).value.days;
    if trimmed[|trimmed| - 1] == 'd' || trimmed[|trimmed| - 1] == 'D' {
      var front := trimmed[..|trimmed| - 1];
      var between := TrimEndParts(front);
      var unit := [trimmed[|trimmed| - 1]];
      assert trimmed == TrimEnd(front) + between + unit;
      assert unit in {"d", "D"};
      assert value == before + TrimEnd(front) + between + unit + after;
      assert HorizonOf(value, days, before, TrimEnd(front), between, unit, after);
    } else {
      assert value == before + trimmed + "" + "" + after;
      assert HorizonOf(value, days, before, trimmed, "", "", after);
    }
  }

  lemma SpelledIsHorizon(value: string, days: nat)
    requires SpellsHorizon(value, days)
    ensures ParseHorizon(value) == Some(Horizon(days))
  {
    hide IsWhite, TrimEnd, Trim, Decimal.Value;
    var before: string, digits: string, between: string, unit: string, after: string :|
      HorizonOf(value, days, before, digits, between, unit, after);
    DigitIsNotWhite(digits[0]);
    DigitIsNotWhite(digits[|digits| - 1]);
    DigitIsNotWhite('d'); DigitIsNotWhite('D');
    var kept := digits + between + unit;
    assert kept[0] == digits[0] && value == before + kept + after;
    if unit == "" {
      assert kept == digits;
      TrimIsBetween(before, kept, after);
      DigitIsNoUnit(digits);
    } else {
      assert kept[|kept| - 1] == unit[0];
      TrimIsBetween(before, kept, after);
      assert kept[..|kept| - 1] == digits + between;
      TrimEndIs(digits, between);
    }
  }

  lemma DigitIsNoUnit(digits: string)
    requires digits != [] && Decimal.AllDigits(digits)
    ensures digits[|digits| - 1] != 'd' && digits[|digits| - 1] != 'D'
  {
  }

  lemma HorizonExactly(value: string, days: nat)
    ensures ParseHorizon(value) == Some(Horizon(days)) <==> SpellsHorizon(value, days)
  {
    hide ParseHorizon, SpellsHorizon;
    if ParseHorizon(value) == Some(Horizon(days)) { HorizonIsSpelled(value); }
    if SpellsHorizon(value, days) { SpelledIsHorizon(value, days); }
  }

  /** `(horizon: 7d)`: the word in any case right after the parenthesis, whitespace, a colon, and a horizon. */
  ghost predicate TokenOf(token: string, days: nat, word: string, gap: string, value: string) {
    && token == "(" + word + gap + ":" + value + ")"
    && |word| == 7 && (forall i :: 0 <= i < 7 ==> word[i] == "horizon"[i] || word[i] == "HORIZON"[i])
    && Blank(gap) && SpellsHorizon(value, days) && ')' !in value
  }

  ghost predicate SpellsToken(token: string, days: nat) {
    exists word: string, gap: string, value: string :: TokenOf(token, days, word, gap, value)
  }

  lemma WordExactly(word: string)
    ensures IsTokenKeyword(word) <==>
            |word| == 7 && forall i :: 0 <= i < 7 ==> word[i] == "horizon"[i] || word[i] == "HORIZON"[i]
  {
    assert |TOKEN_KEYWORD| == 7;
    forall i | 0 <= i < 7 && i < |word|
      ensures Lower(word[i]) == TOKEN_KEYWORD[i] <==> word[i] == "horizon"[i] || word[i] == "HORIZON"[i]
    {
    }
  }

  lemma TokenSpans(body: string, open: nat, start: nat, colon: nat, close: nat)
    requires open < start <= colon < close < |body| && body[open] == '(' && body[colon] == ':' && body[close] == ')'
    ensures body[open..close + 1] == "(" + body[open + 1..start] + body[start..colon] + ":" + body[colon + 1..close] + ")"
  {
  }

  lemma TokenIsSpelled(body: string, open: nat)
    requires open <= |body| && TokenAt(body, open).Some?
    ensures var token := TokenAt(body, open).value; SpellsToken(body[open..token.end], token.horizon.days)
  {
    hide IsTokenKeyword, IsWhite, LeadingWhite, ParseHorizon, SpellsHorizon;
    var found := TokenAt(body, open).value;
    var start := open + 8;
    var word, rest := body[open + 1..start], body[start..];
    var colon := start + LeadingWhite(rest);
    var close := FindChar(body, ')', colon + 1).value;
    var gap, value := body[start..colon], body[colon + 1..close];
    WordExactly(word);
    HorizonExactly(value, found.horizon.days);
    forall i | 0 <= i < |gap| ensures IsWhite(gap[i]) { assert gap[i] == rest[i]; }
    TokenSpans(body, open, start, colon, close);
    assert TokenOf(body[open..found.end], found.horizon.days, word, gap, value);
  }

  /** Where the parts of a text in parentheses stand. */
  lemma TokenParts(word: string, gap: string, value: string)
    ensures var token, colon := "(" + word + gap + ":" + value + ")", 1 + |word| + |gap|;
            && |token| == colon + 1 + |value| + 1 && token[0] == '(' && token[1..1 + |word|] == word
            && token[1 + |word|..colon] == gap && token[colon] == ':' && token[colon + 1..|token| - 1] == value
            && token[|token| - 1] == ')'
  {
    var token := "(" + word + gap + ":" + value + ")";
    assert token == "(" + word + (gap + ":" + value + ")");
    assert token == ("(" + word) + gap + (":" + value + ")");
    assert token == ("(" + word + gap + ":") + value + ")";
  }

  lemma TokenSlices(body: string, open: nat, end: nat, word: string, gap: string, value: string)
    requires open < end <= |body| && body[open..end] == "(" + word + gap + ":" + value + ")" && |word| == 7
    ensures var colon := open + 8 + |gap|;
            && end == colon + 1 + |value| + 1 && body[open] == '(' && body[open + 1..open + 8] == word
            && body[open + 8..colon] == gap && body[colon] == ':' && body[colon + 1..end - 1] == value && body[end - 1] == ')'
  {
    var token := body[open..end];
    TokenParts(word, gap, value);
    SliceOfSlice(body, open, end, 1, 8);
    SliceOfSlice(body, open, end, 8, 8 + |gap|);
    SliceOfSlice(body, open, end, 9 + |gap|, 9 + |gap| + |value|);
    assert body[open] == token[0] && body[open + 8 + |gap|] == token[8 + |gap|] && body[end - 1] == token[|token| - 1];
  }

  /** Whitespace and then something else: where the whitespace ends. */
  lemma GapEnds(text: string, start: nat, gap: string)
    requires start + |gap| < |text| && text[start..start + |gap|] == gap && Blank(gap) && !IsWhite(text[start + |gap|])
    ensures LeadingWhite(text[start..]) == |gap|
  {
    hide IsWhite, LeadingWhite;
    var rest := text[start..];
    forall i | 0 <= i < |gap| ensures IsWhite(rest[i]) { assert text[start..start + |gap|][i] == rest[i]; }
    LeadingWhiteIs(rest, |gap|);
  }

  lemma ValueEnds(body: string, start: nat, value: string)
    requires start + |value| < |body| && body[start..start + |value|] == value && ')' !in value && body[start + |value|] == ')'
    ensures FindChar(body, ')', start) == Some(start + |value|)
  {
    hide FindChar;
    forall i | start <= i < start + |value| ensures body[i] != ')' { assert body[start..start + |value|][i - start] == body[i]; }
    FindCharIs(body, ')', start, start + |value|);
  }

  lemma {:induction false} TokenReads(body: string, open: nat, colon: nat, close: nat, horizon: Horizon)
    requires open + 8 <= colon < close < |body| && body[open] == '(' && IsTokenKeyword(body[open + 1..open + 8])
    requires colon == open + 8 + LeadingWhite(body[open + 8..]) && body[colon] == ':'
    requires FindChar(body, ')', colon + 1) == Some(close) && ParseHorizon(body[colon + 1..close]) == Some(horizon)
    ensures TokenAt(body, open) == Some(Token(open, close + 1, horizon))
  {
    hide IsTokenKeyword, LeadingWhite, ParseHorizon, FindChar;
    KeywordIsSeven();
    assert open + 1 + |TOKEN_KEYWORD| == open + 8;
  }

  lemma KeywordIsSeven()
    ensures |TOKEN_KEYWORD| == 7
  {
  }

  lemma WrittenToken(token: string, days: nat) returns (word: string, gap: string, value: string)
    requires SpellsToken(token, days)
    ensures token == "(" + word + gap + ":" + value + ")" && |word| == 7 && IsTokenKeyword(word) && Blank(gap)
    ensures ParseHorizon(value) == Some(Horizon(days)) && ')' !in value
  {
    hide IsTokenKeyword, ParseHorizon, SpellsHorizon, Blank;
    word, gap, value :| TokenOf(token, days, word, gap, value);
    WordExactly(word);
    HorizonExactly(value, days);
  }

  lemma {:induction false} SpelledIsToken(body: string, open: nat, end: nat, days: nat)
    requires open < end <= |body| && SpellsToken(body[open..end], days)
    ensures TokenAt(body, open) == Some(Token(open, end, Horizon(days)))
  {
    hide IsTokenKeyword, IsWhite, LeadingWhite, ParseHorizon, FindChar, Blank, TokenAt, SpellsToken;
    var word, gap, value := WrittenToken(body[open..end], days);
    TokenSlices(body, open, end, word, gap, value);
    MarkIsNotWhite();
    GapEnds(body, open + 8, gap);
    ValueEnds(body, open + 9 + |gap|, value);
    TokenReads(body, open, open + 8 + |gap|, end - 1, Horizon(days));
  }

  /** The token that is read is the one that is written, and none is read where none is. */
  lemma TokenExactly(body: string, open: nat, end: nat, days: nat)
    requires open <= |body|
    ensures TokenAt(body, open) == Some(Token(open, end, Horizon(days))) <==>
            open < end <= |body| && SpellsToken(body[open..end], days)
  {
    hide TokenAt, SpellsToken;
    if TokenAt(body, open) == Some(Token(open, end, Horizon(days))) { TokenIsSpelled(body, open); }
    if open < end <= |body| && SpellsToken(body[open..end], days) { SpelledIsToken(body, open, end, days); }
  }

  /** The token that counts is the last one written. */
  lemma {:induction false} LastTokenExactly(body: string, upto: nat)
    requires upto <= |body|
    ensures match LastToken(body, upto)
            case None => forall open :: 0 <= open < upto ==> TokenAt(body, open).None?
            case Some(token) =>
              token.start < upto && TokenAt(body, token.start) == Some(token)
              && forall open :: token.start < open < upto ==> TokenAt(body, open).None?
  {
    hide TokenAt;
    if upto > 0 { LastTokenExactly(body, upto - 1); }
  }

  // ------------------------------------------------------------------ lines a body stops at

  /** Digits, a full stop or a parenthesis, and a space. */
  ghost predicate Numbered(text: string) { exists n: nat :: NumberOf(text, n) }

  ghost predicate NumberOf(text: string, n: nat) {
    && 0 < n && n + 1 < |text| && (forall i :: 0 <= i < n ==> '0' <= text[i] <= '9')
    && (text[n] == '.' || text[n] == ')') && text[n + 1] == ' '
  }

  lemma {:induction false} DigitsAre(text: string, n: nat)
    requires n <= |text| && (forall i :: 0 <= i < n ==> Decimal.IsDigit(text[i])) && (n < |text| ==> !Decimal.IsDigit(text[n]))
    ensures LeadingDigits(text) == n
  {
    if n > 0 {
      assert forall i :: 0 <= i < n - 1 ==> text[1..][i] == text[i + 1];
      DigitsAre(text[1..], n - 1);
    }
  }

  lemma {:induction false} DigitsLead(text: string)
    ensures forall i :: 0 <= i < LeadingDigits(text) ==> Decimal.IsDigit(text[i])
  {
    if text != [] && Decimal.IsDigit(text[0]) {
      DigitsLead(text[1..]);
      forall i | 0 < i < LeadingDigits(text) ensures Decimal.IsDigit(text[i]) { assert text[i] == text[1..][i - 1]; }
    }
  }

  lemma NumberedExactly(text: string)
    ensures Numbered(text) <==>
            (var digits := LeadingDigits(text);
             digits > 0 && digits + 1 < |text| && (text[digits] == '.' || text[digits] == ')') && text[digits + 1] == ' ')
  {
    hide LeadingDigits;
    DigitsLead(text);
    if n: nat :| NumberOf(text, n) { DigitsAre(text, n); }
    if LeadingDigits(text) > 0 { assert NumberOf(text, LeadingDigits(text)) || LeadingDigits(text) + 1 >= |text| || text[LeadingDigits(text) + 1] != ' ' || (text[LeadingDigits(text)] != '.' && text[LeadingDigits(text)] != ')'); }
  }

  lemma StartsExactly(text: string, key: string)
    ensures StartsWith(text, key) <==> key <= text
  {
    if |key| <= |text| { assert text[0..|key|] == text[..|key|]; }
  }

  /** A line that is empty, a heading, a table row, a fence, an annotation of either kind, or an item of a
      list of either kind. */
  ghost predicate StopText(text: string) {
    || text == "" || "#" <= text || "|" <= text || "```" <= text || "Verify:" <= text || "Due:" <= text
    || "- " <= text || "* " <= text || "+ " <= text || Numbered(text)
  }

  lemma StopExactly(stripped: string)
    ensures IsStopLine(stripped) <==> StopText(Trim(stripped))
  {
    hide StartsWith, Trim, LeadingDigits, Numbered;
    var text := Trim(stripped);
    StartsExactly(text, "#"); StartsExactly(text, "|"); StartsExactly(text, "```");
    StartsExactly(text, "Verify:"); StartsExactly(text, "Due:");
    StartsExactly(text, "- "); StartsExactly(text, "* "); StartsExactly(text, "+ ");
    NumberedExactly(text);
  }

  // ------------------------------------------------------------------ fences

  /** How many fence markers come before line `n`. */
  ghost function Markers(raws: seq<string>, n: nat): set<nat>
    requires n <= |raws|
  {
    set k: nat | k < n && "```" <= StripQuote(raws[k]).0
  }

  lemma MarkerExactly(raw: string)
    ensures IsMarker(raw) <==> "```" <= StripQuote(raw).0
  {
    hide IsWhite, StripQuote, TrimEnd;
    var rest := StripQuote(raw).0;
    QuoteExactly(raw);
    assert TrimStart(rest) == rest;
    KeyEnds();
    BacktickIsNotWhite();
    if StartsWith(rest, FENCE) { TrimEndKeepsKey(rest, FENCE); }
    TrimEndInside(rest, 0);
    if StartsWith(TrimEnd(rest), FENCE) { assert rest[0..3] == TrimEnd(rest)[0..3]; }
    StartsExactly(rest, FENCE);
  }

  lemma BacktickIsNotWhite()
    ensures !IsWhite(FENCE[|FENCE| - 1])
  {
  }

  lemma MarkersOneMore(raws: seq<string>, n: nat)
    requires n < |raws|
    ensures |Markers(raws, n + 1)| == |Markers(raws, n)| + if "```" <= StripQuote(raws[n]).0 then 1 else 0
  {
    hide StripQuote;
    var before := Markers(raws, n);
    assert n !in before;
    assert Markers(raws, n + 1) == if "```" <= StripQuote(raws[n]).0 then before + {n} else before;
  }

  lemma {:induction false} FencedIsOdd(raws: seq<string>, n: nat)
    requires n <= |raws|
    ensures FencedBefore(raws, n) <==> |Markers(raws, n)| % 2 == 1
  {
    hide IsMarker, Markers;
    if n > 0 {
      FencedIsOdd(raws, n - 1);
      MarkerExactly(raws[n - 1]);
      MarkersOneMore(raws, n - 1);
    } else {
      assert Markers(raws, 0) == {} by { NoMarkers(raws); }
    }
  }

  lemma NoMarkers(raws: seq<string>)
    ensures Markers(raws, 0) == {}
  {
  }

  /** A line that is a fence marker itself or after an odd number of them. */
  ghost predicate FencedOff(raws: seq<string>, n: nat)
    requires n < |raws|
  {
    "```" <= StripQuote(raws[n]).0 || |Markers(raws, n)| % 2 == 1
  }

  lemma FencedExactly(raws: seq<string>, n: nat)
    requires n < |raws|
    ensures Excluded(raws, n) <==> FencedOff(raws, n)
  {
    hide IsMarker, Markers, FencedBefore, StripQuote;
    MarkerExactly(raws[n]);
    FencedIsOdd(raws, n);
  }
}
