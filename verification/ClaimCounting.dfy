/** The counter the scan is measured against: annotation-shaped occurrences, found without the parser
    (crates/aep-backend-markdown/src/claim.rs:376-411). */
module ClaimCounting {
  import opened Wrappers
  import opened Texts
  import opened Dates
  import opened ClaimLines
  import opened Claims

  // ------------------------------------------------------------------ the counter's own fences

  function StripMarks(line: string): string {
    if line != [] && (line[0] == '>' || line[0] == ' ') then StripMarks(line[1..]) else line
  }

  /** Whether the counter takes this line for one end of a fenced block. */
  predicate IsRawMarker(raw: string) { StartsWith(TrimStart(StripMarks(TrimStart(raw))), FENCE) }

  predicate RawFencedBefore(raws: seq<string>, n: nat)
    requires n <= |raws|
  {
    if n == 0 then false else RawFencedBefore(raws, n - 1) != IsRawMarker(raws[n - 1])
  }

  predicate RawExcluded(raws: seq<string>, n: nat)
    requires n < |raws|
  {
    RawFencedBefore(raws, n) || IsRawMarker(raws[n])
  }

  /** The lines from `n` on that the counter keeps, each with its line feed. */
  function Kept(raws: seq<string>, n: nat): string
    requires n <= |raws|
    decreases |raws| - n
  {
    if n == |raws| then []
    else if RawExcluded(raws, n) then Kept(raws, n + 1)
    else raws[n] + ("\n" + Kept(raws, n + 1))
  }

  // ------------------------------------------------------------------ occurrences

  /** A written date and an em-dash follow, across whatever whitespace. */
  predicate Annotates(rest: string) {
    var from := TrimStart(rest);
    && |from| >= DATE_LEN && IsIsoShaped(from[..DATE_LEN])
    && var after := TrimStart(from[DATE_LEN..]); after != [] && after[0] == SEPARATOR
  }

  /** An annotation-shaped occurrence whose keyword is at `p`, in a text that `tail` follows. */
  predicate RawAt(text: string, tail: string, p: nat) {
    At(text, KEYWORD, p) && Annotates(text[p + |KEYWORD|..] + tail)
  }

  function RawCount(text: string, tail: string, from: nat): nat
    decreases |text| - from
  {
    if from >= |text| then 0 else (if RawAt(text, tail, from) then 1 else 0) + RawCount(text, tail, from + 1)
  }

  function RawOccurrences(text: string): nat { RawCount(Kept(Lines(text), 0), [], 0) }

  /** Where no keyword starts, nothing is counted. */
  lemma {:induction false} NothingCounted(text: string, tail: string, from: nat, upto: nat)
    requires from <= upto && forall p :: from <= p < upto ==> !At(text, KEYWORD, p)
    ensures RawCount(text, tail, from) == RawCount(text, tail, upto)
    decreases upto - from
  {
    hide At, Annotates;
    if from < upto { NothingCounted(text, tail, from + 1, upto); }
  }

  method KeptInPlace(text: string) returns (kept: string)
    ensures kept == Kept(Lines(text), 0)
  {
    hide IsRawMarker;
    var raws := Lines(text);
    var fenced := false;
    kept := [];
    for n := 0 to |raws|
      invariant fenced == RawFencedBefore(raws, n)
      invariant kept + Kept(raws, n) == Kept(raws, 0)
    {
      if IsRawMarker(raws[n]) {
        fenced := !fenced;
      } else if !fenced {
        assert kept + raws[n] + "\n" + Kept(raws, n + 1) == kept + (raws[n] + ("\n" + Kept(raws, n + 1)));
        kept := kept + raws[n] + "\n";
      }
    }
    assert kept + [] == kept;
  }

  method RawOccurrencesInPlace(text: string) returns (count: nat)
    ensures count == RawOccurrences(text)
  {
    hide At, Annotates, Kept, Lines;
    var kept := KeptInPlace(text);
    count := 0;
    var cursor := 0;
    var next := FindFrom(kept, KEYWORD, cursor);
    while next.Some?
      invariant 0 <= cursor <= |kept| && next == FindFrom(kept, KEYWORD, cursor)
      invariant count + RawCount(kept, [], cursor) == RawCount(kept, [], 0)
      decreases |kept| - cursor
    {
      var at := next.value;
      AtFits(kept, at);
      var rest := kept[at + |KEYWORD|..];
      assert rest + [] == rest;
      NothingCounted(kept, [], cursor, at);
      AfterKeywordIsClear(kept, at);
      NothingCounted(kept, [], at + 1, at + |KEYWORD|);
      if Annotates(rest) { count := count + 1; }
      cursor := at + |KEYWORD|;
      next := FindFrom(kept, KEYWORD, cursor);
    }
    NothingCounted(kept, [], cursor, |kept|);
  }

  // ------------------------------------------------------------------ the scan

  function Scan(text: string, now: Option<CivilDate>): ClaimScan {
    var found := LineFindings(ReadLines(text), now, 0);
    ClaimScan(found.records, RawOccurrences(text), found.rejections)
  }

  method ScanInPlace(text: string, now: Option<CivilDate>) returns (scan: ClaimScan)
    ensures scan == Scan(text, now)
  {
    hide ReadLines, LineFindings, RawOccurrences;
    var lines := ReadLinesInPlace(text);
    var raw := RawOccurrencesInPlace(text);
    var found := ScanLinesInPlace(lines, now);
    scan := ClaimScan(found.records, raw, found.rejections);
  }

  // ------------------------------------------------------------------ counting in pieces

  lemma {:induction false} Shift(a: string, b: string, tail: string, k: nat)
    ensures RawCount(a + b, tail, |a| + k) == RawCount(b, tail, k)
    decreases |b| - k
  {
    hide Annotates, At;
    if k < |b| {
      Shift(a, b, tail, k + 1);
      ShiftAt(a, b, tail, k);
    }
  }

  lemma ShiftAt(a: string, b: string, tail: string, k: nat)
    ensures RawAt(a + b, tail, |a| + k) <==> RawAt(b, tail, k)
  {
    hide Annotates;
    var n := |KEYWORD|;
    if k + n <= |b| {
      assert (a + b)[|a| + k..|a| + k + n] == b[k..k + n];
      assert (a + b)[|a| + k + n..] + tail == b[k + n..] + tail;
    }
  }

  /** Counting a text is counting its two parts, when no keyword crosses from one to the other. */
  lemma {:induction false} SplitCount(a: string, b: string, tail: string, from: nat)
    requires from <= |a| && (b != [] ==> !InKeyword(b[0]))
    ensures RawCount(a + b, tail, from) == RawCount(a, b + tail, from) + RawCount(b, tail, 0)
    decreases |a| - from
  {
    hide Annotates, At, InKeyword;
    if from == |a| {
      Shift(a, b, tail, 0);
    } else {
      SplitCount(a, b, tail, from + 1);
      SplitAtOne(a, b, tail, from);
    }
  }

  lemma SplitAtOne(a: string, b: string, tail: string, p: nat)
    requires p < |a| && (b != [] ==> !InKeyword(b[0]))
    ensures RawAt(a + b, tail, p) <==> RawAt(a, b + tail, p)
  {
    hide Annotates, InKeyword;
    var n := |KEYWORD|;
    if p + n <= |a| {
      assert (a + b)[p..p + n] == a[p..p + n];
      assert (a + b)[p + n..] + tail == a[p + n..] + (b + tail);
    } else if b != [] {
      assert (a + b)[|a|] == b[0];
      if At(a + b, KEYWORD, p) {
        KeywordChars(a + b, p);
        assert false;
      }
    }
  }

  /** What has no capital V holds no keyword and no part of one that starts in it. */
  lemma {:induction false} DropPrefix(prefix: string, rest: string, tail: string)
    requires forall i :: 0 <= i < |prefix| ==> prefix[i] != 'V'
    ensures RawCount(prefix + rest, tail, 0) == RawCount(rest, tail, 0)
  {
    hide Annotates, At, RawCount;
    forall p | 0 <= p < |prefix| ensures !At(prefix + rest, KEYWORD, p) {
      if At(prefix + rest, KEYWORD, p) { KeywordChars(prefix + rest, p); }
    }
    NothingCounted(prefix + rest, tail, 0, |prefix|);
    Shift(prefix, rest, tail, 0);
  }

  /** A kept line counts on its own, with everything after it as what may complete an annotation. */
  lemma KeptLineCounts(line: string, rest: string)
    ensures RawCount(line + ("\n" + rest), [], 0) == RawCount(line, "\n" + rest, 0) + RawCount(rest, [], 0)
  {
    hide Annotates, At, RawCount;
    SplitCount(line, "\n" + rest, [], 0);
    DropPrefix("\n", rest, []);
    assert ("\n" + rest) + [] == "\n" + rest;
  }
}
