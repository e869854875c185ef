/** The two fence readers of the scanner and of its counter: when they see a line alike, and a document
    on which they do not (crates/aep-backend-markdown/src/claim.rs:376-395, 637-673). */
module ClaimFences {
  import opened Texts
  import opened ClaimLines
  import opened Claims
  import opened ClaimCounting
  import opened ClaimAccounting

  /** The first `n` characters of a line are whitespace, then markers and spaces, then whitespace: no
      other whitespace stands between two markers. */
  ghost predicate PlainQuote(line: string, n: nat)
    requires n <= |line|
  {
    exists i, j :: Framed(line, n, i, j)
  }

  ghost predicate Framed(line: string, n: nat, i: nat, j: nat)
    requires n <= |line|
  {
    && i <= j <= n
    && (forall k :: 0 <= k < i ==> IsWhite(line[k]))
    && (forall k :: i <= k < j ==> line[k] == '>' || line[k] == ' ')
    && (forall k :: j <= k < n ==> IsWhite(line[k]))
  }

  /** How far a line is whitespace and markers. */
  function QuoteLength(line: string): (n: nat)
    ensures n <= |line|
    ensures forall k :: 0 <= k < n ==> IsWhite(line[k]) || line[k] == '>'
    ensures n < |line| ==> !IsWhite(line[n]) && line[n] != '>'
  {
    if line != [] && (IsWhite(line[0]) || line[0] == '>') then QuoteLength(line[1..]) + 1 else 0
  }

  function Marks(line: string): (n: nat)
    ensures n <= |line| && StripMarks(line) == line[n..]
    ensures forall k :: 0 <= k < n ==> line[k] == '>' || line[k] == ' '
    ensures n < |line| ==> line[n] != '>' && line[n] != ' '
  {
    if line != [] && (line[0] == '>' || line[0] == ' ') then Marks(line[1..]) + 1 else 0
  }

  /** The scanner looks at what follows all whitespace and markers. */
  lemma ScannerLooksPast(line: string)
    ensures StripQuote(line).0 == line[QuoteLength(line)..]
  {
    hide StripQuote, QuoteLength, IsWhite;
    var n := QuotePrefix(line);
    var m := QuoteLength(line);
    assert !(n < m) && !(m < n);
  }

  lemma {:induction false} TrimEndKeeps(s: string, key: string)
    requires |key| > 0 && !IsWhite(key[|key| - 1])
    ensures StartsWith(TrimEnd(s), key) <==> StartsWith(s, key)
  {
    if s != [] && IsWhite(s[|s| - 1]) {
      TrimEndKeeps(s[..|s| - 1], key);
      var n := |key|;
      if n <= |s| - 1 { assert s[..|s| - 1][..n] == s[..n]; } else if n == |s| { assert s[..n][n - 1] == s[n - 1]; }
    }
  }

  lemma MarkerLooksPast(line: string)
    ensures IsMarker(line) <==> StartsWith(line[QuoteLength(line)..], FENCE)
  {
    hide StripQuote, QuoteLength, IsWhite, StartsWith, TrimEnd;
    var rest := line[QuoteLength(line)..];
    ScannerLooksPast(line);
    assert TrimStart(rest) == rest;
    FenceIsNotWhite();
    TrimEndKeeps(rest, FENCE);
  }

  lemma FenceIsNotWhite()
    ensures !IsWhite(FENCE[|FENCE| - 1])
  {
  }

  /** The counter takes off whitespace, then markers and spaces, then whitespace, each as far as it goes. */
  lemma CounterLooksPast(line: string) returns (i: nat, j: nat, m: nat)
    ensures m <= |line| && Framed(line, m, i, j)
    ensures IsRawMarker(line) <==> StartsWith(line[m..], FENCE)
    ensures i < |line| ==> !IsWhite(line[i])
    ensures j < |line| ==> line[j] != '>' && line[j] != ' '
    ensures m < |line| ==> !IsWhite(line[m])
  {
    hide IsWhite, TrimStart, StripMarks, LeadingWhite, Marks, StartsWith, Framed;
    i := LeadingWhite(line);
    var marked := line[i..];
    j := i + Marks(marked);
    var trailing := line[j..];
    m := j + LeadingWhite(trailing);
    assert marked[Marks(marked)..] == trailing;
    assert trailing[LeadingWhite(trailing)..] == line[m..];
    FramedBy(line, m, i, j);
  }

  /** Whitespace, then markers and spaces, then whitespace, each told of by itself, frame a line. */
  lemma FramedBy(line: string, n: nat, i: nat, j: nat)
    requires i <= j <= n <= |line| && forall k :: 0 <= k < i ==> IsWhite(line[k])
    requires forall k :: 0 <= k < j - i ==> line[i..][k] == '>' || line[i..][k] == ' '
    requires forall k :: 0 <= k < n - j ==> IsWhite(line[j..][k])
    ensures Framed(line, n, i, j)
  {
    hide IsWhite;
    var marked, trailing := line[i..], line[j..];
    forall k | i <= k < j ensures line[k] == '>' || line[k] == ' ' { assert marked[k - i] == line[k]; }
    forall k | j <= k < n ensures IsWhite(line[k]) { assert trailing[k - j] == line[k]; }
  }

  lemma FenceOpensWithBacktick(text: string)
    requires StartsWith(text, FENCE)
    ensures |text| > 0 && text[0] == '`' && !IsWhite(text[0])
  {
    assert text[0..3][0] == text[0];
  }

  /** The counter takes a line for a fence marker exactly when the scanner does and no whitespace other
      than spaces stands between two of its quote markers. */
  lemma MarkersDifferExactly(line: string)
    ensures IsRawMarker(line) <==> IsMarker(line) && PlainQuote(line, QuoteLength(line))
  {
    hide IsWhite, StartsWith, IsMarker, IsRawMarker, QuoteLength, PlainQuote;
    MarkerLooksPast(line);
    var n := QuoteLength(line);
    var i, j, m := CounterLooksPast(line);
    SpaceIsWhite();
    if IsRawMarker(line) {
      FenceOpensWithBacktick(line[m..]);
      assert m == n;
      PlainBy(line, n, i, j);
    }
    if IsMarker(line) && PlainQuote(line, n) {
      FenceOpensWithBacktick(line[n..]);
      var a, b := PlainWitness(line, n);
      assert m <= n;
      assert m == n;
    }
  }

  lemma SpaceIsWhite()
    ensures IsWhite(' ') && !IsWhite('>') && !IsWhite('`')
  {
  }

  lemma PlainBy(line: string, n: nat, i: nat, j: nat)
    requires n <= |line| && Framed(line, n, i, j)
    ensures PlainQuote(line, n)
  {
  }

  lemma PlainWitness(line: string, n: nat) returns (i: nat, j: nat)
    requires n <= |line| && PlainQuote(line, n)
    ensures Framed(line, n, i, j)
  {
    i, j :| Framed(line, n, i, j);
  }

  /** The two readers exclude the same lines of a document whose fence markers are plainly quoted. */
  lemma PlainFencesAgree(raws: seq<string>)
    requires forall n :: 0 <= n < |raws| && IsMarker(raws[n]) ==> PlainQuote(raws[n], QuoteLength(raws[n]))
    ensures FencesAgree(raws)
  {
    hide IsMarker, IsRawMarker, PlainQuote, QuoteLength;
    forall n | 0 <= n < |raws| ensures Excluded(raws, n) <==> RawExcluded(raws, n) {
      SameFences(raws, n);
      MarkersDifferExactly(raws[n]);
    }
  }

  lemma {:induction false} SameFences(raws: seq<string>, n: nat)
    requires n <= |raws|
    requires forall n :: 0 <= n < |raws| && IsMarker(raws[n]) ==> PlainQuote(raws[n], QuoteLength(raws[n]))
    ensures FencedBefore(raws, n) == RawFencedBefore(raws, n)
  {
    hide IsMarker, IsRawMarker, PlainQuote, QuoteLength;
    if n > 0 {
      SameFences(raws, n - 1);
      MarkersDifferExactly(raws[n - 1]);
    }
  }

  // ------------------------------------------------------------------ documents read alike

  /** A fence marker only the scanner sees. */
  ghost predicate Differs(raw: string) { IsMarker(raw) && !PlainQuote(raw, QuoteLength(raw)) }

  /** How many of the first `n` lines are markers only the scanner sees. */
  ghost function Differing(raws: seq<string>, n: nat): nat
    requires n <= |raws|
  {
    if n == 0 then 0 else Differing(raws, n - 1) + if Differs(raws[n - 1]) then 1 else 0
  }

  /** The readers are in step, both inside a fence or both outside, after an even number of such markers. */
  lemma {:induction false} InStepExactly(raws: seq<string>, n: nat)
    requires n <= |raws|
    ensures (FencedBefore(raws, n) <==> RawFencedBefore(raws, n)) <==> Differing(raws, n) % 2 == 0
  {
    hide IsMarker, IsRawMarker, PlainQuote, QuoteLength;
    if n > 0 {
      InStepExactly(raws, n - 1);
      MarkersDifferExactly(raws[n - 1]);
    }
  }

  /** The readers exclude the same lines exactly when the markers only the scanner sees stand where the
      counter is inside a fence, and only other markers stand after an odd number of them. */
  lemma FencesAgreeExactly(raws: seq<string>)
    ensures FencesAgree(raws) <==>
            forall n :: 0 <= n < |raws| ==>
              && (!IsMarker(raws[n]) ==> Differing(raws, n) % 2 == 0)
              && (Differs(raws[n]) ==> RawFencedBefore(raws, n))
  {
    hide IsMarker, IsRawMarker, PlainQuote, QuoteLength, FencedBefore, RawFencedBefore, Differing;
    forall n | 0 <= n < |raws|
      ensures (Excluded(raws, n) <==> RawExcluded(raws, n)) <==>
              (!IsMarker(raws[n]) ==> Differing(raws, n) % 2 == 0) && (Differs(raws[n]) ==> RawFencedBefore(raws, n))
    {
      InStepExactly(raws, n);
      MarkersDifferExactly(raws[n]);
    }
  }
}
