/** Splitting a planning document at its fences (crates/aep-backend-markdown/src/document.rs:99-185). */
module DocumentFences {
  import opened Wrappers
  import opened Texts

  const FENCE := "---"

  /** Where the line starting at `offset` ends, its line feed included. */
  function LineEnd(text: string, offset: nat): (end: nat)
    requires offset < |text|
    ensures offset < end <= |text|
    ensures forall i :: offset <= i < end - 1 ==> text[i] != '\n'
    ensures end < |text| ==> text[end - 1] == '\n'
  {
    match FindChar(text, '\n', offset)
    case None => |text|
    case Some(at) => at + 1
  }

  function TrimLineEnd(line: string): string {
    if line != [] && (line[|line| - 1] == '\n' || line[|line| - 1] == '\r') then TrimLineEnd(line[..|line| - 1]) else line
  }

  predicate IsFence(line: string) { TrimLineEnd(line) == FENCE }

  /** Where the first fence line at or after `offset` starts, of the lines from there on. */
  function FirstFence(text: string, offset: nat): (found: Option<nat>)
    requires offset <= |text|
    ensures found.Some? ==> offset <= found.value < |text|
    decreases |text| - offset
  {
    if offset == |text| then None
    else if IsFence(text[offset..LineEnd(text, offset)]) then Some(offset)
    else FirstFence(text, LineEnd(text, offset))
  }

  function WithoutOpening(text: string): Option<string> {
    if "---\n" <= text then Some(text[4..])
    else if "---\r\n" <= text then Some(text[5..])
    else None
  }

  /** The frontmatter block and the body, or nothing when the text does not open with a fence or never
      closes one. */
  function SplitFences(text: string): Option<(string, string)> {
    match WithoutOpening(text)
    case None => None
    case Some(rest) =>
      match FirstFence(rest, 0)
      case None => None
      case Some(at) => Some((rest[..at], rest[LineEnd(rest, at)..]))
  }

  method SplitFencesInPlace(text: string) returns (parts: Option<(string, string)>)
    ensures parts == SplitFences(text)
  {
    hide IsFence;
    var unfenced := WithoutOpening(text);
    if unfenced.None? { return None; }
    var rest, offset := unfenced.value, 0;
    while offset < |rest|
      invariant 0 <= offset <= |rest|
      invariant FirstFence(rest, 0) == FirstFence(rest, offset)
    {
      var end := LineEnd(rest, offset);
      if IsFence(rest[offset..end]) { return Some((rest[..offset], rest[end..])); }
      offset := end;
    }
    return None;
  }

  function Render(block: string, body: string): string { FENCE + "\n" + (block + (FENCE + "\n" + body)) }

  /** The block ends its last line, and no line of it is a fence. */
  ghost predicate Fenceable(block: string) {
    (block != [] ==> block[|block| - 1] == '\n') && FirstFence(block, 0).None?
  }

  /** Lines wholly before `n` are the same lines in a longer text. */
  lemma SameLine(text: string, n: nat, offset: nat)
    requires offset < n <= |text| && text[n - 1] == '\n'
    ensures LineEnd(text[..n], offset) == LineEnd(text, offset) <= n
    ensures text[..n][offset..LineEnd(text, offset)] == text[offset..LineEnd(text, offset)]
  {
    var found := FindChar(text, '\n', offset);
    assert found.Some? && found.value < n;
    assert FindChar(text[..n], '\n', offset) == found;
  }

  lemma {:induction false} FencesBefore(text: string, n: nat, offset: nat)
    requires offset <= n <= |text| && (n > 0 ==> text[n - 1] == '\n')
    ensures FirstFence(text[..n], offset).Some? ==> FirstFence(text, offset) == FirstFence(text[..n], offset)
    ensures FirstFence(text[..n], offset).None? ==> FirstFence(text, offset) == FirstFence(text, n)
    decreases n - offset
  {
    hide IsFence, LineEnd;
    if offset < n {
      SameLine(text, n, offset);
      FencesBefore(text, n, LineEnd(text, offset));
    }
  }

  lemma FenceLine(text: string, at: nat, body: string)
    requires at <= |text| && text[at..] == FENCE + "\n" + body
    ensures FirstFence(text, at) == Some(at) && LineEnd(text, at) == at + 4
  {
    var tail := text[at..];
    assert tail[..4] == "---\n" && |tail| == 4 + |body|;
    var opening := "---\n";
    assert forall i :: 0 <= i < 4 ==> text[at + i] == tail[i] == tail[..4][i] == opening[i];
    assert text[at] == text[at + 1] == text[at + 2] == '-' && text[at + 3] == '\n' by {
      assert text[at] == opening[0] && text[at + 1] == opening[1] && text[at + 2] == opening[2] && text[at + 3] == opening[3];
    }
    assert FindChar(text, '\n', at) == Some(at + 3);
    var line := text[at..at + 4];
    assert line == tail[..4];
    assert line[..3] == FENCE;
    assert TrimLineEnd(line) == TrimLineEnd(FENCE) == FENCE;
  }

  /** A fence found in front of the end of the block, or past a block whose last line runs on into what
      follows, splits the text elsewhere. */
  lemma FoundStartsALine(text: string, offset: nat, at: nat)
    requires offset <= |text| && FirstFence(text, offset) == Some(at) && (offset > 0 ==> text[offset - 1] == '\n')
    ensures at < |text| && (at > 0 ==> text[at - 1] == '\n')
    decreases |text| - offset
  {
    hide IsFence;
    if at != offset { FoundStartsALine(text, LineEnd(text, offset), at); }
  }

  lemma RenderOpens(block: string, body: string)
    ensures WithoutOpening(Render(block, body)) == Some(block + (FENCE + "\n" + body))
  {
    var text := Render(block, body);
    assert text[..4] == "---\n" && text[4..] == block + (FENCE + "\n" + body);
  }

  /** Splitting gives back the block and the body, byte for byte and whatever the body holds, exactly when
      the block ends its last line and no line of it is a fence. */
  lemma SplitInvertsRenderExactly(block: string, body: string)
    ensures SplitFences(Render(block, body)) == Some((block, body)) <==> Fenceable(block)
  {
    hide IsFence, LineEnd, FirstFence, Render, WithoutOpening;
    RenderOpens(block, body);
    var rest, n := block + (FENCE + "\n" + body), |block|;
    assert rest[..n] == block && rest[n..] == FENCE + "\n" + body;
    FenceLine(rest, n, body);
    assert rest[n + 4..] == body;
    if block == [] || block[n - 1] == '\n' {
      assert n > 0 ==> rest[n - 1] == block[n - 1];
      FencesBefore(rest, n, 0);
      FirstOfNothing();
    } else if FirstFence(rest, 0).Some? {
      FoundStartsALine(rest, 0, FirstFence(rest, 0).value);
      assert rest[n - 1] == block[n - 1];
      assert |rest[..FirstFence(rest, 0).value]| == FirstFence(rest, 0).value;
    }
  }

  lemma FirstOfNothing()
    ensures FirstFence([], 0).None?
  {
  }

  // ------------------------------------------------------------------ what is split, whatever the text

  /** One line of a text, its line feed included. */
  ghost predicate LineOf(text: string, start: nat, end: nat) {
    && start < end <= |text| && (start == 0 || text[start - 1] == '\n')
    && (forall i :: start <= i < end - 1 ==> text[i] != '\n') && (end == |text| || text[end - 1] == '\n')
  }

  /** Three hyphens, and after them only carriage returns and the end of the line. */
  ghost predicate IsFenceLine(line: string) {
    exists turns: string, feed: string ::
      line == "---" + turns + feed && feed in {"", "\n"} && forall i :: 0 <= i < |turns| ==> turns[i] == '\r'
  }

  lemma {:induction false} TrimmedLine(line: string) returns (rest: string)
    ensures line == TrimLineEnd(line) + rest
    ensures forall i :: 0 <= i < |rest| ==> rest[i] == '\r' || rest[i] == '\n'
  {
    rest := [];
    if line != [] && (line[|line| - 1] == '\n' || line[|line| - 1] == '\r') {
      rest := TrimmedLine(line[..|line| - 1]);
      rest := rest + [line[|line| - 1]];
    }
  }

  lemma {:induction false} TrimsTo(kept: string, rest: string)
    requires forall i :: 0 <= i < |rest| ==> rest[i] == '\r' || rest[i] == '\n'
    requires kept != [] && kept[|kept| - 1] != '\r' && kept[|kept| - 1] != '\n'
    ensures TrimLineEnd(kept + rest) == kept
  {
    if rest == [] {
      assert kept + rest == kept;
    } else {
      TrimsTo(kept, rest[..|rest| - 1]);
      assert (kept + rest)[..|kept + rest| - 1] == kept + rest[..|rest| - 1];
    }
  }

  /** The trimming test takes for fences exactly the fence lines. */
  lemma FenceIsLine(line: string)
    requires forall i :: 0 <= i < |line| - 1 ==> line[i] != '\n'
    ensures IsFence(line) <==> IsFenceLine(line)
  {
    hide TrimLineEnd;
    if IsFence(line) {
      var rest := TrimmedLine(line);
      assert line == "---" + rest;
      if rest != [] && rest[|rest| - 1] == '\n' {
        var turns := rest[..|rest| - 1];
        forall i | 0 <= i < |turns| ensures turns[i] == '\r' { assert line[3 + i] == turns[i]; }
        assert line == "---" + turns + "\n";
      } else {
        forall i | 0 <= i < |rest| ensures rest[i] == '\r' { assert line[3 + i] == rest[i]; }
        assert line == "---" + rest + "";
      }
    }
    if IsFenceLine(line) {
      var turns: string, feed: string :|
        line == "---" + turns + feed && feed in {"", "\n"} && forall i :: 0 <= i < |turns| ==> turns[i] == '\r';
      assert line == "---" + (turns + feed);
      TrimsTo("---", turns + feed);
    }
  }

  /** The line that starts at a line start ends where the next one starts, and no line starts between. */
  lemma NextLine(text: string, offset: nat)
    requires offset < |text| && (offset == 0 || text[offset - 1] == '\n')
    ensures LineOf(text, offset, LineEnd(text, offset))
    ensures forall p: nat, q: nat :: LineOf(text, p, q) && p >= offset ==>
              (p == offset && q == LineEnd(text, offset)) || p >= LineEnd(text, offset)
  {
    hide LineEnd;
    var end := LineEnd(text, offset);
    forall p: nat, q: nat | LineOf(text, p, q) && p >= offset ensures (p == offset && q == end) || p >= end {
      assert p > offset ==> text[p - 1] == '\n';
      assert p == offset ==> !(q < end) && !(end < q);
    }
  }

  /** The first fence is a line that is one, and no line before it is. */
  lemma {:induction false} FirstFenceExactly(text: string, offset: nat)
    requires offset <= |text| && (offset == 0 || text[offset - 1] == '\n' || offset == |text|)
    ensures forall p: nat, q: nat :: LineOf(text, p, q) && offset <= p && (FirstFence(text, offset).Some? ==> p < FirstFence(text, offset).value) ==>
              !IsFenceLine(text[p..q])
    ensures FirstFence(text, offset).Some? ==>
              var at := FirstFence(text, offset).value; LineOf(text, at, LineEnd(text, at)) && IsFenceLine(text[at..LineEnd(text, at)])
    decreases |text| - offset
  {
    hide LineEnd, IsFence, IsFenceLine;
    if offset < |text| {
      var end := LineEnd(text, offset);
      NextLine(text, offset);
      FenceIsLine(text[offset..end]);
      if !IsFence(text[offset..end]) { FirstFenceExactly(text, end); }
    }
  }

  /** A block that ends its last line and holds no fence line. */
  ghost predicate FenceFree(block: string) {
    && (block != [] ==> block[|block| - 1] == '\n')
    && forall p: nat, q: nat :: LineOf(block, p, q) ==> !IsFenceLine(block[p..q])
  }

  /** A text is an opening fence, a block, a closing fence line, and what comes after it. */
  ghost predicate Fenced(text: string, opening: string, block: string, fence: string, body: string) {
    && text == opening + block + fence + body && opening in {"---\n", "---\r\n"} && FenceFree(block)
    && IsFenceLine(fence) && (fence[|fence| - 1] == '\n' || body == [])
  }

  lemma FenceLineShape(fence: string)
    requires IsFenceLine(fence)
    ensures |fence| >= 3 && forall i :: 0 <= i < |fence| - 1 ==> fence[i] != '\n'
  {
  }

  lemma OpeningIsTaken(text: string, opening: string, rest: string)
    requires text == opening + rest && opening in {"---\n", "---\r\n"}
    ensures WithoutOpening(text) == Some(rest)
  {
    if opening == "---\n" {
      assert text[..4] == opening && text[4..] == rest;
    } else {
      assert text[..5] == opening && text[5..] == rest && text[3] == '\r';
    }
  }

  lemma OpeningOf(text: string) returns (opening: string)
    requires WithoutOpening(text).Some?
    ensures text == opening + WithoutOpening(text).value && opening in {"---\n", "---\r\n"}
  {
    opening := if "---\n" <= text then "---\n" else "---\r\n";
    assert text[..|opening|] == opening;
  }

  lemma {:induction false} FirstFenceIsAt(block: string, fence: string, body: string)
    requires FenceFree(block) && IsFenceLine(fence) && (fence[|fence| - 1] == '\n' || body == [])
    ensures var rest := block + fence + body;
            FirstFence(rest, 0) == Some(|block|) && LineEnd(rest, |block|) == |block| + |fence|
  {
    hide FirstFence, IsFenceLine, LineEnd;
    var rest, at := block + fence + body, |block|;
    assert rest == block + (fence + body);
    FenceLineShape(fence);
    assert rest[at..at + |fence|] == fence;
    forall i | at <= i < at + |fence| - 1 ensures rest[i] != '\n' { assert rest[i] == fence[i - at]; }
    assert rest[at + |fence| - 1] == fence[|fence| - 1];
    assert LineOf(rest, at, at + |fence|);
    NextLine(rest, at);
    FirstFenceExactly(rest, 0);
    var found := FirstFence(rest, 0).value;
    var end := LineEnd(rest, found);
    if found < at { LineInBlock(block, fence + body, found, end); }
  }

  /** A line of a text that starts in a part of it that ends with a line feed is a line of that part. */
  lemma LineInBlock(block: string, tail: string, start: nat, end: nat)
    requires block != [] && block[|block| - 1] == '\n' && start < |block| && LineOf(block + tail, start, end)
    ensures LineOf(block, start, end) && block[start..end] == (block + tail)[start..end]
  {
    var text := block + tail;
    assert text[|block| - 1] == '\n';
    assert forall i :: 0 <= i < |block| ==> text[i] == block[i];
    assert end <= |block|;
  }

  /** A text is split into a block and a body exactly when it is, in one way or the other of ending a line, an
      opening fence, the block, a closing fence line, and the body. */
  lemma SplitExactly(text: string, block: string, body: string)
    ensures SplitFences(text) == Some((block, body)) <==>
            exists opening: string, fence: string :: Fenced(text, opening, block, fence, body)
  {
    hide FirstFence, IsFenceLine, LineEnd, FenceFree, WithoutOpening;
    if SplitFences(text) == Some((block, body)) {
      var rest := WithoutOpening(text).value;
      var at := FirstFence(rest, 0).value;
      var opening := OpeningOf(text);
      FirstFenceExactly(rest, 0);
      BlockIsFenceFree(rest, at);
      var fence := rest[at..LineEnd(rest, at)];
      assert text == opening + block + fence + body;
      FenceLineShape(fence);
      assert Fenced(text, opening, block, fence, body);
    }
    if opening: string, fence: string :| Fenced(text, opening, block, fence, body) {
      var rest := block + fence + body;
      assert text == opening + rest;
      OpeningIsTaken(text, opening, rest);
      FirstFenceIsAt(block, fence, body);
      assert rest[..|block|] == block && rest[|block| + |fence|..] == body;
    }
  }

  lemma BlockIsFenceFree(rest: string, at: nat)
    requires at < |rest| && FirstFence(rest, 0) == Some(at)
    ensures FenceFree(rest[..at])
  {
    hide FirstFence, IsFenceLine, LineEnd;
    FirstFenceExactly(rest, 0);
    var block := rest[..at];
    if at > 0 { assert block[at - 1] == rest[at - 1]; }
    forall p: nat, q: nat | LineOf(block, p, q) ensures !IsFenceLine(block[p..q]) {
      assert block[p..q] == rest[p..q];
      assert LineOf(rest, p, q);
    }
  }
}
