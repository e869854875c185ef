/** The string operations the scanner is written in, as functions of character sequences. */
module Texts {
  import opened Wrappers

  /** `char::is_whitespace`. */
  predicate IsWhite(c: char) {
    var code := c as int;
    || 0x09 <= code <= 0x0D || code == 0x20 || code == 0x85 || code == 0xA0 || code == 0x1680
    || 0x2000 <= code <= 0x200A || code == 0x2028 || code == 0x2029 || code == 0x202F || code == 0x205F || code == 0x3000
  }

  predicate IsAsciiWhite(c: char) { c == ' ' || c == '\t' || c == '\n' || c == '\r' || c as int == 0x0C }

  predicate IsBlank(c: char) { c == ' ' || c == '\t' }

  function TrimStart(s: string): string {
    if s != [] && IsWhite(s[0]) then TrimStart(s[1..]) else s
  }

  function TrimEnd(s: string): string {
    if s != [] && IsWhite(s[|s| - 1]) then TrimEnd(s[..|s| - 1]) else s
  }

  function Trim(s: string): string { TrimEnd(TrimStart(s)) }

  /** How much whitespace a text starts with. */
  function LeadingWhite(s: string): (n: nat)
    ensures n <= |s| && TrimStart(s) == s[n..]
    ensures forall i :: 0 <= i < n ==> IsWhite(s[i])
    ensures n < |s| ==> !IsWhite(s[n])
  {
    if s != [] && IsWhite(s[0]) then LeadingWhite(s[1..]) + 1 else 0
  }

  // ------------------------------------------------------------------ occurrences

  /** `key` is written in `text` from `p` on. */
  predicate At(text: string, key: string, p: nat) {
    p + |key| <= |text| && text[p..p + |key|] == key
  }

  /** Where `key` first occurs at or after `from`. */
  function FindFrom(text: string, key: string, from: nat): (found: Option<nat>)
    requires from <= |text|
    ensures found.Some? ==> from <= found.value && At(text, key, found.value)
    ensures forall p :: from <= p && (found.Some? ==> p < found.value) ==> !At(text, key, p)
    decreases |text| - from
  {
    if At(text, key, from) then Some(from)
    else if from == |text| then None
    else FindFrom(text, key, from + 1)
  }

  function FindChar(text: string, c: char, from: nat): (found: Option<nat>)
    requires from <= |text|
    ensures found.Some? ==> from <= found.value < |text| && text[found.value] == c
    ensures forall p :: from <= p < (if found.Some? then found.value else |text|) ==> text[p] != c
    decreases |text| - from
  {
    if from == |text| then None else if text[from] == c then Some(from) else FindChar(text, c, from + 1)
  }

  predicate StartsWith(text: string, key: string) { At(text, key, 0) }

  // ------------------------------------------------------------------ lines

  /** `str::lines`: pieces between line feeds, without a trailing empty one, and without the carriage
      return before a line feed. */
  function Lines(text: string): seq<string>
    decreases |text|
  {
    if text == [] then []
    else
      match FindChar(text, '\n', 0)
      case None => [text]
      case Some(at) => [WithoutReturn(text[..at])] + Lines(text[at + 1..])
  }

  function WithoutReturn(line: string): string {
    if line != [] && line[|line| - 1] == '\r' then line[..|line| - 1] else line
  }

  function Joined(parts: seq<string>, separator: string): string {
    if parts == [] then [] else if |parts| == 1 then parts[0]
    else Joined(parts[..|parts| - 1], separator) + separator + parts[|parts| - 1]
  }

  // ------------------------------------------------------------------ collapsed whitespace

  /** Every run of whitespace inside as one space, and none at either end. */
  function Collapse(text: string): string {
    if text == [] then []
    else
      var front, c := text[..|text| - 1], text[|text| - 1];
      if IsWhite(c) then Collapse(front)
      else if front != [] && IsWhite(front[|front| - 1]) && Collapse(front) != [] then Collapse(front) + [' ', c]
      else Collapse(front) + [c]
  }

  lemma {:induction false} CollapsedShape(text: string)
    ensures var c := Collapse(text); c != [] ==> !IsWhite(c[0]) && !IsWhite(c[|c| - 1])
    ensures forall i :: 0 <= i < |Collapse(text)| && IsWhite(Collapse(text)[i]) ==> Collapse(text)[i] == ' '
    ensures |Collapse(text)| <= |text|
    ensures |Collapse(text)| == |text| > 0 ==> !IsWhite(text[|text| - 1])
  {
    hide IsWhite;
    if text != [] {
      var front := text[..|text| - 1];
      CollapsedShape(front);
      if front != [] && IsWhite(front[|front| - 1]) { assert |Collapse(front)| < |front|; }
    }
  }

  /** What collapses is already collapsed: collapsing twice is collapsing once. */
  lemma {:induction false} CollapseIsIdempotent(text: string)
    ensures Collapse(Collapse(text)) == Collapse(text)
  {
    hide IsWhite;
    if text != [] {
      var front, c := text[..|text| - 1], text[|text| - 1];
      var kept := Collapse(front);
      CollapseIsIdempotent(front);
      CollapsedShape(front);
      if !IsWhite(c) {
        if front != [] && IsWhite(front[|front| - 1]) && kept != [] {
          CollapseAfterSpace(kept, c);
          assert Collapse(text) == kept + [' ', c];
        } else {
          CollapseAfter(kept, c);
          assert Collapse(text) == kept + [c];
        }
      }
    }
  }

  lemma CollapseAfter(kept: string, c: char)
    requires Collapse(kept) == kept && !IsWhite(c) && (kept != [] ==> !IsWhite(kept[|kept| - 1]))
    ensures Collapse(kept + [c]) == kept + [c]
  {
    hide IsWhite;
    assert (kept + [c])[..|kept|] == kept;
  }

  lemma CollapseAfterSpace(kept: string, c: char)
    requires Collapse(kept) == kept != [] && !IsWhite(c)
    ensures Collapse(kept + [' ', c]) == kept + [' ', c]
  {
    var all := kept + [' ', c];
    assert all[..|all| - 1] == kept + [' '];
    assert (kept + [' '])[..|kept|] == kept;
  }
}
