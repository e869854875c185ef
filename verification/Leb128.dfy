/** Unsigned LEB128 numbers as the task runner reads them out of a WebAssembly module
    (xtask/src/main.rs:1949-1966), against the encoding of section 5.2.2 of the WebAssembly Core
    Specification. A machine word is 64 bits wide. */
module Leb128 {
  import opened Wrappers

  newtype Byte = b: int | 0 <= b < 256

  const WORD := 0x1_0000_0000_0000_0000

  datatype LebError = EndsInsideNumber | DoesNotFit

  function Power128(n: nat): nat { if n == 0 then 1 else 128 * Power128(n - 1) }

  predicate Continues(b: Byte) { b >= 128 }

  function Low(b: Byte): nat { b as int % 128 }

  /** The number a run of bytes spells, without any bound: seven bits each, least significant first. */
  function Number(bytes: seq<Byte>): nat {
    if bytes == [] then 0
    else Number(bytes[..|bytes| - 1]) + Low(bytes[|bytes| - 1]) * Power128(|bytes| - 1)
  }

  /** The unsigned encoding of a number. */
  function Encode(n: nat): (bytes: seq<Byte>)
    ensures bytes != [] && !Continues(bytes[|bytes| - 1])
    ensures forall i :: 0 <= i < |bytes| - 1 ==> Continues(bytes[i])
  {
    if n < 128 then [n as Byte] else [(n % 128 + 128) as Byte] + Encode(n / 128)
  }

  /** How many bytes from `at` on continue. */
  function Run(bytes: seq<Byte>, at: nat): (n: nat)
    requires at <= |bytes|
    ensures at + n <= |bytes|
    ensures forall i :: at <= i < at + n ==> Continues(bytes[i])
    ensures at + n < |bytes| ==> !Continues(bytes[at + n])
    decreases |bytes| - at
  {
    if at == |bytes| || !Continues(bytes[at]) then 0 else Run(bytes, at + 1) + 1
  }

  lemma {:induction false} NumberIsBounded(bytes: seq<Byte>)
    ensures Number(bytes) < Power128(|bytes|)
  {
    if bytes != [] {
      var n := |bytes|;
      NumberIsBounded(bytes[..n - 1]);
      GroupIsSmall(Low(bytes[n - 1]), Power128(n - 1));
    }
  }

  lemma GroupIsSmall(group: nat, power: nat)
    requires group <= 127
    ensures group * power <= 127 * power
  {
  }

  lemma PowersOf128()
    ensures Power128(9) == 0x8000_0000_0000_0000 && Power128(10) == 64 * WORD
  {
    assert Power128(1) == 128 && Power128(2) == 0x4000 && Power128(3) == 0x20_0000;
    assert Power128(4) == 0x1000_0000 && Power128(5) == 0x8_0000_0000 && Power128(6) == 0x400_0000_0000;
    assert Power128(7) == 0x2_0000_0000_0000 && Power128(8) == 0x100_0000_0000_0000;
  }

  lemma {:induction false} PowersGrow(m: nat, n: nat)
    requires m <= n
    ensures 1 <= Power128(m) <= Power128(n)
    decreases n
  {
    if m < n { PowersGrow(m, n - 1); } else if m > 0 { PowersGrow(m - 1, n - 1); }
  }

  /** What reading a number from `at` on answers, and where it leaves the cursor: the number spelled, cut
      to a word, unless the bytes end first or ten of them continue. */
  function Reading(bytes: seq<Byte>, at: nat): (Result<nat, LebError>, nat)
    requires at <= |bytes|
  {
    var run := Run(bytes, at);
    if run >= 10 then (Err(DoesNotFit), at + 10)
    else if at + run == |bytes| then (Err(EndsInsideNumber), |bytes|)
    else (Ok(Number(bytes[at..at + run + 1]) % WORD), at + run + 1)
  }

  /** Reads one number and moves the cursor past what it read, within ten bytes and never beyond the end.
      Below the tenth byte no bit of the word is reached twice, so `or`-ing a group in is adding it; the
      tenth group is cut to the word. */
  method Read(bytes: seq<Byte>, at: nat) returns (answer: Result<nat, LebError>, next: nat)
    requires at <= |bytes|
    ensures (answer, next) == Reading(bytes, at)
    ensures at <= next <= |bytes| && next <= at + 10
  {
    hide Number, Power128;
    PowersOf128();
    next := at;
    var value, shift := 0, 0;
    NoBytes();
    assert bytes[at..at] == [];
    while true
      invariant at <= next <= |bytes| && next - at <= 9 && next - at <= Run(bytes, at)
      invariant shift == 7 * (next - at)
      invariant value == Number(bytes[at..next]) < WORD
      decreases |bytes| - next
    {
      if next >= |bytes| { return Err(EndsInsideNumber), next; }
      var byte := bytes[next];
      ghost var read := bytes[at..next];
      next := next + 1;
      assert bytes[at..next] == read + [byte];
      AppendByte(read, byte);
      value := (value + Low(byte) * Power128(shift / 7)) % WORD;
      if byte < 128 { return Ok(value), next; }
      shift := shift + 7;
      if shift > 63 { return Err(DoesNotFit), next; }
      NumberIsBounded(bytes[at..next]);
      PowersGrow(next - at, 9);
    }
  }

  lemma NoBytes()
    ensures Number([]) == 0
  {
  }

  lemma AppendByte(bytes: seq<Byte>, b: Byte)
    ensures Number(bytes + [b]) == Number(bytes) + Low(b) * Power128(|bytes|)
  {
    assert (bytes + [b])[..|bytes|] == bytes;
  }

  // ------------------------------------------------------------------ the encoding

  lemma {:induction false} NumberFromFront(b: Byte, rest: seq<Byte>)
    ensures Number([b] + rest) == Low(b) + 128 * Number(rest)
  {
    var all := [b] + rest;
    if rest == [] {
      assert all == [b] && all[..0] == [];
      assert Power128(0) == 1;
    } else {
      var front, last := rest[..|rest| - 1], rest[|rest| - 1];
      NumberFromFront(b, front);
      assert all[..|all| - 1] == [b] + front;
      assert Power128(|rest|) == 128 * Power128(|rest| - 1);
      Scales(Low(last), Power128(|rest| - 1));
    }
  }

  lemma Scales(x: nat, y: nat)
    ensures x * (128 * y) == 128 * (x * y)
  {
  }

  lemma {:induction false} EncodingSpells(n: nat)
    ensures Number(Encode(n)) == n
  {
    if n < 128 {
      assert [n as Byte][..0] == [];
      assert Power128(0) == 1;
    } else {
      EncodingSpells(n / 128);
      NumberFromFront((n % 128 + 128) as Byte, Encode(n / 128));
    }
  }

  lemma {:induction false} EncodingLength(n: nat, k: nat)
    requires k >= 1 && n < Power128(k)
    ensures |Encode(n)| <= k
  {
    if n >= 128 {
      assert Power128(1) == 128;
      EncodingLength(n / 128, k - 1);
    }
  }

  lemma RunIs(bytes: seq<Byte>, at: nat, n: nat)
    requires at + n < |bytes| && !Continues(bytes[at + n])
    requires forall i :: at <= i < at + n ==> Continues(bytes[i])
    ensures Run(bytes, at) == n
  {
    var m := Run(bytes, at);
    assert !(m < n) && !(n < m);
  }

  /** One number as the format spells them: bytes that continue, and one that does not. */
  predicate Spelling(bytes: seq<Byte>) {
    bytes != [] && !Continues(bytes[|bytes| - 1]) && forall i :: 0 <= i < |bytes| - 1 ==> Continues(bytes[i])
  }

  lemma SpellingStands(before: seq<Byte>, bytes: seq<Byte>, after: seq<Byte>)
    requires Spelling(bytes)
    ensures var all := before + bytes + after;
            Run(all, |before|) == |bytes| - 1 && all[|before|..|before| + |bytes|] == bytes && |before| + |bytes| <= |all|
  {
    hide Continues, Run;
    var all, n := before + bytes + after, |bytes| - 1;
    forall i | |before| <= i < |before| + n ensures Continues(all[i]) { assert all[i] == bytes[i - |before|]; }
    assert all[|before| + n] == bytes[n];
    RunIs(all, |before|, n);
  }

  /** Wherever a spelling of up to ten bytes stands, it is read to its end and cut to a word; a longer one
      is refused. */
  lemma SpellingIsRead(before: seq<Byte>, bytes: seq<Byte>, after: seq<Byte>)
    requires Spelling(bytes)
    ensures Reading(before + bytes + after, |before|) ==
            if |bytes| <= 10 then (Ok(Number(bytes) % WORD), |before| + |bytes|) else (Err(DoesNotFit), |before| + 10)
  {
    hide Number, Spelling, Run;
    SpellingStands(before, bytes, after);
  }

  /** Every number below 2^64 is read back from its encoding, wherever that stands, and the cursor moves
      past exactly the encoding. */
  lemma EncodingIsRead(before: seq<Byte>, n: nat, after: seq<Byte>)
    requires n < WORD
    ensures Reading(before + Encode(n) + after, |before|) == (Ok(n), |before| + |Encode(n)|)
    ensures |Encode(n)| <= 10
  {
    hide Number, Power128, Continues, Encode, Reading;
    PowersOf128();
    EncodingLength(n, 10);
    EncodingSpells(n);
    SpellingIsRead(before, Encode(n), after);
  }

  lemma TenthByteFits(bytes: seq<Byte>)
    requires 1 <= |bytes| <= 10 && !Continues(bytes[|bytes| - 1])
    ensures Number(bytes) % WORD == Number(bytes) <==> (|bytes| == 10 ==> bytes[9] <= 1)
  {
    PowersOf128();
    NumberIsBounded(bytes);
    var front := bytes[..|bytes| - 1];
    NumberIsBounded(front);
    if |bytes| < 10 {
      PowersGrow(|bytes|, 9);
    } else {
      assert Number(bytes) == Number(front) + Low(bytes[9]) * Power128(9);
    }
  }

  /** What is read is the number that is spelled exactly when there are at most ten bytes and a tenth, if
      there is one, is 0 or 1: any other tenth byte loses its upper bits without an error. */
  lemma TenthByteExactly(before: seq<Byte>, bytes: seq<Byte>, after: seq<Byte>)
    requires Spelling(bytes)
    ensures Reading(before + bytes + after, |before|) == (Ok(Number(bytes)), |before| + |bytes|) <==>
            |bytes| <= 10 && (|bytes| == 10 ==> bytes[9] <= 1)
  {
    hide Number, Reading;
    SpellingIsRead(before, bytes, after);
    if |bytes| <= 10 { TenthByteFits(bytes); }
  }

  /** It can fail: nine bytes without bits and a tenth of two spell 2^64, and are read as nothing. */
  lemma TenthByteIsCut()
    ensures var bytes: seq<Byte> := [128, 128, 128, 128, 128, 128, 128, 128, 128, 2];
            Spelling(bytes) && Number(bytes) == WORD && Reading(bytes, 0) == (Ok(0), 10)
  {
    hide Number, Reading;
    var bytes: seq<Byte> := [128, 128, 128, 128, 128, 128, 128, 128, 128, 2];
    PowersOf128();
    NoBits(bytes[..9]);
    AppendByte(bytes[..9], 2);
    assert bytes == bytes[..9] + [2];
    SpellingIsRead([], bytes, []);
    assert [] + bytes + [] == bytes;
  }

  lemma {:induction false} NoBits(bytes: seq<Byte>)
    requires forall i :: 0 <= i < |bytes| ==> bytes[i] == 128
    ensures Number(bytes) == 0
  {
    if bytes != [] { NoBits(bytes[..|bytes| - 1]); }
  }

  /** Numbers end with their bytes exactly when those run out while every one continues, within ten, and do
      not fit exactly when ten continue. */
  lemma RefusedExactly(bytes: seq<Byte>, at: nat)
    requires at <= |bytes|
    ensures Reading(bytes, at).0 == Err(EndsInsideNumber) <==>
            |bytes| - at < 10 && forall i :: at <= i < |bytes| ==> bytes[i] >= 128
    ensures Reading(bytes, at).0 == Err(DoesNotFit) <==> |bytes| - at >= 10 && forall i :: at <= i < at + 10 ==> bytes[i] >= 128
    ensures Reading(bytes, at).0 == Err(EndsInsideNumber) ==> Reading(bytes, at).1 == |bytes|
    ensures Reading(bytes, at).0 == Err(DoesNotFit) ==> Reading(bytes, at).1 == at + 10
  {
    hide Number, Run;
    var run := Run(bytes, at);
    if forall i :: at <= i < |bytes| ==> bytes[i] >= 128 { assert at + run == |bytes|; }
    if |bytes| - at >= 10 && forall i :: at <= i < at + 10 ==> bytes[i] >= 128 { assert run >= 10; }
  }

  /** The example of the format: 624485 is three bytes. */
  lemma EncodingExample()
    ensures Encode(624485) == [0xE5, 0x8E, 0x26]
  {
    assert 624485 % 128 == 101 && 624485 / 128 == 4878 && 4878 % 128 == 14 && 4878 / 128 == 38;
    assert Encode(38) == [38];
    assert Encode(4878) == [142] + Encode(38);
    assert Encode(624485) == [229] + Encode(4878);
  }
}
