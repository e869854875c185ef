/** Decimal printing and reading, as `{}` and `{:0w}` print and `str::parse::<u64>` reads. */
module Decimal {
  import opened Wrappers

  const U64_MAX: nat := 0xFFFF_FFFF_FFFF_FFFF

  predicate IsDigit(c: char) { '0' <= c <= '9' }

  function DigitOf(c: char): nat
    requires IsDigit(c)
  {
    c as int - '0' as int
  }

  function CharOf(d: nat): (c: char)
    requires d < 10
    ensures IsDigit(c) && DigitOf(c) == d
  {
    ('0' as int + d) as char
  }

  predicate AllDigits(s: string) {
    forall i :: 0 <= i < |s| ==> IsDigit(s[i])
  }

  /** The number a string of digits spells; the empty string spells 0. */
  function Value(s: string): nat
    requires AllDigits(s)
  {
    if s == [] then 0 else 10 * Value(s[..|s| - 1]) + DigitOf(s[|s| - 1])
  }

  /** Plain decimal, without leading zeros. */
  function Print(n: nat): (s: string)
    ensures s != [] && AllDigits(s)
  {
    if n < 10 then [CharOf(n)] else Print(n / 10) + [CharOf(n % 10)]
  }

  function Zeros(count: nat): (s: string)
    ensures |s| == count && AllDigits(s)
  {
    if count == 0 then [] else ['0'] + Zeros(count - 1)
  }

  /** Zero-padded to `width`, or longer when the number needs it. */
  function Pad(n: nat, width: nat): (s: string)
    ensures s != [] && AllDigits(s) && |s| >= width
  {
    var digits := Print(n);
    if |digits| < width then Zeros(width - |digits|) + digits else digits
  }

  lemma {:induction false} PrintSpells(n: nat)
    ensures Value(Print(n)) == n
  {
    if n < 10 {
      assert Print(n)[..0] == [];
    } else {
      PrintSpells(n / 10);
      assert Print(n)[..|Print(n)| - 1] == Print(n / 10);
    }
  }

  lemma {:induction false} LeadingZeros(count: nat, s: string)
    requires AllDigits(s)
    ensures AllDigits(Zeros(count) + s) && Value(Zeros(count) + s) == Value(s)
    decreases |s|, count
  {
    var all := Zeros(count) + s;
    if s != [] {
      LeadingZeros(count, s[..|s| - 1]);
      assert all[..|all| - 1] == Zeros(count) + s[..|s| - 1];
    } else if count > 0 {
      ZerosBack(count);
      LeadingZeros(count - 1, s);
      assert all == Zeros(count) && Zeros(count - 1) + s == Zeros(count - 1);
      assert all[..|all| - 1] == Zeros(count - 1);
    }
  }

  lemma {:induction false} ZerosBack(count: nat)
    requires count > 0
    ensures Zeros(count)[..count - 1] == Zeros(count - 1) && Zeros(count)[count - 1] == '0'
  {
    if count > 1 {
      ZerosBack(count - 1);
      assert Zeros(count)[..count - 1] == ['0'] + Zeros(count - 1)[..count - 2];
    }
  }

  /** Padding changes how a number is written and not what it is. */
  lemma PadSpells(n: nat, width: nat)
    ensures Value(Pad(n, width)) == n
  {
    hide Value, Print, Zeros;
    PrintSpells(n);
    if |Print(n)| < width { LeadingZeros(width - |Print(n)|, Print(n)); }
  }

  /** A u64 needs at most twenty digits. */
  lemma {:induction false} PrintLength(n: nat, power: nat, digits: nat)
    requires digits >= 1 && n < power && power == Power10(digits)
    ensures |Print(n)| <= digits
    decreases digits
  {
    assert Power10(1) == 10;
    if n >= 10 {
      PrintLength(n / 10, Power10(digits - 1), digits - 1);
    }
  }

  function Power10(digits: nat): nat {
    if digits == 0 then 1 else 10 * Power10(digits - 1)
  }

  /** `str::parse::<u64>`: an optional plus, at least one digit, only digits, and no overflow. */
  function ParseU64(s: string): Option<nat> {
    var digits := if s != [] && s[0] == '+' then s[1..] else s;
    if digits != [] && AllDigits(digits) && Value(digits) <= U64_MAX then Some(Value(digits)) else None
  }

  /** What was printed padded is read back as the same number, for every u64. */
  lemma PrintedIsParsed(n: nat, width: nat)
    requires n <= U64_MAX
    ensures ParseU64(Pad(n, width)) == Some(n)
  {
    PadSpells(n, width);
    assert IsDigit(Pad(n, width)[0]);
  }

  lemma {:induction false} NothingPads(width: nat)
    requires width >= 1
    ensures Pad(0, width) == Zeros(width)
  {
    ZerosBack(width);
    assert Print(0) == "0";
  }

  lemma {:induction false} NextDigit(front: string, n: nat, d: nat)
    requires n > 0 && d < 10 && Pad(n, |front|) == front
    ensures Pad(10 * n + d, |front| + 1) == front + [CharOf(d)]
  {
    hide CharOf;
    assert (10 * n + d) / 10 == n && (10 * n + d) % 10 == d;
    var digits := Print(n);
    assert Print(10 * n + d) == digits + [CharOf(d)];
    if |digits| < |front| {
      assert Zeros(|front| - |digits|) + (digits + [CharOf(d)]) == Zeros(|front| - |digits|) + digits + [CharOf(d)];
    }
  }

  lemma {:induction false} FirstDigit(front: string, d: nat)
    requires d < 10 && front == Zeros(|front|)
    ensures Pad(d, |front| + 1) == front + [CharOf(d)]
  {
    hide CharOf, Zeros;
    var digits := Print(d);
    assert digits == [CharOf(d)];
    if front == [] {
      assert front + digits == digits;
    } else {
      assert |front| + 1 - |digits| == |front|;
    }
  }

  /** Digits read and printed to the width they had are the same digits. */
  lemma {:induction false} ReadAndPadded(s: string)
    requires s != [] && AllDigits(s)
    ensures Pad(Value(s), |s|) == s
  {
    hide Pad, Print;
    var front, last := s[..|s| - 1], s[|s| - 1];
    assert CharOf(DigitOf(last)) == last && s == front + [last];
    if front == [] {
      FirstDigit(front, DigitOf(last));
    } else {
      ReadAndPadded(front);
      if Value(front) == 0 {
        NothingPads(|front|);
        FirstDigit(front, DigitOf(last));
      } else {
        NextDigit(front, Value(front), DigitOf(last));
      }
    }
  }
}
