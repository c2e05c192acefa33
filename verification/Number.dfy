/** printnum and strtol: numbers to text and back. */
module Number {
  import opened Arithmetic
  import opened Sequences

  // ---------------------------------------------------------------- printing

  function DigitChar(d: nat): char
    requires d < 16
  {
    "0123456789abcdef"[d]
  }

  /** The number in the given base, most significant digit first. */
  function Digits(num: nat, base: nat): (s: string)
    requires 2 <= base <= 16
    ensures |s| >= 1
    decreases num
  {
    (if num >= base then
       DivSmaller(num, base);
       Digits(num / base, base)
     else "") + [DigitChar(num % base)]
  }

  /** The digits, filled up on the left to the width. */
  function Printed(num: nat, base: nat, width: int, padc: char): string
    requires 2 <= base <= 16
  {
    Repeat(padc, width - |Digits(num, base)|) + Digits(num, base)
  }

  /** Where putch sends its characters. */
  class Console {
    var text: string

    constructor ()
      ensures text == ""
    {
      text := "";
    }

    method PutCh(c: char)
      modifies this
      ensures text == old(text) + [c]
    {
      text := text + [c];
    }
  }

  method PrintNum(out: Console, num: nat, base: nat, width: int, padc: char)
    requires 2 <= base <= 16
    modifies out
    ensures out.text == old(out.text) + Printed(num, base, width, padc)
    decreases num
  {
    ghost var before := out.text;
    if num >= base {
      DivSmaller(num, base);
      PrintNum(out, num / base, base, width - 1, padc);
      assert |Digits(num, base)| == |Digits(num / base, base)| + 1;
      assert before + Printed(num / base, base, width - 1, padc) + [DigitChar(num % base)] ==
             before + (Printed(num / base, base, width - 1, padc) + [DigitChar(num % base)]);
    } else {
      var left := width - 1;
      while left > 0
        invariant out.text == before + Repeat(padc, width - 1 - left) && (left >= 0 || left == width - 1)
        decreases left
      {
        out.PutCh(padc);
        left := left - 1;
        assert Repeat(padc, width - 1 - left) == Repeat(padc, width - 2 - left) + [padc];
      }
    }
    out.PutCh(DigitChar(num % base));
  }

  // ---------------------------------------------------------------- reading

  /** The character at `i`, NUL at the end. */
  function At(s: string, i: nat): char { if i < |s| then s[i] else '\0' }

  /** The value of a digit or letter, -1 for anything else. */
  function DigitOf(c: char): int {
    if '0' <= c <= '9' then c as int - '0' as int
    else if 'a' <= c <= 'z' then c as int - 'a' as int + 10
    else if 'A' <= c <= 'Z' then c as int - 'A' as int + 10
    else -1
  }

  predicate IsDigit(c: char, base: int) { 0 <= DigitOf(c) < base }

  function SkipBlanks(s: string, i: nat): (k: nat)
    ensures k >= i && (k > i ==> k <= |s|)
    decreases |s| - i
  {
    if i < |s| && (s[i] == ' ' || s[i] == '\t') then SkipBlanks(s, i + 1) else i
  }

  /** Where the digits start, and in which base. */
  function AfterPrefix(s: string, i: nat, base: int): (nat, int) {
    if (base == 0 || base == 16) && At(s, i) == '0' && At(s, i + 1) == 'x' then (i + 2, 16)
    else if base == 0 && At(s, i) == '0' then (i + 1, 8)
    else if base == 0 then (i, 10)
    else (i, base)
  }

  /** The value of the digits from `i` on after `val`, and where they end. */
  function ReadDigits(s: string, i: nat, base: int, val: int): (int, nat)
    decreases |s| - i
  {
    if i < |s| && IsDigit(s[i], base) then ReadDigits(s, i + 1, base, val * base + DigitOf(s[i])) else (val, i)
  }

  /** strtol over unbounded integers: the value and the end pointer. */
  function Strtol(s: string, base: int): (int, nat) {
    var i := SkipBlanks(s, 0);
    var neg := At(s, i) == '-';
    var j := if At(s, i) == '+' || neg then i + 1 else i;
    var (k, b) := AfterPrefix(s, j, base);
    var (val, end) := ReadDigits(s, k, b, 0);
    (if neg then -val else val, end)
  }

  lemma SkipStep(s: string, i: nat)
    ensures SkipBlanks(s, i) == if At(s, i) == ' ' || At(s, i) == '\t' then SkipBlanks(s, i + 1) else i
  {
  }

  lemma ReadStep(s: string, i: nat, base: int, val: int)
    ensures var d := DigitOf(At(s, i));
            ReadDigits(s, i, base, val) ==
            if d < 0 || d >= base then (val, i) else ReadDigits(s, i + 1, base, val * base + d)
    ensures DigitOf('\0') < 0
  {
  }

  method StrtolLoop(s: string, base: int) returns (result: int, end: nat)
    ensures (result, end) == Strtol(s, base)
  {
    hide ReadDigits, SkipBlanks, DigitOf;
    var p: nat := 0;
    var neg, val, b := false, 0, base;
    while At(s, p) == ' ' || At(s, p) == '\t'
      invariant SkipBlanks(s, p) == SkipBlanks(s, 0)
      decreases |s| - p
    {
      SkipStep(s, p);
      p := p + 1;
    }
    SkipStep(s, p);
    if At(s, p) == '+' {
      p := p + 1;
    } else if At(s, p) == '-' {
      p, neg := p + 1, true;
    }
    if (b == 0 || b == 16) && At(s, p) == '0' && At(s, p + 1) == 'x' {
      p, b := p + 2, 16;
    } else if b == 0 && At(s, p) == '0' {
      p, b := p + 1, 8;
    } else if b == 0 {
      b := 10;
    }
    ghost var start := p;
    while true
      invariant ReadDigits(s, p, b, val) == ReadDigits(s, start, b, 0)
      decreases |s| - p
    {
      ReadStep(s, p, b, val);
      var dig := DigitOf(At(s, p));
      if dig < 0 { break; }
      if dig >= b { break; }
      p, val := p + 1, val * b + dig;
    }
    return if neg then -val else val, p;
  }

  // ---------------------------------------------------------------- there and back

  lemma DigitBack(d: nat)
    requires d < 16
    ensures DigitOf(DigitChar(d)) == d
  {
  }

  /** Reading runs of digits one after the other. */
  lemma {:induction false} ReadAppend(s: string, i: nat, m: nat, base: int, val: int)
    requires i <= m <= |s| && forall k :: i <= k < m ==> IsDigit(s[k], base)
    ensures ReadDigits(s, i, base, val) == ReadDigits(s, m, base, ReadDigits(s[..m], i, base, val).0)
    decreases m - i
  {
    if i < m {
      ReadAppend(s, i + 1, m, base, val * base + DigitOf(s[i]));
    }
  }

  predicate AllDigits(s: string, base: int) { forall k :: 0 <= k < |s| ==> IsDigit(s[k], base) }

  /** One more digit at the end. */
  lemma ReadLast(init: string, c: char, base: int, val: int)
    requires AllDigits(init, base) && ReadDigits(init, 0, base, 0) == (val, |init|) && IsDigit(c, base)
    ensures AllDigits(init + [c], base)
    ensures ReadDigits(init + [c], 0, base, 0) == (val * base + DigitOf(c), |init| + 1)
  {
    var s := init + [c];
    assert s[..|init|] == init;
    ReadAppend(s, 0, |init|, base, 0);
    assert ReadDigits(s, |init| + 1, base, val * base + DigitOf(c)) == (val * base + DigitOf(c), |init| + 1);
  }

  lemma ReadNone(base: int)
    ensures ReadDigits("", 0, base, 0) == (0, 0) && AllDigits("", base)
  {
  }

  /** The last digit and the number before it. */
  lemma DigitsSplit(num: nat, base: nat) returns (q: nat, r: nat)
    requires 2 <= base <= 16
    ensures r < base && num == q * base + r && (if num >= base then q < num else q == 0)
    ensures Digits(num, base) == (if num >= base then Digits(q, base) else "") + [DigitChar(r)]
  {
    q, r := num / base, num % base;
    if num >= base {
      DivSmaller(num, base);
    } else {
      ModUnique(num, base, 0, num);
    }
  }

  /** The digits of a number read as that number. */
  lemma {:induction false} DigitsBack(num: nat, base: nat)
    requires 2 <= base <= 16
    ensures AllDigits(Digits(num, base), base)
    ensures ReadDigits(Digits(num, base), 0, base, 0) == (num, |Digits(num, base)|)
    decreases num
  {
    hide Digits, ReadDigits, DigitChar, DigitOf, AllDigits;
    var q, r := DigitsSplit(num, base);
    DigitBack(r);
    if num >= base {
      DigitsBack(q, base);
      ReadLast(Digits(q, base), DigitChar(r), base, q);
    } else {
      ReadNone(base);
      ReadLast("", DigitChar(r), base, 0);
    }
  }

  /** Zeros in front do not change the value. */
  lemma {:induction false} ZerosInFront(n: int, s: string, base: int)
    requires base >= 2
    ensures ReadDigits(Repeat('0', n) + s, 0, base, 0).0 == ReadDigits(s, 0, base, 0).0
    ensures ReadDigits(Repeat('0', n) + s, 0, base, 0).1 == |Repeat('0', n)| + ReadDigits(s, 0, base, 0).1
  {
    var z := Repeat('0', n);
    ZerosRead(z + s, 0, |z|, base);
    ReadShift(z, s, 0, base, 0);
  }

  lemma {:induction false} ZerosRead(s: string, i: nat, m: nat, base: int)
    requires base >= 2 && i <= m <= |s| && forall k :: i <= k < m ==> s[k] == '0'
    ensures ReadDigits(s, i, base, 0) == ReadDigits(s, m, base, 0)
    decreases m - i
  {
    if i < m { ZerosRead(s, i + 1, m, base); }
  }

  /** Text in front of the place where reading starts does not matter. */
  lemma {:induction false} ReadShift(a: string, s: string, i: nat, base: int, val: int)
    requires i <= |s|
    ensures ReadDigits(a + s, |a| + i, base, val).0 == ReadDigits(s, i, base, val).0
    ensures ReadDigits(a + s, |a| + i, base, val).1 == |a| + ReadDigits(s, i, base, val).1
    decreases |s| - i
  {
    if i < |s| && IsDigit(s[i], base) {
      ReadShift(a, s, i + 1, base, val * base + DigitOf(s[i]));
    }
  }

  lemma {:induction false} SkipRun(s: string, i: nat, m: nat)
    requires i <= m <= |s| && (forall k :: i <= k < m ==> s[k] == ' ') && At(s, m) != ' ' && At(s, m) != '\t'
    ensures SkipBlanks(s, i) == m
    decreases m - i
  {
    if i < m { SkipRun(s, i + 1, m); }
  }

  /** Digits below 16 are neither blanks, signs nor the x of a prefix. */
  lemma NotSpecial(c: char)
    requires IsDigit(c, 16)
    ensures c != ' ' && c != '\t' && c != '+' && c != '-' && c != 'x'
  {
  }

  /** The output is as long as the wider of the width and the digits. */
  lemma PrintedLength(num: nat, base: nat, width: int, padc: char)
    requires 2 <= base <= 16
    ensures |Printed(num, base, width, padc)| == if width > |Digits(num, base)| then width else |Digits(num, base)|
  {
  }

  /** Reading back what was printed, padded with spaces or zeros: the number, and the whole text consumed. */
  lemma RoundTrip(num: nat, base: nat, width: int, padc: char)
    requires 2 <= base <= 16 && (padc == ' ' || padc == '0')
    ensures Strtol(Printed(num, base, width, padc), base) == (num, |Printed(num, base, width, padc)|)
  {
    var digits, pads := Digits(num, base), Repeat(padc, width - |Digits(num, base)|);
    var s := pads + digits;
    DigitsBack(num, base);
    hide Digits, ReadDigits, IsDigit;
    AllPlain(digits, base);
    if padc == ' ' {
      SkipRun(s, 0, |pads|);
      ReadShift(pads, digits, 0, base, 0);
      assert At(s, |pads| + 1) != 'x' by { assert |digits| > 1 ==> s[|pads| + 1] == digits[1]; }
      assert s[|pads|] == digits[0];
    } else {
      ZerosInFront(width - |digits|, digits, base);
      PlainStart(pads, digits);
      SkipRun(s, 0, 0);
    }
  }

  predicate PlainChars(s: string) {
    forall k :: 0 <= k < |s| ==> s[k] != ' ' && s[k] != '\t' && s[k] != '+' && s[k] != '-' && s[k] != 'x'
  }

  lemma AllPlain(s: string, base: nat)
    requires AllDigits(s, base) && base <= 16
    ensures PlainChars(s)
  {
    forall k | 0 <= k < |s| ensures s[k] != ' ' && s[k] != '\t' && s[k] != '+' && s[k] != '-' && s[k] != 'x' {
      assert IsDigit(s[k], base);
      NotSpecial(s[k]);
    }
  }

  lemma PlainStart(zeros: string, digits: string)
    requires PlainChars(digits) && forall k :: 0 <= k < |zeros| ==> zeros[k] == '0'
    ensures PlainChars(zeros + digits)
  {
  }

  /** A minus sign in front of zero-padded digits negates the value. */
  lemma SignedRoundTrip(num: nat, base: nat, width: int)
    requires 2 <= base <= 16
    ensures Strtol("-" + Printed(num, base, width, '0'), base) == (0 - num, 1 + |Printed(num, base, width, '0')|)
  {
    var digits, zeros := Digits(num, base), Repeat('0', width - |Digits(num, base)|);
    var body := zeros + digits;
    var s := "-" + body;
    DigitsBack(num, base);
    hide Digits, ReadDigits, IsDigit;
    AllPlain(digits, base);
    ZerosInFront(width - |digits|, digits, base);
    PlainStart(zeros, digits);
    ReadShift("-", body, 0, base, 0);
    SkipRun(s, 0, 0);
    assert At(s, 2) != 'x' by { assert |body| > 1 ==> s[2] == body[1]; }
  }

  /** "0x" before the hexadecimal digits is skipped, in base 16 and when the base is to be found out. */
  lemma PrefixedRoundTrip(num: nat, base: int)
    requires base == 0 || base == 16
    ensures Strtol("0x" + Digits(num, 16), base) == (num, 2 + |Digits(num, 16)|)
  {
    var digits := Digits(num, 16);
    var s := "0x" + digits;
    DigitsBack(num, 16);
    hide Digits, ReadDigits, IsDigit;
    ReadShift("0x", digits, 0, 16, 0);
    SkipRun(s, 0, 0);
  }
}
