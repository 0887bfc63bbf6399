/** Decimal numbers as `atoi`, `strtol` with base 10 and the stream inserters treat them,
    without a bound on their size. */
module VersionNumber {
  import opened Alphabets

  predicate IsSpace(c: char) { c in " \t\n\r" || c as int == 11 || c as int == 12 }

  predicate IsDigit(c: char) { '0' <= c <= '9' }

  function DigitValue(c: char): nat
    requires IsDigit(c)
  {
    c as int - '0' as int
  }

  function Digit(n: nat): (c: char)
    requires n < 10
    ensures IsDigit(c) && DigitValue(c) == n
  {
    n as char + '0'
  }

  function SkipSpace(s: string): string {
    if s != "" && IsSpace(s[0]) then SkipSpace(s[1..]) else s
  }

  /** The number that the leading digits of `s` continue from `acc`. */
  function LeadingDigits(s: string, acc: nat): nat {
    if s != "" && IsDigit(s[0]) then LeadingDigits(s[1..], acc * 10 + DigitValue(s[0])) else acc
  }

  /** Optional space, an optional sign, digits; what follows is ignored. */
  function ParseInt(s: string): int {
    var t := SkipSpace(s);
    if t != "" && t[0] == '-' then 0 - LeadingDigits(t[1..], 0)
    else if t != "" && t[0] == '+' then LeadingDigits(t[1..], 0)
    else LeadingDigits(t, 0)
  }

  function Digits(n: nat): (s: string)
    ensures s != "" && forall i :: 0 <= i < |s| ==> IsDigit(s[i])
  {
    (if n < 10 then "" else Digits(n / 10)) + [Digit(n % 10)]
  }

  /** The printed form of a number. */
  function Decimal(n: int): string { if n < 0 then "-" + Digits(-n) else Digits(n) }

  /** A version text that printing its own number reproduces. */
  predicate CanonicalDecimal(s: string) { s == Decimal(ParseInt(s)) }

  lemma {:induction false} LeadingDigitsAppend(a: string, b: string, acc: nat)
    requires forall i :: 0 <= i < |a| ==> IsDigit(a[i])
    ensures LeadingDigits(a + b, acc) == LeadingDigits(b, LeadingDigits(a, acc))
    decreases a
  {
    if a == "" {
      assert a + b == b;
    } else {
      assert (a + b)[1..] == a[1..] + b;
      LeadingDigitsAppend(a[1..], b, acc * 10 + DigitValue(a[0]));
    }
  }

  lemma {:induction false} DigitsRead(n: nat)
    ensures LeadingDigits(Digits(n), 0) == n
  {
    var last := [Digit(n % 10)];
    if n < 10 {
      assert Digits(n) == last;
      assert LeadingDigits(last, 0) == LeadingDigits("", n);
    } else {
      DigitsRead(n / 10);
      LeadingDigitsAppend(Digits(n / 10), last, 0);
      assert LeadingDigits(last, n / 10) == LeadingDigits(last[1..], n / 10 * 10 + n % 10);
    }
  }

  /** A printed number is read up to the first character that is not a digit. */
  lemma ParsePrintedThen(n: int, rest: string)
    requires rest == "" || !IsDigit(rest[0])
    ensures ParseInt(Decimal(n) + rest) == n
  {
    hide Digits;
    var digits := Digits(if n < 0 then -n else n);
    DigitsRead(if n < 0 then -n else n);
    LeadingDigitsAppend(digits, rest, 0);
    var text := Decimal(n) + rest;
    if n < 0 {
      assert text[1..] == digits + rest;
    } else {
      assert text == digits + rest && IsDigit(text[0]);
    }
  }

  /** Reading a printed number gives it back. */
  lemma ParsePrinted(n: int)
    ensures ParseInt(Decimal(n)) == n
  {
    ParsePrintedThen(n, "");
    assert Decimal(n) + "" == Decimal(n);
  }

  // ----- Numbers, spelled out -----

  /** The number with these decimal digits. */
  function Value(ks: seq<nat>): nat { if ks == [] then 0 else 10 * Value(ks[..|ks| - 1]) + ks[|ks| - 1] }

  predicate Spells(s: string, ks: seq<nat>) {
    |s| == |ks| && forall i :: 0 <= i < |s| ==> ks[i] < |DIGITS| && s[i] == DIGITS[ks[i]]
  }

  lemma DigitSpelled(c: char, k: nat)
    requires k < |DIGITS| && c == DIGITS[k]
    ensures IsDigit(c) && DigitValue(c) == k
  {
    CharacterCodes();
  }

  lemma DigitCharacter(c: char)
    ensures IsDigit(c) <==> c in DIGITS
  {
    CharacterCodes();
    if IsDigit(c) { assert DIGITS[c as int - 48] == c; }
  }

  lemma {:induction false} SpelledValue(s: string, ks: seq<nat>)
    requires Spells(s, ks)
    ensures (forall i :: 0 <= i < |s| ==> IsDigit(s[i])) && LeadingDigits(s, 0) == Value(ks)
  {
    if s != "" {
      var n := |s| - 1;
      SpelledValue(s[..n], ks[..n]);
      DigitSpelled(s[n], ks[n]);
      assert s == s[..n] + [s[n]] && forall i :: 0 <= i < n ==> s[..n][i] == s[i];
      LeadingDigitsAppend(s[..n], [s[n]], 0);
      assert LeadingDigits([s[n]], Value(ks[..n])) == LeadingDigits([s[n]][1..], Value(ks[..n]) * 10 + ks[n]);
    }
  }

  lemma {:induction false} SpaceSkipped(space: string, rest: string)
    requires forall i :: 0 <= i < |space| ==> space[i] in " \t\n\r" || space[i] as int in {11, 12}
    ensures SkipSpace(space + rest) == SkipSpace(rest)
  {
    if space == "" {
      assert space + rest == rest;
    } else {
      assert (space + rest)[1..] == space[1..] + rest;
      SpaceSkipped(space[1..], rest);
    }
  }

  predicate StartsNumber(s: string) {
    s != "" && (s[0] in " \t\n\r+-" + DIGITS || s[0] as int in {11, 12})
  }

  /** White space, a sign, digits: that is the number, whatever follows the digits; without
      any digit it is zero. */
  lemma NumberRead(space: string, sign: string, digits: string, ks: seq<nat>, rest: string)
    requires forall i :: 0 <= i < |space| ==> space[i] in " \t\n\r" || space[i] as int in {11, 12}
    requires sign in {"", "+", "-"} && Spells(digits, ks) && (rest != "" ==> rest[0] !in DIGITS)
    requires sign == "" && digits == "" ==> !StartsNumber(rest)
    ensures ParseInt(space + (sign + (digits + rest))) == if sign == "-" then 0 - Value(ks) else Value(ks)
  {
    var tail := digits + rest;
    SpaceSkipped(space, sign + tail);
    SpelledValue(digits, ks);
    if rest != "" { DigitCharacter(rest[0]); }
    LeadingDigitsAppend(digits, rest, 0);
    assert LeadingDigits(tail, 0) == Value(ks);
    if sign == "" {
      assert sign + tail == tail;
      if digits == "" { assert tail == rest; } else { assert tail[0] == digits[0]; }
    } else {
      assert (sign + tail)[1..] == tail && (sign + tail)[0] == sign[0];
    }
  }

  /** Numbers are printed without a leading zero. */
  lemma {:induction false} NoLeadingZero(n: nat)
    ensures n > 0 ==> Decimal(n)[0] != '0' && Decimal(0 - n) == "-" + Decimal(n)
    ensures Decimal(0) == "0"
  {
    assert Digits(0) == "" + [Digit(0)];
    FirstDigit(n);
  }

  lemma {:induction false} FirstDigit(n: nat)
    ensures n > 0 ==> Digits(n)[0] != '0'
  {
    if n >= 10 { FirstDigit(n / 10); }
  }
}
