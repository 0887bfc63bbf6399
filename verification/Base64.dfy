/** The hand-written Base64 codec of the updater: the URL-safe alphabet of section 5 of
    RFC 4648 without padding; the decoder also takes '+' and '/'. Shifts and masks on
    8-bit values are written as the products, quotients and remainders they denote. */
module Base64 {
  import opened Alphabets
  import opened Bytes

  const NOT_IN_ALPHABET: byte := 255

  function To64(c: byte): char {
    var d := c % 64;
    if d < 26 then d as char + 'A'
    else if d < 52 then (d - 26) as char + 'a'
    else if d < 62 then (d - 52) as char + '0'
    else if d == 62 then '-'
    else '_'
  }

  function From64(c: char): byte {
    if 'A' <= c <= 'Z' then c as int - 'A' as int
    else if 'a' <= c <= 'z' then c as int - 'a' as int + 26
    else if '0' <= c <= '9' then c as int - '0' as int + 52
    else if c == '-' || c == '+' then 62
    else if c == '_' || c == '/' then 63
    else NOT_IN_ALPHABET
  }

  predicate InAlphabet(c: char) { From64(c) != NOT_IN_ALPHABET }

  predicate AreSextets(cs: seq<byte>) { forall i :: 0 <= i < |cs| ==> cs[i] < 64 }

  // The four sextets of three bytes, and the three bytes of four sextets.
  function Sextet0(b0: byte): byte { b0 / 4 }
  function Sextet1(b0: byte, b1: byte): byte { b0 % 4 * 16 + b1 / 16 }
  function Sextet2(b1: byte, b2: byte): byte { b1 % 16 * 4 + b2 / 64 }
  function Sextet3(b2: byte): byte { b2 % 64 }
  function Byte0(c0: byte, c1: byte): byte { c0 % 64 * 4 + c1 / 16 % 4 }
  function Byte1(c1: byte, c2: byte): byte { c1 % 16 * 16 + c2 / 4 % 16 }
  function Byte2(c2: byte, c3: byte): byte { c2 % 4 * 64 + c3 % 64 }

  // ----- Specification -----

  /** The sextets of a byte string; a short last group is completed with zero bits. */
  function Sextets(b: seq<byte>): (cs: seq<byte>)
    ensures AreSextets(cs)
  {
    if |b| == 0 then []
    else if |b| == 1 then [Sextet0(b[0]), Sextet1(b[0], 0)]
    else if |b| == 2 then [Sextet0(b[0]), Sextet1(b[0], b[1]), Sextet2(b[1], 0)]
    else
      [Sextet0(b[0]), Sextet1(b[0], b[1]), Sextet2(b[1], b[2]), Sextet3(b[2])] + Sextets(b[3..])
  }

  function Letters(cs: seq<byte>): (s: string)
    ensures |s| == |cs| && forall i :: 0 <= i < |cs| ==> s[i] == To64(cs[i])
  {
    seq(|cs|, i requires 0 <= i < |cs| => To64(cs[i]))
  }

  function Encode(b: seq<byte>): string { Letters(Sextets(b)) }

  /** Index of the first character outside the alphabet; the length if there is none. */
  function Stop(s: string): (n: nat)
    ensures n <= |s|
    ensures forall i :: 0 <= i < n ==> InAlphabet(s[i])
    ensures n < |s| ==> !InAlphabet(s[n])
  {
    if s != "" && InAlphabet(s[0]) then 1 + Stop(s[1..]) else 0
  }

  /** The sextets in front of the first character outside the alphabet. */
  function Codes(s: string): (cs: seq<byte>)
    ensures |cs| == Stop(s) && AreSextets(cs)
    ensures forall i :: 0 <= i < |cs| ==> cs[i] == From64(s[i])
  {
    seq(Stop(s), i requires 0 <= i < Stop(s) => From64(s[i]))
  }

  /** The bytes of a sextet string. A single left-over sextet still yields a byte, whose
      low bits come from the marker of the character that ended the input. */
  function Decode(cs: seq<byte>): seq<byte> {
    if |cs| == 0 then []
    else if |cs| == 1 then [Byte0(cs[0], NOT_IN_ALPHABET)]
    else if |cs| == 2 then [Byte0(cs[0], cs[1])]
    else if |cs| == 3 then [Byte0(cs[0], cs[1]), Byte1(cs[1], cs[2])]
    else [Byte0(cs[0], cs[1]), Byte1(cs[1], cs[2]), Byte2(cs[2], cs[3])] + Decode(cs[4..])
  }

  function DecodeText(s: string): seq<byte> { Decode(Codes(s)) }

  // ----- The operations -----

  function Min(x: int, y: int): int { if x < y then x else y }

  /** Reads up to four sextets of `a` from `pos`, ending at a character outside the
      alphabet, whose marker is stored too. */
  method ReadGroup(a: string, pos: nat) returns (c: seq<byte>, i: nat)
    requires Stop(a) < |a| && pos <= Stop(a)
    ensures |c| == 4 && i == Min(4, Stop(a) - pos)
    ensures forall k :: 0 <= k < i ==> c[k] == Codes(a)[pos + k]
    ensures i < 4 ==> c[i] == NOT_IN_ALPHABET
  {
    hide From64;
    c := [0, 0, 0, 0];
    i := 0;
    while i < 4
      invariant |c| == 4 && i <= 4 && pos + i <= Stop(a)
      invariant forall k :: 0 <= k < i ==> c[k] == Codes(a)[pos + k]
    {
      c := c[i := From64(a[pos + i])];
      if c[i] == NOT_IN_ALPHABET { break; }
      i := i + 1;
    }
  }

  /** The bytes that one group of sextets contributes. */
  lemma {:induction false} DecodeAt(cs: seq<byte>, group: nat)
    requires 4 * group <= |cs|
    ensures var d, pos, p := Decode(cs), 4 * group, 3 * group;
      && (|d| == p <==> |cs| == pos) && (|d| == p + 1 <==> pos < |cs| < pos + 3)
      && (|d| == p + 2 <==> |cs| == pos + 3) && p <= |d|
      && (pos < |cs| ==>
           d[p] == Byte0(cs[pos], if pos + 1 < |cs| then cs[pos + 1] else NOT_IN_ALPHABET))
      && (pos + 2 < |cs| ==> d[p + 1] == Byte1(cs[pos + 1], cs[pos + 2]))
      && (pos + 3 < |cs| ==> d[p + 2] == Byte2(cs[pos + 2], cs[pos + 3]))
  {
    hide Byte0, Byte1, Byte2;
    if group > 0 { DecodeAt(cs[4..], group - 1); }
  }

  /** How many bytes a group of `i` sextets stands for, and what they are. */
  function GroupSize(i: nat): nat { if i < 2 then i else i - 1 }

  function GroupByte(c: seq<byte>, k: nat): byte
    requires |c| == 4
  {
    if k == 0 then Byte0(c[0], c[1]) else if k == 1 then Byte1(c[1], c[2]) else Byte2(c[2], c[3])
  }

  /** What `ReadGroup` returns, as bytes of the decoding. */
  lemma GroupRead(cs: seq<byte>, group: nat, c: seq<byte>, i: nat)
    requires 4 * group <= |cs| && |c| == 4 && i == Min(4, |cs| - 4 * group)
    requires forall k :: 0 <= k < i ==> c[k] == cs[4 * group + k]
    requires i < 4 ==> c[i] == NOT_IN_ALPHABET
    ensures var d, p := Decode(cs), 3 * group;
      && |d| >= p + GroupSize(i) && (i < 4 ==> |d| == p + GroupSize(i))
      && forall k :: 0 <= k < GroupSize(i) ==> d[p + k] == GroupByte(c, k)
  {
    hide Decode, Byte0, Byte1, Byte2;
    DecodeAt(cs, group);
  }

  /** Writes the bytes of a group as far as they fit. */
  method WriteGroup(c: seq<byte>, i: nat, b: array<byte>, start: nat, blen: nat) returns (p: nat)
    requires |c| == 4 && i <= 4 && start <= blen <= b.Length
    modifies b
    ensures p == Min(blen, start + GroupSize(i))
    ensures forall k :: start <= k < p ==> b[k] == GroupByte(c, k - start)
    ensures forall k :: 0 <= k < b.Length && !(start <= k < p) ==> b[k] == old(b[k])
  {
    hide Byte0, Byte1, Byte2;
    p := start;
    if p >= blen || i == 0 { return; }
    b[p] := Byte0(c[0], c[1]);
    p := p + 1;
    if p >= blen || i < 3 { return; }
    b[p] := Byte1(c[1], c[2]);
    p := p + 1;
    if p >= blen || i < 4 { return; }
    b[p] := Byte2(c[2], c[3]);
    p := p + 1;
  }

  /** Decodes at most `blen` bytes of the C string `a` into `b`. `consumed` counts the
      characters read. */
  method Atob(a: string, b: array<byte>, blen: nat) returns (p: nat, ghost consumed: nat)
    requires Stop(a) < |a|
    requires blen <= b.Length
    modifies b
    ensures p == Min(blen, |DecodeText(a)|)
    ensures b[..p] == DecodeText(a)[..p]
    ensures forall k :: p <= k < b.Length ==> b[k] == old(b[k])
    ensures consumed <= Stop(a) + 1
  {
    hide From64, GroupByte, Decode, DecodedLength;
    ghost var codes, text := Codes(a), DecodeText(a);
    assert text == Decode(codes);
    hide Stop, Codes, DecodeText;
    p := 0;
    var pos := 0;
    ghost var group := 0;
    while true
      invariant pos == 4 * group && pos <= |codes|
      invariant p == 3 * group && p <= blen && p <= |text|
      invariant forall k :: 0 <= k < p ==> b[k] == text[k]
      invariant forall k :: p <= k < b.Length ==> b[k] == old(b[k])
      decreases |codes| - pos
    {
      var c, i := ReadGroup(a, pos);
      consumed := pos + Min(i + 1, 4);
      GroupRead(codes, group, c, i);
      var start := p;
      p := WriteGroup(c, i, b, start, blen);
      assert forall k :: start <= k < p ==> b[k] == text[start + (k - start)];
      if p < start + 3 { return; }
      pos, group := pos + 4, group + 1;
    }
  }

  /** Encodes `b` into the buffer `a` and terminates it with a NUL. */
  method Btoa(b: seq<byte>, a: array<char>) returns (p: nat)
    requires EncodedLength(|b|) + 1 <= a.Length
    modifies a
    ensures p == EncodedLength(|b|) && a[..p] == Encode(b) && a[p] == '\0'
    ensures forall k :: p < k < a.Length ==> a[k] == old(a[k])
  {
    hide To64, Sextet0, Sextet1, Sextet2, Sextet3, Sextets, EncodedLength;
    ghost var cs := Sextets(b);
    p := 0;
    var pos := 0;
    ghost var group := 0;
    SextetsLength(b);
    while true
      invariant pos == 3 * group && pos <= |b|
      invariant p == 4 * group && p <= |cs|
      invariant forall k :: 0 <= k < p ==> a[k] == To64(cs[k])
      invariant forall k :: |cs| < k < a.Length ==> a[k] == old(a[k])
      decreases |b| - pos
    {
      var blen := |b| - pos;
      SextetsAt(b, group);
      if blen <= 0 { break; }
      a[p], a[p + 1] := To64(Sextet0(b[pos])), To64(Sextet1(b[pos], if blen > 1 then b[pos + 1] else 0));
      p := p + 2;
      if blen < 2 { break; }
      a[p] := To64(Sextet2(b[pos + 1], if blen > 2 then b[pos + 2] else 0));
      p := p + 1;
      if blen < 3 { break; }
      a[p] := To64(Sextet3(b[pos + 2]));
      p := p + 1;
      pos, group := pos + 3, group + 1;
    }
    a[p] := '\0';
  }

  /** The sextets that one group of bytes contributes. */
  lemma {:induction false} SextetsAt(b: seq<byte>, group: nat)
    requires 3 * group <= |b|
    ensures var cs, pos, p := Sextets(b), 3 * group, 4 * group;
      && (|cs| == p <==> |b| == pos) && (|cs| == p + 2 <==> |b| == pos + 1)
      && (|cs| == p + 3 <==> |b| == pos + 2) && p <= |cs| && |cs| != p + 1
      && (pos < |b| ==>
           cs[p] == Sextet0(b[pos])
           && cs[p + 1] == Sextet1(b[pos], if pos + 1 < |b| then b[pos + 1] else 0))
      && (pos + 1 < |b| ==>
           cs[p + 2] == Sextet2(b[pos + 1], if pos + 2 < |b| then b[pos + 2] else 0))
      && (pos + 2 < |b| ==> cs[p + 3] == Sextet3(b[pos + 2]))
  {
    hide Sextet0, Sextet1, Sextet2, Sextet3;
    if group > 0 { SextetsAt(b[3..], group - 1); }
  }

  // ----- Lengths -----

  function EncodedLength(n: nat): nat { n / 3 * 4 + if n % 3 == 0 then 0 else n % 3 + 1 }

  function DecodedLength(n: nat): nat { n / 4 * 3 + if n % 4 < 2 then n % 4 else n % 4 - 1 }

  lemma {:induction false} SextetsLength(b: seq<byte>)
    ensures |Sextets(b)| == EncodedLength(|b|)
  {
    hide Sextet0, Sextet1, Sextet2, Sextet3;
    if |b| >= 3 { SextetsLength(b[3..]); }
  }

  lemma {:induction false} DecodeLength(cs: seq<byte>)
    ensures |Decode(cs)| == DecodedLength(|cs|)
  {
    hide Byte0, Byte1, Byte2;
    if |cs| >= 4 { DecodeLength(cs[4..]); }
  }

  /** The sizes the callers allocate are enough: an encoding with its NUL fits in
      4n/3 + 4 characters, a decoding in 3n/4 + 3 and in n/4*3 + 3 bytes. */
  lemma BuffersSuffice(b: seq<byte>, s: string)
    ensures |Encode(b)| + 1 <= 4 * |b| / 3 + 4
    ensures |DecodeText(s)| <= |s| * 3 / 4 + 3
    ensures |DecodeText(s)| <= |s| / 4 * 3 + 3
  {
    SextetsLength(b);
    DecodeLength(Codes(s));
  }

  // ----- Whole groups -----

  lemma DecodeCons(c0: byte, c1: byte, c2: byte, c3: byte, cs: seq<byte>)
    ensures Decode([c0, c1, c2, c3] + cs) == [Byte0(c0, c1), Byte1(c1, c2), Byte2(c2, c3)] + Decode(cs)
  {
    hide Byte0, Byte1, Byte2;
    assert ([c0, c1, c2, c3] + cs)[4..] == cs;
  }

  lemma SextetsCons(b0: byte, b1: byte, b2: byte, b: seq<byte>)
    ensures Sextets([b0, b1, b2] + b)
         == [Sextet0(b0), Sextet1(b0, b1), Sextet2(b1, b2), Sextet3(b2)] + Sextets(b)
  {
    hide Sextet0, Sextet1, Sextet2, Sextet3;
    assert ([b0, b1, b2] + b)[3..] == b;
  }

  // ----- Round trips -----

  lemma LetterRoundTrip(c: byte)
    requires c < 64
    ensures From64(To64(c)) == c && To64(c) != '+' && To64(c) != '/'
  {
  }

  lemma CharRoundTrip(c: char)
    requires InAlphabet(c) && c != '+' && c != '/'
    ensures To64(From64(c)) == c
  {
  }

  lemma Unpack(hi: byte, lo: byte, k: nat)
    requires k in {4, 16, 64} && lo < k
    ensures (hi * k + lo) / k == hi && (hi * k + lo) % k == lo
  {
  }

  lemma Repack(x: byte, k: nat)
    requires k in {4, 16, 64}
    ensures x / k * k + x % k == x && 0 <= x / k < 256 / k
  {
  }

  lemma Byte0RoundTrip(b0: byte, b1: byte)
    ensures Sextet0(b0) < 64 && Sextet1(b0, b1) < 64
    ensures Byte0(Sextet0(b0), Sextet1(b0, b1)) == b0
  {
    Repack(b0, 4);
    Unpack(b0 % 4, b1 / 16, 16);
  }

  lemma Byte1RoundTrip(b0: byte, b1: byte, b2: byte)
    ensures Sextet2(b1, b2) < 64
    ensures Byte1(Sextet1(b0, b1), Sextet2(b1, b2)) == b1
  {
    Repack(b1, 16);
    Unpack(b0 % 4, b1 / 16, 16);
    Unpack(b1 % 16, b2 / 64, 4);
  }

  lemma Byte2RoundTrip(b1: byte, b2: byte)
    ensures Byte2(Sextet2(b1, b2), Sextet3(b2)) == b2
  {
    Repack(b2, 64);
    Unpack(b1 % 16, b2 / 64, 4);
  }

  lemma GroupRoundTrip(b0: byte, b1: byte, b2: byte)
    ensures Byte0(Sextet0(b0), Sextet1(b0, b1)) == b0
    ensures Byte1(Sextet1(b0, b1), Sextet2(b1, b2)) == b1
    ensures Byte2(Sextet2(b1, b2), Sextet3(b2)) == b2
  {
    hide Sextet0, Sextet1, Sextet2, Sextet3, Byte0, Byte1, Byte2;
    Byte0RoundTrip(b0, b1);
    Byte1RoundTrip(b0, b1, b2);
    Byte2RoundTrip(b1, b2);
  }

  lemma ZeroBits(b: byte)
    ensures Sextet1(b, 0) % 16 == 0 && Sextet2(b, 0) % 4 == 0
  {
    Unpack(b % 4, 0, 16);
    Unpack(b % 16, 0, 4);
  }

  lemma Sextet0RoundTrip(c0: byte, c1: byte)
    requires c0 < 64
    ensures Sextet0(Byte0(c0, c1)) == c0
  {
    Unpack(c0, c1 / 16 % 4, 4);
  }

  lemma Sextet1RoundTrip(c0: byte, c1: byte, c2: byte)
    requires c0 < 64 && c1 < 64 && c2 < 64
    ensures Sextet1(Byte0(c0, c1), Byte1(c1, c2)) == c1
    ensures c1 % 16 == 0 ==> Sextet1(Byte0(c0, c1), 0) == c1
  {
    Repack(c1, 16);
    var hi, lo := c1 / 16, c1 % 16;
    assert Byte0(c0, c1) % 4 == hi by { Unpack(c0, hi, 4); }
    assert Byte1(c1, c2) / 16 == lo by { Unpack(lo, c2 / 4, 16); }
    hide Byte0, Byte1;
  }

  lemma Sextet2RoundTrip(c1: byte, c2: byte, c3: byte)
    requires c1 < 64 && c2 < 64 && c3 < 64
    ensures Sextet2(Byte1(c1, c2), Byte2(c2, c3)) == c2
    ensures c2 % 4 == 0 ==> Sextet2(Byte1(c1, c2), 0) == c2
  {
    Repack(c2, 4);
    var hi, lo := c2 / 4, c2 % 4;
    assert Byte1(c1, c2) % 16 == hi by { Unpack(c1 % 16, hi, 16); }
    assert Byte2(c2, c3) / 64 == lo by { Unpack(lo, c3, 64); }
    hide Byte1, Byte2;
  }

  lemma Sextet3RoundTrip(c2: byte, c3: byte)
    requires c3 < 64
    ensures Sextet3(Byte2(c2, c3)) == c3
  {
    Unpack(c2 % 4, c3, 64);
  }

  lemma SextetsRoundTrip(c0: byte, c1: byte, c2: byte, c3: byte)
    requires c0 < 64 && c1 < 64 && c2 < 64 && c3 < 64
    ensures Sextet0(Byte0(c0, c1)) == c0
    ensures Sextet1(Byte0(c0, c1), Byte1(c1, c2)) == c1
    ensures Sextet2(Byte1(c1, c2), Byte2(c2, c3)) == c2
    ensures Sextet3(Byte2(c2, c3)) == c3
    ensures c1 % 16 == 0 ==> Sextet1(Byte0(c0, c1), 0) == c1
    ensures c2 % 4 == 0 ==> Sextet2(Byte1(c1, c2), 0) == c2
  {
    hide Sextet0, Sextet1, Sextet2, Sextet3, Byte0, Byte1, Byte2;
    Sextet0RoundTrip(c0, c1);
    Sextet1RoundTrip(c0, c1, c2);
    Sextet2RoundTrip(c1, c2, c3);
    Sextet3RoundTrip(c2, c3);
  }

  lemma CodesCons(c: char, s: string)
    requires InAlphabet(c)
    ensures Codes([c] + s) == [From64(c)] + Codes(s)
  {
    hide From64;
    assert ([c] + s)[1..] == s;
  }

  lemma LettersCons(cs: seq<byte>)
    requires cs != []
    ensures Letters(cs) == [To64(cs[0])] + Letters(cs[1..]) && cs == [cs[0]] + cs[1..]
  {
    hide To64;
  }

  lemma CodesOfNothing()
    ensures Codes("") == []
  {
  }

  lemma Regroup<T>(x: T, s: seq<T>, t: seq<T>)
    ensures [x] + s + t == [x] + (s + t)
  {
  }

  /** Letters read back as the sextets they stand for, and what follows as its own. */
  lemma {:induction false} CodesOfLetters(cs: seq<byte>, tail: string)
    requires AreSextets(cs)
    ensures Codes(Letters(cs) + tail) == cs + Codes(tail)
  {
    hide Codes, To64, From64, Letters;
    if cs == [] {
      assert Letters(cs) + tail == tail;
    } else {
      var c, front := To64(cs[0]), Letters(cs[1..]);
      LetterRoundTrip(cs[0]);
      CodesOfLetters(cs[1..], tail);
      CodesCons(c, front + tail);
      LettersCons(cs);
      Regroup(c, front, tail);
      Regroup(cs[0], cs[1..], Codes(tail));
    }
  }

  // ----- The alphabet, spelled out -----

  function Alphabet(): string { CAPITALS + SMALL_LETTERS + DIGITS + "-_" }

  lemma AlphabetCodes()
    ensures |Alphabet()| == 64
    ensures forall c :: 0 <= c < 64 ==>
      Alphabet()[c] as int
      == if c < 26 then 65 + c else if c < 52 then 71 + c else if c < 62 then c - 4 else if c == 62 then 45 else 95
  {
    CharacterCodes();
    var letters := CAPITALS + SMALL_LETTERS;
    assert |letters| == 52 && forall c :: 0 <= c < 52 ==> letters[c] as int == if c < 26 then 65 + c else 71 + c;
    var all := letters + DIGITS;
    assert |all| == 62 && forall c :: 52 <= c < 62 ==> all[c] == DIGITS[c - 52];
    assert Alphabet() == all + "-_";
  }

  /** The lower six bits of a byte select a letter. The decoder also takes '+' and '/' for the last two,
      and nothing else. */
  lemma LetterOfSextet(b: byte, other: char)
    ensures |Alphabet()| == 64 && To64(b) == Alphabet()[b % 64] && From64(Alphabet()[b % 64]) == b % 64
    ensures From64('+') == 62 && From64('/') == 63
    ensures InAlphabet(other) <==> other in Alphabet() || other in "+/"
  {
    AlphabetCodes();
    hide Alphabet;
    var c: byte := b % 64;
    assert To64(b) == To64(c);
    assert To64(c) as int == Alphabet()[c] as int;
    if InAlphabet(other) && other !in "+/" {
      assert Alphabet()[From64(other)] as int == other as int;
    }
    if other in Alphabet() {
      var i :| 0 <= i < 64 && Alphabet()[i] == other;
      assert other as int == Alphabet()[i] as int;
    }
  }

  /** Three bytes and their four sextets are digits of one number. */
  lemma GroupNumber(b0: byte, b1: byte, b2: byte)
    ensures Sextet0(b0) * 262144 + Sextet1(b0, b1) * 4096 + Sextet2(b1, b2) * 64 + Sextet3(b2)
         == b0 * 65536 + b1 * 256 + b2
    ensures Sextet0(b0) < 64 && Sextet1(b0, b1) < 64 && Sextet2(b1, b2) < 64 && Sextet3(b2) < 64
  {
    Repack(b0, 4);
    Repack(b1, 16);
    Repack(b2, 64);
  }

  /** The same backwards. */
  lemma BytesNumber(c0: byte, c1: byte, c2: byte, c3: byte)
    requires c0 < 64 && c1 < 64 && c2 < 64 && c3 < 64
    ensures Byte0(c0, c1) * 65536 + Byte1(c1, c2) * 256 + Byte2(c2, c3)
         == c0 * 262144 + c1 * 4096 + c2 * 64 + c3
  {
    var b0, b1, b2 := Byte0(c0, c1), Byte1(c1, c2), Byte2(c2, c3);
    SextetsRoundTrip(c0, c1, c2, c3);
    GroupNumber(b0, b1, b2);
    hide Sextet0, Sextet1, Sextet2, Sextet3, Byte0, Byte1, Byte2;
  }

  /** What the last group looks like: no single left-over sextet, unused bits zero. */
  predicate CanonicalSextets(cs: seq<byte>) {
    if |cs| >= 4 then CanonicalSextets(cs[4..])
    else if |cs| == 3 then cs[2] % 4 == 0
    else if |cs| == 2 then cs[1] % 16 == 0
    else cs == []
  }

  lemma {:induction false} SextetsCanonical(b: seq<byte>)
    ensures CanonicalSextets(Sextets(b))
  {
    if |b| >= 3 {
      hide Sextet0, Sextet1, Sextet2, Sextet3;
      SextetsCanonical(b[3..]);
      assert Sextets(b)[4..] == Sextets(b[3..]);
    } else if |b| == 2 {
      ZeroBits(b[1]);
      hide Sextet0, Sextet1, Sextet2, Sextet3;
      assert Sextets(b)[2] == Sextet2(b[1], 0);
    } else if |b| == 1 {
      ZeroBits(b[0]);
      hide Sextet0, Sextet1, Sextet2, Sextet3;
      assert Sextets(b)[1] == Sextet1(b[0], 0);
    }
  }

  lemma {:induction false} DecodeSextets(b: seq<byte>)
    ensures Decode(Sextets(b)) == b
  {
    hide Sextet0, Sextet1, Sextet2, Sextet3, Byte0, Byte1, Byte2;
    GroupRoundTrip(if |b| > 0 then b[0] else 0, if |b| > 1 then b[1] else 0, if |b| > 2 then b[2] else 0);
    if |b| >= 3 {
      DecodeSextets(b[3..]);
      DecodeCons(Sextet0(b[0]), Sextet1(b[0], b[1]), Sextet2(b[1], b[2]), Sextet3(b[2]), Sextets(b[3..]));
      assert b == b[..3] + b[3..];
    }
  }

  lemma {:induction false} SextetsOfDecode(cs: seq<byte>)
    requires AreSextets(cs) && CanonicalSextets(cs)
    ensures Sextets(Decode(cs)) == cs
  {
    hide Sextet0, Sextet1, Sextet2, Sextet3, Byte0, Byte1, Byte2;
    if |cs| >= 4 {
      SextetsRoundTrip(cs[0], cs[1], cs[2], cs[3]);
      SextetsOfDecode(cs[4..]);
      SextetsCons(Byte0(cs[0], cs[1]), Byte1(cs[1], cs[2]), Byte2(cs[2], cs[3]), Decode(cs[4..]));
      assert cs == cs[..4] + cs[4..];
    } else if |cs| >= 2 {
      SextetsRoundTrip(cs[0], cs[1], if |cs| > 2 then cs[2] else 0, 0);
    }
  }

  /** Decoding an encoding gives the bytes back, whatever follows its terminator. */
  lemma DecodeEncode(b: seq<byte>, tail: string)
    requires tail == "" || !InAlphabet(tail[0])
    ensures DecodeText(Encode(b) + tail) == b
    ensures Stop(Encode(b) + tail) == |Encode(b)|
  {
    assert Codes(tail) == [];
    hide Codes, Decode, Sextets;
    DecodeSextets(b);
    CodesOfLetters(Sextets(b), tail);
    assert Sextets(b) + [] == Sextets(b);
  }

  lemma DecodeShort(b: seq<byte>, more: seq<byte>)
    requires |b| < 3
    ensures b <= Decode(Sextets(b) + more)
  {
    hide Decode, Sextet0, Sextet1, Sextet2, Sextet3, Byte0, Byte1, Byte2;
    if |b| > 0 {
      GroupRoundTrip(b[0], if |b| > 1 then b[1] else 0, 0);
      DecodeAt(Sextets(b) + more, 0);
    }
  }

  lemma {:induction false} DecodeMore(b: seq<byte>, more: seq<byte>)
    ensures b <= Decode(Sextets(b) + more)
  {
    hide Decode, Sextet0, Sextet1, Sextet2, Sextet3, Byte0, Byte1, Byte2;
    if |b| < 3 {
      DecodeShort(b, more);
    } else {
      DecodeMore(b[3..], more);
      GroupRoundTrip(b[0], b[1], b[2]);
      var c0, c1, c2, c3 := Sextet0(b[0]), Sextet1(b[0], b[1]), Sextet2(b[1], b[2]), Sextet3(b[2]);
      DecodeCons(c0, c1, c2, c3, Sextets(b[3..]) + more);
      assert Sextets(b) + more == [c0, c1, c2, c3] + (Sextets(b[3..]) + more);
      assert b == b[..3] + b[3..];
    }
  }

  /** Decoding an encoding gives the bytes back first, whatever follows it. */
  lemma EncodedFirst(b: seq<byte>, tail: string)
    ensures b <= DecodeText(Encode(b) + tail)
  {
    CodesOfLetters(Sextets(b), tail);
    DecodeMore(b, Codes(tail));
    hide Decode, Sextets;
  }

  /** An unpadded URL-safe encoding. */
  predicate CanonicalText(s: string) {
    && (forall i :: 0 <= i < |s| ==> InAlphabet(s[i]) && s[i] != '+' && s[i] != '/')
    && CanonicalSextets(Codes(s))
  }

  lemma EncodeCanonical(s: string)
    requires CanonicalText(s)
    ensures Encode(DecodeText(s)) == s
  {
    assert Stop(s) == |s|;
    SextetsOfDecode(Codes(s));
    hide Stop, Decode, Sextets, From64, To64;
    forall i | 0 <= i < |s| ensures To64(Codes(s)[i]) == s[i] { CharRoundTrip(s[i]); }
  }

  lemma EncodedIsCanonical(b: seq<byte>)
    ensures CanonicalText(Encode(b))
  {
    var cs := Sextets(b);
    SextetsCanonical(b);
    CodesOfLetters(cs, "");
    CodesOfNothing();
    assert Letters(cs) + "" == Encode(b) && cs + [] == cs;
    hide Codes, Sextets, From64, To64, CanonicalSextets;
    forall i | 0 <= i < |cs| ensures InAlphabet(Letters(cs)[i]) && Letters(cs)[i] != '+' && Letters(cs)[i] != '/' {
      LetterRoundTrip(cs[i]);
    }
  }

  /** Encoding what was decoded gives the text back exactly for canonical text. */
  lemma EncodeDecodeIff(s: string)
    ensures Encode(DecodeText(s)) == s <==> CanonicalText(s)
  {
    hide Encode, DecodeText, CanonicalText;
    if CanonicalText(s) {
      EncodeCanonical(s);
    } else if Encode(DecodeText(s)) == s {
      EncodedIsCanonical(DecodeText(s));
    }
  }
}
