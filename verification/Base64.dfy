/** Padded base64 (section 4 of RFC 4648), as Go's encoding/base64 reads and writes
    it: padding is required, left-over bits of the last digit are ignored. */
module Base64 {
  import opened Common
  import opened Bytes

  const PAD: byte := 61  // '='

  type digit = d: int | 0 <= d < 64

  function Letter(d: digit): byte {
    if d < 26 then d + 65
    else if d < 52 then d - 26 + 97
    else if d < 62 then d - 52 + 48
    else if d == 62 then 43
    else 47
  }

  function DigitOf(c: byte): Option<digit> {
    if 65 <= c <= 90 then Some(c - 65)
    else if 97 <= c <= 122 then Some(c - 97 + 26)
    else if 48 <= c <= 57 then Some(c - 48 + 52)
    else if c == 43 then Some(62)
    else if c == 47 then Some(63)
    else None
  }

  /** The four digits of three octets. */
  function Digit1(x: byte): digit { x / 4 }
  function Digit2(x: byte, y: byte): digit { x % 4 * 16 + y / 16 }
  function Digit3(y: byte, z: byte): digit { y % 16 * 4 + z / 64 }
  function Digit4(z: byte): digit { z % 64 }

  function Encode(d: bytes): bytes {
    if d == [] then []
    else if |d| == 1 then [Letter(Digit1(d[0])), Letter(Digit2(d[0], 0)), PAD, PAD]
    else if |d| == 2 then [Letter(Digit1(d[0])), Letter(Digit2(d[0], d[1])), Letter(Digit3(d[1], 0)), PAD]
    else
      [Letter(Digit1(d[0])), Letter(Digit2(d[0], d[1])), Letter(Digit3(d[1], d[2])), Letter(Digit4(d[2]))]
      + Encode(d[3..])
  }

  function First(a: digit, b: digit): byte { a * 4 + b / 16 }
  function Second(b: digit, c: digit): byte { b % 16 * 16 + c / 4 }
  function Third(c: digit, d: digit): byte { c % 4 * 64 + d }

  function Decode(s: bytes): Option<bytes> {
    if s == [] then Some([])
    else if |s| < 4 then None
    else
      match (DigitOf(s[0]), DigitOf(s[1]), DigitOf(s[2]), DigitOf(s[3]))
      case (Some(a), Some(b), Some(c), Some(d)) =>
        (match Decode(s[4..])
         case None => None
         case Some(rest) => Some([First(a, b), Second(b, c), Third(c, d)] + rest))
      case (Some(a), Some(b), Some(c), None) =>
        if s[3] == PAD && |s| == 4 then Some([First(a, b), Second(b, c)]) else None
      case (Some(a), Some(b), None, None) =>
        if s[2] == PAD && s[3] == PAD && |s| == 4 then Some([First(a, b)]) else None
      case _ => None
  }

  /** `c` is the letter of `d` in the order A to Z, a to z, 0 to 9, plus, slash. */
  ghost predicate IsLetterOf(c: int, d: int) {
    || (0 <= d < 26 && c == 'A' as int + d)
    || (26 <= d < 52 && c == 'a' as int + (d - 26))
    || (52 <= d < 62 && c == '0' as int + (d - 52))
    || (d == 62 && c == '+' as int)
    || (d == 63 && c == '/' as int)
  }

  lemma LetterMeaning(d: digit)
    ensures forall c: int :: IsLetterOf(c, d) <==> c == Letter(d)
  {
  }

  lemma DigitMeaning(c: byte)
    ensures DigitOf(c).Some? ==> IsLetterOf(c, DigitOf(c).value)
    ensures DigitOf(c).None? ==> forall d: int :: !IsLetterOf(c, d)
  {
  }

  lemma DigitsMeaning(x: byte, y: byte, z: byte)
    ensures 65536 * x + 256 * y + z == 262144 * Digit1(x) + 4096 * Digit2(x, y) + 64 * Digit3(y, z) + Digit4(z)
  {
  }

  /** The encoding, four letters for every three octets: the letters of the digits of
      their 24 bits; where only one or two octets are left, zeros fill up and `=` stands
      for each digit that has none of their bits. */
  lemma EncodeMeaning(d: bytes, x: byte, y: byte, z: byte, a: digit, b: digit, c: digit, e: digit)
    requires d != [] && x == d[0]
    requires y == (if |d| > 1 then d[1] else 0) && z == if |d| > 2 then d[2] else 0
    requires 65536 * x + 256 * y + z == 262144 * a + 4096 * b + 64 * c + e
    ensures 4 <= |Encode(d)| && IsLetterOf(Encode(d)[0], a) && IsLetterOf(Encode(d)[1], b)
    ensures if |d| > 1 then IsLetterOf(Encode(d)[2], c) else Encode(d)[2] == '=' as int
    ensures if |d| > 2 then IsLetterOf(Encode(d)[3], e) else Encode(d)[3] == '=' as int
    ensures Encode(d)[4..] == if |d| > 3 then Encode(d[3..]) else []
  {
    DigitsMeaning(x, y, z);
    SameDigits(a, b, c, e, Digit1(x), Digit2(x, y), Digit3(y, z), Digit4(z));
    hide Letter, IsLetterOf;
    LetterMeaning(a);
    LetterMeaning(b);
    LetterMeaning(c);
    LetterMeaning(e);
  }

  lemma SameDigits(a: digit, b: digit, c: digit, e: digit, a': digit, b': digit, c': digit, e': digit)
    requires 262144 * a + 4096 * b + 64 * c + e == 262144 * a' + 4096 * b' + 64 * c' + e'
    ensures a == a' && b == b' && c == c' && e == e'
  {
  }

  lemma LetterRoundTrip(d: digit)
    ensures DigitOf(Letter(d)) == Some(d)
  {
  }

  lemma Quantum(x: byte, y: byte, z: byte)
    ensures First(Digit1(x), Digit2(x, y)) == x
    ensures Second(Digit2(x, y), Digit3(y, z)) == y
    ensures Third(Digit3(y, z), Digit4(z)) == z
  {
  }

  lemma FourLetters(a: digit, b: digit, c: digit, d: digit, tail: bytes)
    requires Decode(tail).Some?
    ensures Decode([Letter(a), Letter(b), Letter(c), Letter(d)] + tail)
            == Some([First(a, b), Second(b, c), Third(c, d)] + Decode(tail).value)
  {
    hide Letter;
    hide DigitOf;
    LetterRoundTrip(a);
    LetterRoundTrip(b);
    LetterRoundTrip(c);
    LetterRoundTrip(d);
    assert ([Letter(a), Letter(b), Letter(c), Letter(d)] + tail)[4..] == tail;
  }

  lemma PaddedLetters(a: digit, b: digit, c: digit)
    ensures Decode([Letter(a), Letter(b), PAD, PAD]) == Some([First(a, b)])
    ensures Decode([Letter(a), Letter(b), Letter(c), PAD]) == Some([First(a, b), Second(b, c)])
  {
    hide Letter;
    hide DigitOf;
    PadIsNoDigit();
    LetterRoundTrip(a);
    LetterRoundTrip(b);
    LetterRoundTrip(c);
  }

  lemma {:induction false} RoundTrip(d: bytes)
    ensures Decode(Encode(d)) == Some(d)
    decreases |d|
  {
    hide Letter, First, Second, Third, Digit1, Digit2, Digit3, Digit4;
    hide Decode;
    if |d| >= 3 {
      var x, y, z := d[0], d[1], d[2];
      RoundTrip(d[3..]);
      Quantum(x, y, z);
      FourLetters(Digit1(x), Digit2(x, y), Digit3(y, z), Digit4(z), Encode(d[3..]));
      assert d == [x, y, z] + d[3..];
    } else if d != [] {
      var x, y := d[0], if |d| > 1 then d[1] else 0;
      Quantum(x, y, 0);
      PaddedLetters(Digit1(x), Digit2(x, y), Digit3(y, 0));
      assert d == if |d| == 1 then [x] else [x, y];
    } else {
      DecodeNothing();
    }
  }

  lemma DecodeNothing()
    ensures Decode([]) == Some([])
  {
  }

  lemma PadIsNoDigit()
    ensures DigitOf(PAD) == None
  {
  }

  predicate InAlphabet(c: byte) { DigitOf(c).Some? || c == PAD }

  lemma {:induction false} EncodeStaysInAlphabet(d: bytes)
    ensures forall c | c in Encode(d) :: InAlphabet(c)
    ensures d != [] ==> Encode(d) != []
    decreases |d|
  {
    if |d| >= 3 {
      EncodeStaysInAlphabet(d[3..]);
    }
  }

  /** What decodes lies in the alphabet, and decoding makes it shorter. */
  lemma {:induction false} DecodeShrinks(s: bytes)
    requires Decode(s).Some?
    ensures forall c | c in s :: InAlphabet(c)
    ensures s != [] ==> |Decode(s).value| < |s|
    decreases |s|
  {
    if s != [] {
      assert s == [s[0], s[1], s[2], s[3]] + s[4..];
      if DigitOf(s[3]).Some? {
        DecodeShrinks(s[4..]);
      }
    }
  }

  /** Digits, but for the last `k` octets, which are `=`. */
  ghost predicate Padded(s: bytes, k: nat) {
    && k <= |s|
    && (forall i | 0 <= i < |s| - k :: DigitOf(s[i]).Some?)
    && (forall i | |s| - k <= i < |s| :: s[i] == '=' as int)
  }

  /** What is base64 at all: whole quanta of digits, padded by at most two at the end. */
  lemma {:induction false} DecodesExactlyWhen(s: bytes)
    ensures Decode(s).Some? <==> |s| % 4 == 0 && (Padded(s, 0) || Padded(s, 1) || Padded(s, 2))
    decreases |s|
  {
    if |s| > 4 {
      DecodesExactlyWhen(s[4..]);
      PadTheTail(s);
      hide DigitOf, First, Second, Third, Padded;
      assert |s| % 4 == |s[4..]| % 4;
    }
  }

  lemma PadTheTail(s: bytes)
    requires 4 < |s|
    ensures forall k: nat | k <= 2 && |s| % 4 == 0 ::
              Padded(s, k) <==>
              && DigitOf(s[0]).Some? && DigitOf(s[1]).Some? && DigitOf(s[2]).Some? && DigitOf(s[3]).Some?
              && Padded(s[4..], k)
  {
    hide DigitOf;
    var tail := s[4..];
    assert forall i | 0 <= i < |tail| :: tail[i] == s[i + 4];
    assert forall i | 4 <= i < |s| :: s[i] == tail[i - 4];
  }

  /** Whole quanta of digits always decode. */
  lemma {:induction false} WholeQuantaDecode(s: bytes)
    requires |s| % 4 == 0 && forall c | c in s :: DigitOf(c).Some?
    ensures Decode(s).Some? && |Decode(s).value| == |s| / 4 * 3
    decreases |s|
  {
    if s != [] {
      WholeQuantaDecode(s[4..]);
    }
  }
}
