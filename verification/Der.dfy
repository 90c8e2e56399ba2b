/** DER type-length-value elements: identifier octets (ITU-T X.690 section 8.1.2),
    definite lengths in their shortest form (sections 8.1.3 and 10.1). */
module Der {
  import opened Common
  import opened Bytes

  // ---- Lengths ----

  /** The base-256 digits of `n`, most significant first. */
  function BigEndian(n: nat): bytes {
    if n == 0 then [] else BigEndian(n / 256) + [n % 256]
  }

  function FromBigEndian(s: bytes): nat {
    if s == [] then 0 else 256 * FromBigEndian(s[..|s| - 1]) + s[|s| - 1]
  }

  lemma {:induction false} DigitsRoundTrip(n: nat)
    ensures FromBigEndian(BigEndian(n)) == n
    ensures n > 0 ==> BigEndian(n) != [] && BigEndian(n)[0] != 0
  {
    if n > 0 {
      DigitsRoundTrip(n / 256);
      assert BigEndian(n)[..|BigEndian(n)| - 1] == BigEndian(n / 256);
    }
  }

  lemma {:induction false} MoreDigits(a: nat, b: nat)
    requires a <= b
    ensures |BigEndian(a)| <= |BigEndian(b)|
  {
    if a > 0 {
      MoreDigits(a / 256, b / 256);
    }
  }

  /** The lengths the definite form can express: 126 subsequent octets at most. */
  predicate Encodable(n: nat) { |BigEndian(n)| <= 126 }

  function EncodeLength(n: nat): bytes {
    if n < 128 then [n] else [(128 + |BigEndian(n)|) % 256] + BigEndian(n)
  }

  /** The octets of a length: itself below 128, else how many octets follow, plus 128,
      and its base-256 digits, the last of which is the remainder by 256. */
  lemma LengthOctets(n: nat)
    requires Encodable(n)
    ensures n < 128 ==> EncodeLength(n) == [n]
    ensures 128 <= n < 256 ==> EncodeLength(n) == [0x81, n]
    ensures 256 <= n ==>
              var digits := EncodeLength(n)[1..];
              && EncodeLength(n) == [128 + |digits|] + digits
              && digits == (if n < 32768 then [n / 256] else EncodeLength(n / 256)[1..]) + [n % 256]
  {
    assert n / 256 > 0 ==> |BigEndian(n)| == |BigEndian(n / 256)| + 1;
    assert 0 < n < 256 ==> BigEndian(n / 256) == [] && BigEndian(n) == [n];
    if 256 <= n < 32768 {
      assert BigEndian(n / 256 / 256) == [] && BigEndian(n / 256) == [n / 256];
    }
  }

  /** A length at the head of `s`: the octets it takes and its value. Indefinite,
      reserved, cut off and longer than necessary forms are refused. */
  function ParseLength(s: bytes): Option<(nat, nat)> {
    if s == [] then None
    else if s[0] < 128 then Some((1, s[0]))
    else
      var n := s[0] - 128;
      if n == 0 || n == 127 || |s| < 1 + n || s[1] == 0 then None
      else
        var value := FromBigEndian(s[1..1 + n]);
        if value < 128 then None else Some((1 + n, value))
  }

  /** Short and long form alike, a length reads back, whatever follows it. */
  lemma LengthRoundTrip(n: nat, rest: bytes)
    requires Encodable(n)
    ensures ParseLength(EncodeLength(n) + rest) == Some((|EncodeLength(n)|, n))
  {
    hide BigEndian;
    hide FromBigEndian;
    var digits := BigEndian(n);
    if n >= 128 {
      DigitsRoundTrip(n);
      var s := EncodeLength(n) + rest;
      assert s == [128 + |digits|] + (digits + rest);
      assert s[1..1 + |digits|] == digits;
      assert s[1] == digits[0];
    }
  }

  lemma {:induction false} DigitsCanonical(s: bytes)
    requires s == [] || s[0] != 0
    ensures BigEndian(FromBigEndian(s)) == s
    ensures s != [] ==> FromBigEndian(s) > 0
    decreases |s|
  {
    if s != [] {
      var init, last := s[..|s| - 1], s[|s| - 1];
      DigitsCanonical(init);
      var n := FromBigEndian(init);
      assert FromBigEndian(s) == 256 * n + last;
      assert (256 * n + last) / 256 == n && (256 * n + last) % 256 == last;
      assert s == init + [last];
    }
  }

  /** Each length has one encoding: whatever the parser accepts, the encoder wrote. */
  lemma LengthIsCanonical(s: bytes)
    requires ParseLength(s).Some?
    ensures var (k, n) := ParseLength(s).value; k <= |s| && s[..k] == EncodeLength(n)
  {
    if s[0] >= 128 {
      hide BigEndian;
      hide FromBigEndian;
      var k := 1 + (s[0] - 128);
      DigitsCanonical(s[1..k]);
      assert s[..k] == [s[0]] + s[1..k];
    }
  }

  lemma ParseLengthLocal(s: bytes, t: bytes)
    requires ParseLength(s).Some?
    requires ParseLength(s).value.0 <= |t| && t[..ParseLength(s).value.0] == s[..ParseLength(s).value.0]
    ensures ParseLength(t) == ParseLength(s)
  {
    var n := ParseLength(s).value.0;
    assert t[0] == t[..n][0] == s[..n][0] == s[0];
    if s[0] >= 128 {
      assert t[1] == t[..n][1] == s[..n][1] == s[1];
      assert t[1..n] == t[..n][1..] == s[..n][1..] == s[1..n];
    }
  }

  // ---- Identifiers ----

  /** Octets up to and including the first below 128. */
  function TagOctets(s: bytes): Option<nat> {
    if s == [] then None
    else if s[0] < 128 then Some(1)
    else
      match TagOctets(s[1..])
      case None => None
      case Some(n) => Some(n + 1)
  }

  /** How many identifier octets `s` starts with: one, or more for a tag number of
      31 and above, whose first subsequent octet is never 0x80. */
  function ParseIdentifier(s: bytes): Option<nat> {
    if s == [] then None
    else if s[0] % 32 != 31 then Some(1)
    else if |s| == 1 || s[1] == 128 then None
    else
      match TagOctets(s[1..])
      case None => None
      case Some(n) => Some(n + 1)
  }

  lemma {:induction false} TagOctetsLocal(s: bytes, t: bytes)
    requires TagOctets(s).Some?
    ensures 0 < TagOctets(s).value <= |s|
    ensures TagOctets(s).value <= |t| && t[..TagOctets(s).value] == s[..TagOctets(s).value] ==>
              TagOctets(t) == TagOctets(s)
    decreases |s|
  {
    var n := TagOctets(s).value;
    if s[0] >= 128 {
      TagOctetsLocal(s[1..], if t == [] then [] else t[1..]);
    }
    if n <= |t| && t[..n] == s[..n] {
      assert t[0] == t[..n][0] == s[..n][0] == s[0];
      if s[0] >= 128 {
        assert t[1..][..n - 1] == t[..n][1..] == s[..n][1..] == s[1..][..n - 1];
      }
    }
  }

  lemma ParseIdentifierLocal(s: bytes, t: bytes)
    requires ParseIdentifier(s).Some?
    ensures 0 < ParseIdentifier(s).value <= |s|
    ensures ParseIdentifier(s).value <= |t| && t[..ParseIdentifier(s).value] == s[..ParseIdentifier(s).value] ==>
              ParseIdentifier(t) == ParseIdentifier(s)
  {
    var n := ParseIdentifier(s).value;
    if s[0] % 32 == 31 {
      TagOctetsLocal(s[1..], if t == [] then [] else t[1..]);
    }
    if n <= |t| && t[..n] == s[..n] {
      assert t[0] == t[..n][0] == s[..n][0] == s[0];
      if s[0] % 32 == 31 {
        assert t[1] == t[..n][1] == s[..n][1] == s[1];
        assert t[1..][..n - 1] == t[..n][1..] == s[..n][1..] == s[1..][..n - 1];
      }
    }
  }

  // ---- Elements ----

  /** One element: identifier octet, length, content. */
  function Tlv(tag: byte, content: bytes): bytes {
    [tag] + EncodeLength(|content|) + content
  }

  /** The first element of `s`, as a header of `header` octets and `content` more. */
  function ParseHeader(s: bytes): Option<(nat, nat)> {
    match ParseIdentifier(s)
    case None => None
    case Some(i) =>
      if i > |s| then None
      else
        match ParseLength(s[i..])
        case None => None
        case Some((l, n)) => if i + l + n > |s| then None else Some((i + l, n))
  }

  datatype Element = Element(full: bytes, content: bytes, rest: bytes)

  function ParseTlv(s: bytes): Option<Element> {
    match ParseHeader(s)
    case None => None
    case Some((h, n)) => if h + n > |s| then None else Some(Element(s[..h + n], s[h..h + n], s[h + n..]))
  }

  /** `s` is one complete element and nothing else. */
  predicate OneTlv(s: bytes) {
    ParseTlv(s).Some? && ParseTlv(s).value.rest == []
  }

  lemma HeaderIsPositive(s: bytes)
    requires ParseHeader(s).Some?
    ensures 0 < ParseHeader(s).value.0 && ParseHeader(s).value.0 + ParseHeader(s).value.1 <= |s|
  {
    ParseIdentifierLocal(s, s);
  }

  /** Parsing looks at the element alone: it does not depend on what follows. */
  lemma ParseIsLocal(s: bytes, t: bytes)
    requires ParseTlv(s).Some?
    requires |ParseTlv(s).value.full| <= |t| && t[..|ParseTlv(s).value.full|] == ParseTlv(s).value.full
    ensures var e := ParseTlv(s).value; ParseTlv(t) == Some(Element(e.full, e.content, t[|e.full|..]))
  {
    var (h, n) := ParseHeader(s).value;
    var i := ParseIdentifier(s).value;
    HeaderIsPositive(s);
    ParseIdentifierLocal(s, t);
    SameSlice(s, t, h + n, 0, i);
    SameSlice(s, t, h + n, i, h);
    SameSlice(s, t, h + n, h, h + n);
    assert t[..i] == t[0..i] && s[..i] == s[0..i];
    DropThenTake(s, i, h);
    DropThenTake(t, i, h);
    ParseLengthLocal(s[i..], t[i..]);
  }

  lemma DropThenTake(s: bytes, a: nat, b: nat)
    requires a <= b <= |s|
    ensures s[a..][..b - a] == s[a..b]
  {
  }

  lemma SameSlice(s: bytes, t: bytes, k: nat, a: nat, b: nat)
    requires a <= b <= k <= |s| && k <= |t| && t[..k] == s[..k]
    ensures t[a..b] == s[a..b]
  {
    assert t[a..b] == t[..k][a..b] && s[a..b] == s[..k][a..b];
  }

  /** An encoded element reads back, whatever follows it. */
  lemma TlvRoundTrip(tag: byte, content: bytes, rest: bytes)
    requires tag % 32 != 31 && Encodable(|content|)
    ensures ParseTlv(Tlv(tag, content) + rest) == Some(Element(Tlv(tag, content), content, rest))
  {
    var s := Tlv(tag, content) + rest;
    assert s[1..] == EncodeLength(|content|) + (content + rest);
    LengthRoundTrip(|content|, content + rest);
    var h := 1 + |EncodeLength(|content|)|;
    assert s[..h + |content|] == Tlv(tag, content);
    assert s[h..h + |content|] == content;
    assert s[h + |content|..] == rest;
  }

  // ---- Sequences of elements ----

  function Concat(list: seq<bytes>): bytes {
    if list == [] then [] else list[0] + Concat(list[1..])
  }

  /** The elements `s` is made of, None if it is not a sequence of elements. */
  function Split(s: bytes): Option<seq<bytes>>
    decreases |s|
  {
    if s == [] then Some([])
    else
      match ParseTlv(s)
      case None => None
      case Some(e) =>
        if |e.rest| >= |s| then None
        else
          match Split(e.rest)
          case None => None
          case Some(list) => Some([e.full] + list)
  }

  lemma {:induction false} SplitOfConcat(list: seq<bytes>)
    requires forall c | c in list :: OneTlv(c)
    ensures Split(Concat(list)) == Some(list)
    decreases |list|
  {
    if list != [] {
      var c, tail := list[0], Concat(list[1..]);
      assert c in list;
      HeaderIsPositive(c);
      var e := ParseTlv(c).value;
      assert c == e.full;
      assert (c + tail)[..|c|] == c && (c + tail)[|c|..] == tail;
      ParseIsLocal(c, c + tail);
      SplitOfConcat(list[1..]);
      assert [c] + list[1..] == list;
    }
  }

  lemma {:induction false} SplitYieldsElements(s: bytes)
    requires Split(s).Some?
    ensures forall c | c in Split(s).value :: OneTlv(c)
    decreases |s|
  {
    if s != [] {
      var e := ParseTlv(s).value;
      assert e.full[..|e.full|] == e.full;
      ParseIsLocal(s, e.full);
      SplitYieldsElements(e.rest);
    }
  }
}
