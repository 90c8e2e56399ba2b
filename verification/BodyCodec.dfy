/** The EST body codec: base64Lines, stripASCIIWhitespace and readCSR of
    internal/est/handler.go. */
module BodyCodec {
  import opened Common
  import opened Bytes
  import opened Base64
  import Der

  const LF: byte := 10
  const LINE: nat := 64

  predicate IsWhitespace(c: byte) { c == 32 || c == 9 || c == 13 || c == 10 }

  function Strip(s: bytes): bytes {
    if s == [] then []
    else Strip(s[..|s| - 1]) + if IsWhitespace(s[|s| - 1]) then [] else [s[|s| - 1]]
  }

  /** Stripping drops each space, tab, line feed and carriage return, wherever it stands,
      and nothing else. */
  lemma StripMeaning(before: bytes, c: byte, after: bytes)
    ensures Strip([]) == []
    ensures Strip(before + [c] + after) == Strip(before) + (if c in {32, 9, 10, 13} then [] else [c]) + Strip(after)
  {
    StripAppend(before + [c], after);
    StripAppend(before, [c]);
    assert [c][..0] == [];
  }

  method StripASCIIWhitespace(b: bytes) returns (out: bytes)
    ensures out == Strip(b)
  {
    out := [];
    for i := 0 to |b|
      invariant out == Strip(b[..i])
    {
      assert b[..i + 1][..i] == b[..i];
      if !IsWhitespace(b[i]) {
        out := out + [b[i]];
      }
    }
    assert b[..|b|] == b;
  }

  function Wrap(enc: bytes): bytes {
    if |enc| > LINE then enc[..LINE] + [LF] + Wrap(enc[LINE..]) else enc + [LF]
  }

  method Base64Lines(der: bytes) returns (b: bytes)
    ensures b == Wrap(Encode(der))
  {
    var enc := Encode(der);
    b := [];
    while |enc| > LINE
      invariant b + Wrap(enc) == Wrap(Encode(der))
      decreases |enc|
    {
      assert b + (enc[..LINE] + [LF] + Wrap(enc[LINE..])) == b + enc[..LINE] + [LF] + Wrap(enc[LINE..]);
      b := b + enc[..LINE] + [LF];
      enc := enc[LINE..];
    }
    b := b + enc + [LF];
  }

  datatype ReadError = TooLarge | EmptyBody | BadBase64

  /** readCSR on a body that could be read; `base64` says whether the transfer
      encoding header announces it. */
  function ReadCSR(maxReq: nat, base64: bool, raw: bytes): Result<bytes, ReadError> {
    if |raw| > maxReq then Err(TooLarge)
    else if raw == [] then Err(EmptyBody)
    else
      match (base64, Decode(Strip(raw)))
      case (true, None) => Err(BadBase64)
      case (true, Some(d)) => Ok(d)
      case (false, None) => Ok(raw)
      case (false, Some(d)) => if d != [] then Ok(d) else Ok(raw)
  }

  /** What readCSR refuses and returns, in terms of the octets left when blanks are
      dropped: an announced body must be base64; any other is refused for its size
      alone. */
  lemma ReadsExactlyWhen(maxReq: nat, base64: bool, raw: bytes)
    ensures ReadCSR(maxReq, base64, raw) == Err(TooLarge) <==> maxReq < |raw|
    ensures ReadCSR(maxReq, base64, raw) == Err(EmptyBody) <==> raw == []
    ensures ReadCSR(maxReq, base64, raw) == Err(BadBase64) <==>
            && 0 < |raw| <= maxReq && base64
            && var solid := Strip(raw);
               !(|solid| % 4 == 0 && (Padded(solid, 0) || Padded(solid, 1) || Padded(solid, 2)))
    ensures ReadCSR(maxReq, base64, raw).Ok? ==>
              || Decode(Strip(raw)) == Some(ReadCSR(maxReq, base64, raw).value)
              || (!base64 && ReadCSR(maxReq, base64, raw).value == raw)
  {
    hide Strip, Decode, Padded;
    DecodesExactlyWhen(Strip(raw));
  }

  // ---- Round trips ----

  lemma {:induction false} StripAppend(a: bytes, b: bytes)
    ensures Strip(a + b) == Strip(a) + Strip(b)
    decreases |b|
  {
    if b == [] {
      assert a + b == a;
    } else {
      var init := b[..|b| - 1];
      assert (a + b)[..|a + b| - 1] == a + init;
      StripAppend(a, init);
    }
  }

  lemma {:induction false} StripKeepsSolid(s: bytes)
    requires forall c | c in s :: !IsWhitespace(c)
    ensures Strip(s) == s
  {
    if s != [] {
      StripKeepsSolid(s[..|s| - 1]);
      assert s == s[..|s| - 1] + [s[|s| - 1]];
    }
  }

  lemma {:induction false} StripUndoesWrap(enc: bytes)
    requires forall c | c in enc :: !IsWhitespace(c)
    ensures Strip(Wrap(enc)) == enc
    decreases |enc|
  {
    assert Strip([LF]) == Strip([]) == [] by {
      assert [LF][..0] == [];
    }
    if |enc| > LINE {
      StripUndoesWrap(enc[LINE..]);
      StripAppend(enc[..LINE] + [LF], Wrap(enc[LINE..]));
      StripAppend(enc[..LINE], [LF]);
      StripKeepsSolid(enc[..LINE]);
      assert enc == enc[..LINE] + enc[LINE..];
    } else {
      StripAppend(enc, [LF]);
      StripKeepsSolid(enc);
    }
  }

  lemma StrippedLines(d: bytes)
    ensures Strip(Wrap(Encode(d))) == Encode(d) && Wrap(Encode(d)) != []
  {
    EncodeStaysInAlphabet(d);
    assert forall c | c in Encode(d) :: InAlphabet(c) && !IsWhitespace(c);
    StripUndoesWrap(Encode(d));
  }

  /** With the header, what base64Lines wrote reads back, for every octet string. */
  lemma AnnouncedLinesReadBack(maxReq: nat, d: bytes)
    requires |Wrap(Encode(d))| <= maxReq
    ensures ReadCSR(maxReq, true, Wrap(Encode(d))) == Ok(d)
  {
    StrippedLines(d);
    RoundTrip(d);
  }

  /** Without the header it still does, exactly when there was something to write. */
  lemma UnannouncedLinesReadBackExactlyWhen(maxReq: nat, d: bytes)
    requires |Wrap(Encode(d))| <= maxReq
    ensures ReadCSR(maxReq, false, Wrap(Encode(d))) == Ok(d) <==> d != []
  {
    StrippedLines(d);
    RoundTrip(d);
  }

  /** Raw octets sent without the header come back unchanged exactly when, blanks
      aside, they do not happen to be base64 for something. */
  lemma RawBodyReadsBackExactlyWhen(maxReq: nat, d: bytes)
    requires 0 < |d| <= maxReq
    ensures ReadCSR(maxReq, false, d) == Ok(d) <==> (Decode(Strip(d)) == None || Decode(Strip(d)) == Some([]))
  {
    StripShrinks(d);
    if Decode(Strip(d)).Some? {
      DecodeShrinks(Strip(d));
    }
  }

  lemma {:induction false} StripShrinks(s: bytes)
    ensures |Strip(s)| <= |s|
    ensures forall c | c in s && !IsWhitespace(c) :: c in Strip(s)
  {
    if s != [] {
      StripShrinks(s[..|s| - 1]);
      assert s == s[..|s| - 1] + [s[|s| - 1]];
    }
  }

  /** One octet outside base64 and blanks is enough, and the length octet of every
      DER SEQUENCE in long form is one. */
  lemma LongFormSequenceReadsBack(maxReq: nat, d: bytes)
    requires 2 <= |d| <= maxReq && d[0] == 0x30 && d[1] >= 128
    ensures ReadCSR(maxReq, false, d) == Ok(d)
  {
    StripShrinks(d);
    assert d[1] in d && !IsWhitespace(d[1]) && d[1] in Strip(d);
    assert !InAlphabet(d[1]);
    if Decode(Strip(d)).Some? {
      DecodeShrinks(Strip(d));
    }
  }

  /** A short-form SEQUENCE holding one primitive of 48 letters A. */
  function Lookalike(): bytes {
    Der.Tlv(0x30, Der.Tlv(0x41, seq(48, _ => 0x41)))
  }

  lemma LookalikeOctets()
    ensures |Lookalike()| == 52 && Lookalike()[0] == 0x30
    ensures forall c | c in Lookalike() :: c in {0x30, 0x32, 0x41}
  {
    var payload: bytes := seq(48, _ => 0x41);
    var inner := Der.Tlv(0x41, payload);
    assert inner == [0x41, 0x30] + payload;
    assert Lookalike() == [0x30, 0x32] + inner;
  }

  lemma LookalikeIsElement()
    ensures Der.OneTlv(Lookalike())
  {
    var inner := Der.Tlv(0x41, seq(48, _ => 0x41));
    assert |inner| == 50;
    Der.MoreDigits(50, 126);
    Der.TlvRoundTrip(0x30, inner, []);
    assert Lookalike() + [] == Lookalike();
  }

  /** A short-form SEQUENCE can be base64 by accident: this one is a complete DER
      element, but reads back as something else. */
  lemma ShortFormSequenceCanBeMistaken()
    ensures exists d: bytes :: Der.OneTlv(d) && d[0] == 0x30 && ReadCSR(|d|, false, d) != Ok(d)
  {
    hide Lookalike;
    LookalikeOctets();
    LookalikeIsElement();
    var d := Lookalike();
    StripKeepsSolid(d);
    WholeQuantaDecode(d);
    assert d != [] && |Decode(d).value| == 39;
  }

  // ---- Line lengths ----

  /** The wrapped text, octet by octet: a line feed after every 64, and at the end. */
  lemma {:induction false} WrapMeaning(enc: bytes, i: nat)
    ensures |Wrap(enc)| == |enc| + 1 + if enc == [] then 0 else (|enc| - 1) / 64
    ensures i < |Wrap(enc)| ==>
              if i % 65 == 64 || i == |Wrap(enc)| - 1 then Wrap(enc)[i] == 10
              else i - i / 65 < |enc| && Wrap(enc)[i] == enc[i - i / 65]
    decreases |enc|
  {
    if |enc| > LINE {
      WrapMeaning(enc[LINE..], if i < 65 then 0 else i - 65);
    }
  }

  /** A line feed among the 65 octets from `i` on. */
  ghost predicate FeedsWithin(s: bytes, i: nat) {
    exists j | i <= j <= i + 64 && j < |s| :: s[j] == 10
  }

  /** No run of 65 octets without a line feed, and one at the end. */
  ghost predicate InShortLines(s: bytes) {
    && (forall i: nat | i + 64 < |s| :: FeedsWithin(s, i))
    && s != [] && s[|s| - 1] == 10
  }

  lemma {:induction false} WrapMakesShortLines(enc: bytes)
    ensures InShortLines(Wrap(enc))
    decreases |enc|
  {
    var w := Wrap(enc);
    if |enc| > LINE {
      var tail := Wrap(enc[LINE..]);
      WrapMakesShortLines(enc[LINE..]);
      assert w == enc[..LINE] + [LF] + tail && w[LINE] == LF;
      forall i: nat | i + LINE < |w| ensures FeedsWithin(w, i) {
        if i > LINE {
          assert FeedsWithin(tail, i - LINE - 1);
          var j :| i - LINE - 1 <= j < i && j < |tail| && tail[j] == LF;
          assert w[j + LINE + 1] == LF;
        }
      }
    } else {
      assert w[|enc|] == LF;
    }
  }
}
