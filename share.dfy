/** The share link of `share_results_whatsapp`: a sentence about the test,
    percent-encoded by Python's `urllib.parse.quote` and appended to
    "https://wa.me/?text=". `quote` encodes the text as UTF-8 and keeps
    the unreserved characters of section 2.3 of RFC 3986, and "/", as
    they are; every other byte becomes "%" and two upper-case hexadecimal
    digits, as section 2.1 of RFC 3986 describes. The decoding side,
    `unquote`, is the reference the encoding is proved against. */
module Share {
  import opened Text
  import opened Records

  newtype byte = x: int | 0 <= x < 256

  /** The UTF-8 encoding of one Unicode scalar value. */
  function Utf8(c: char): (bs: seq<byte>)
    ensures 1 <= |bs| <= 4
    ensures (|bs| == 1) == (c as int < 0x80)
  {
    var n := c as int;
    if n < 0x80 then [n as byte]
    else if n < 0x800 then [(0xC0 + n / 64) as byte, (0x80 + n % 64) as byte]
    else if n < 0x10000 then [(0xE0 + n / 4096) as byte, (0x80 + n / 64 % 64) as byte, (0x80 + n % 64) as byte]
    else [(0xF0 + n / 262144) as byte, (0x80 + n / 4096 % 64) as byte, (0x80 + n / 64 % 64) as byte, (0x80 + n % 64) as byte]
  }

  /** `text.encode('utf-8')` */
  function Encode(s: string): (bs: seq<byte>)
    ensures |s| <= |bs| <= 4 * |s|
  {
    if s == [] then [] else Utf8(s[0]) + Encode(s[1..])
  }

  predicate Cont(b: byte) { 0x80 <= b < 0xC0 }

  /** The length of the sequence a lead byte starts, 0 for a byte no
      well-formed sequence starts with. */
  function SeqLength(b: byte): nat
  {
    if b < 0x80 then 1
    else if 0xC2 <= b < 0xE0 then 2
    else if 0xE0 <= b < 0xF0 then 3
    else if 0xF0 <= b < 0xF5 then 4
    else 0
  }

  /** The scalar value a lead byte and its continuation bytes carry. */
  function SeqValue(bs: seq<byte>): int
    requires 1 <= |bs| <= 4
  {
    if |bs| == 1 then bs[0] as int
    else if |bs| == 2 then (bs[0] as int - 0xC0) * 64 + (bs[1] as int - 0x80)
    else if |bs| == 3 then (bs[0] as int - 0xE0) * 4096 + (bs[1] as int - 0x80) * 64 + (bs[2] as int - 0x80)
    else (bs[0] as int - 0xF0) * 262144 + (bs[1] as int - 0x80) * 4096 + (bs[2] as int - 0x80) * 64 + (bs[3] as int - 0x80)
  }

  /** The shortest length that encodes value `v`. */
  function MinLength(v: int): nat
  {
    if v < 0x80 then 1 else if v < 0x800 then 2 else if v < 0x10000 then 3 else 4
  }

  predicate IsScalar(v: int)
  {
    0 <= v < 0xD800 || 0xE000 <= v <= 0x10FFFF
  }

  /** Strict UTF-8 decoding; `None` for malformed input (a stray or
      missing continuation byte, an overlong form, a surrogate, a value
      beyond U+10FFFF). */
  function Decode(bs: seq<byte>): Option<string>
    decreases |bs|
  {
    if bs == [] then Some([])
    else
      var len := SeqLength(bs[0]);
      if len == 0 || |bs| < len || exists i :: 1 <= i < len && !Cont(bs[i]) then None
      else
        var v := SeqValue(bs[..len]);
        if !IsScalar(v) || MinLength(v) != len then None
        else match Decode(bs[len..])
          case None => None
          case Some(rest) => Some([v as char] + rest)
  }

  lemma Utf8Shape(c: char)
    ensures SeqLength(Utf8(c)[0]) == |Utf8(c)|
    ensures forall i :: 1 <= i < |Utf8(c)| ==> Cont(Utf8(c)[i])
    ensures SeqValue(Utf8(c)) == c as int
    ensures MinLength(c as int) == |Utf8(c)|
  {
    var n := c as int;
    if n >= 0x10000 {
      assert n == n / 262144 * 262144 + n / 4096 % 64 * 4096 + n / 64 % 64 * 64 + n % 64;
    } else if n >= 0x800 {
      assert n == n / 4096 * 4096 + n / 64 % 64 * 64 + n % 64;
    }
  }

  /** Decoding reads one encoded character off the front. */
  lemma DecodeCons(c: char, rest: seq<byte>)
    ensures Decode(Utf8(c) + rest) == match Decode(rest) case None => None case Some(t) => Some([c] + t)
  {
    var bs := Utf8(c) + rest;
    var len := |Utf8(c)|;
    Utf8Shape(c);
    assert bs[..len] == Utf8(c);
    assert bs[len..] == rest;
    assert bs[0] == Utf8(c)[0];
    assert forall i :: 1 <= i < len ==> bs[i] == Utf8(c)[i];
  }

  /** `text.encode('utf-8').decode('utf-8') == text` */
  lemma {:induction false} DecodeEncode(s: string)
    ensures Decode(Encode(s)) == Some(s)
  {
    if s != [] {
      DecodeEncode(s[1..]);
      DecodeCons(s[0], Encode(s[1..]));
      assert [s[0]] + s[1..] == s;
    }
  }

  /** The unreserved characters of section 2.3 of RFC 3986, as bytes. */
  predicate Unreserved(b: byte)
  {
    || 'A' as byte <= b <= 'Z' as byte
    || 'a' as byte <= b <= 'z' as byte
    || '0' as byte <= b <= '9' as byte
    || b == '_' as byte || b == '.' as byte || b == '-' as byte || b == '~' as byte
  }

  /** What `quote` leaves alone with its default `safe='/'`. */
  predicate Safe(b: byte)
  {
    Unreserved(b) || b == '/' as byte
  }

  function HexDigit(d: int): (c: char)
    requires 0 <= d < 16
  {
    if d < 10 then ('0' as int + d) as char else ('A' as int + d - 10) as char
  }

  predicate IsHex(c: char)
  {
    '0' <= c <= '9' || 'A' <= c <= 'F' || 'a' <= c <= 'f'
  }

  function HexValue(c: char): (d: int)
    requires IsHex(c)
    ensures 0 <= d < 16
  {
    if c <= '9' then c as int - '0' as int
    else if c <= 'F' then c as int - 'A' as int + 10
    else c as int - 'a' as int + 10
  }

  function QuoteByte(b: byte): string
  {
    if Safe(b) then [b as int as char] else ['%', HexDigit(b as int / 16), HexDigit(b as int % 16)]
  }

  function QuoteBytes(bs: seq<byte>): string
  {
    if bs == [] then [] else QuoteByte(bs[0]) + QuoteBytes(bs[1..])
  }

  /** `urllib.parse.quote(text)` */
  function Quote(s: string): (q: string)
    ensures forall i :: 0 <= i < |q| ==> QuotedChar(q[i])
  {
    QuoteAlphabet(Encode(s));
    QuoteBytes(Encode(s))
  }

  /** `urllib.parse.unquote_to_bytes`: "%" and two hexadecimal digits of
      either case become that byte; any other character stands for its
      own UTF-8 encoding. */
  function UnquoteBytes(s: string): seq<byte>
  {
    if s == [] then []
    else if |s| >= 3 && s[0] == '%' && IsHex(s[1]) && IsHex(s[2]) then
      [(HexValue(s[1]) * 16 + HexValue(s[2])) as byte] + UnquoteBytes(s[3..])
    else Utf8(s[0]) + UnquoteBytes(s[1..])
  }

  /** `urllib.parse.unquote` on text that decodes; `None` where it would
      insert replacement characters. */
  function Unquote(s: string): (r: Option<string>)
    ensures (forall i :: 0 <= i < |s| ==> SafeChar(s[i])) ==> r == Some(s)
  {
    assert (forall i :: 0 <= i < |s| ==> SafeChar(s[i])) ==> Decode(UnquoteBytes(s)) == Some(s) by {
      if forall i :: 0 <= i < |s| ==> SafeChar(s[i]) {
        UnquoteSafeBytes(s);
        DecodeEncode(s);
      }
    }
    Decode(UnquoteBytes(s))
  }

  /** Text made only of characters `quote` keeps has no escapes, so
      unquoting it yields its own encoding. */
  lemma {:induction false} UnquoteSafeBytes(s: string)
    requires forall i :: 0 <= i < |s| ==> SafeChar(s[i])
    ensures UnquoteBytes(s) == Encode(s)
  {
    if s != [] {
      assert s[0] != '%';
      UnquoteSafeBytes(s[1..]);
    }
  }

  lemma UnquoteByte(b: byte, rest: string)
    ensures UnquoteBytes(QuoteByte(b) + rest) == [b] + UnquoteBytes(rest)
  {
    var q := QuoteByte(b) + rest;
    if Safe(b) {
      assert q[0] == b as int as char && q[1..] == rest;
    } else {
      var d1, d2 := b as int / 16, b as int % 16;
      assert q[0] == '%' && q[1] == HexDigit(d1) && q[2] == HexDigit(d2) && q[3..] == rest;
      assert HexValue(HexDigit(d1)) == d1;
      assert HexValue(HexDigit(d2)) == d2;
    }
  }

  /** Unquoting undoes quoting, byte for byte. */
  lemma {:induction false} UnquoteQuoteBytes(bs: seq<byte>)
    ensures UnquoteBytes(QuoteBytes(bs)) == bs
  {
    if bs != [] {
      UnquoteQuoteBytes(bs[1..]);
      UnquoteByte(bs[0], QuoteBytes(bs[1..]));
      assert [bs[0]] + bs[1..] == bs;
    }
  }

  /** `unquote(quote(text)) == text` for every text. */
  lemma QuoteRoundTrip(s: string)
    ensures Unquote(Quote(s)) == Some(s)
  {
    UnquoteQuoteBytes(Encode(s));
    DecodeEncode(s);
  }

  /** The characters quoted text is made of: unreserved characters, "/"
      and "%" (the hexadecimal digits after "%" are among the letters and
      digits). No space, "&", "#" or "=" survives, so the text stays one
      query value. */
  predicate QuotedChar(c: char)
  {
    || 'A' <= c <= 'Z' || 'a' <= c <= 'z' || '0' <= c <= '9'
    || c == '_' || c == '.' || c == '-' || c == '~' || c == '/' || c == '%'
  }

  lemma {:induction false} QuoteAlphabet(bs: seq<byte>)
    ensures forall i :: 0 <= i < |QuoteBytes(bs)| ==> QuotedChar(QuoteBytes(bs)[i])
  {
    if bs != [] {
      QuoteAlphabet(bs[1..]);
      var q := QuoteBytes(bs);
      var head := QuoteByte(bs[0]);
      assert q == head + QuoteBytes(bs[1..]);
      forall i | 0 <= i < |q| ensures QuotedChar(q[i]) {
        if i >= |head| {
          assert q[i] == QuoteBytes(bs[1..])[i - |head|];
        }
      }
    }
  }

  predicate SafeChar(c: char)
  {
    c as int < 0x80 && Safe(c as int as byte)
  }

  /** Text made only of characters `quote` keeps comes out unchanged. */
  lemma {:induction false} QuoteSafeText(s: string)
    requires forall i :: 0 <= i < |s| ==> SafeChar(s[i])
    ensures Quote(s) == s
  {
    if s != [] {
      QuoteSafeText(s[1..]);
      assert Encode(s) == Utf8(s[0]) + Encode(s[1..]);
      assert QuoteBytes(Encode(s)) == QuoteByte(s[0] as int as byte) + QuoteBytes(Encode(s[1..]));
      assert [s[0]] + s[1..] == s;
    }
  }

  /** The message `share_results_whatsapp` announces the test with. */
  function Sentence(t: Test): (s: string)
    ensures |s| >= 17 + |t.name| && s[..17] == "Test results for " && s[17..17 + |t.name|] == t.name
    ensures var tail := " are ready! Max marks: " + IntToString(t.maxMarks);
            |s| >= |tail| && s[|s| - |tail|..] == tail
  {
    var tail := " are ready! Max marks: " + IntToString(t.maxMarks);
    var s := "Test results for " + t.name + " (" + t.classLevel + " class) in " + t.subject + tail;
    assert s == "Test results for " + t.name + (" (" + t.classLevel + " class) in " + t.subject + tail);
    assert s[|s| - |tail|..] == tail;
    s
  }

  const LinkPrefix: string := "https://wa.me/?text="

  /** `f"https://wa.me/?text={quote(text)}"`: the link carries the whole
      sentence, recoverable by unquoting, in characters that need no
      further escaping. */
  function ShareLink(t: Test): (link: string)
    ensures |link| >= |LinkPrefix| && link[..|LinkPrefix|] == LinkPrefix
    ensures Unquote(link[|LinkPrefix|..]) == Some(Sentence(t))
    ensures forall i :: |LinkPrefix| <= i < |link| ==> QuotedChar(link[i])
  {
    var q := Quote(Sentence(t));
    QuoteRoundTrip(Sentence(t));
    QuoteAlphabet(Encode(Sentence(t)));
    var link := LinkPrefix + q;
    assert link[|LinkPrefix|..] == q;
    link
  }

  /** Encoding works character by character, so it distributes over
      concatenation. */
  lemma {:induction false} EncodeAppend(a: string, b: string)
    ensures Encode(a + b) == Encode(a) + Encode(b)
  {
    if a != [] {
      assert (a + b)[0] == a[0] && (a + b)[1..] == a[1..] + b;
      EncodeAppend(a[1..], b);
      assert Encode(a + b) == Utf8(a[0]) + (Encode(a[1..]) + Encode(b));
    } else {
      assert a + b == b;
    }
  }

  /** Quoting works byte by byte, so it distributes over concatenation. */
  lemma {:induction false} QuoteBytesAppend(x: seq<byte>, y: seq<byte>)
    ensures QuoteBytes(x + y) == QuoteBytes(x) + QuoteBytes(y)
  {
    if x != [] {
      assert (x + y)[0] == x[0] && (x + y)[1..] == x[1..] + y;
      QuoteBytesAppend(x[1..], y);
      assert QuoteBytes(x + y) == QuoteByte(x[0]) + (QuoteBytes(x[1..]) + QuoteBytes(y));
    } else {
      assert x + y == y;
    }
  }

  /** `quote` distributes over concatenation. */
  lemma QuoteAppend(a: string, b: string)
    ensures Quote(a + b) == Quote(a) + Quote(b)
  {
    EncodeAppend(a, b);
    QuoteBytesAppend(Encode(a), Encode(b));
  }

  /** Every space reaches the link as "%20", and the text on either side of
      it is quoted as it would be on its own. */
  lemma SpaceEncoded(a: string, b: string)
    ensures Quote(" ") == "%20"
    ensures Quote(a + " " + b) == Quote(a) + "%20" + Quote(b)
  {
    var sp: seq<byte> := [32];
    assert Encode(" ") == sp by {
      assert " "[1..] == "";
    }
    assert sp[1..] == [];
    assert QuoteByte(32) == "%20";
    QuoteAppend(a + " ", b);
    QuoteAppend(a, " ");
  }
}
