/** Python's `urllib.parse.quote(s, safe='')`: the text is encoded as UTF-8
    and every byte outside the unreserved set of section 2.3 of RFC 3986
    (`A-Z a-z 0-9 - . _ ~`) is written as `%XX` with upper-case hexadecimal
    digits (section 2.1 of RFC 3986). With `safe=''` not even `/` is kept. */
module PercentEncoding {
  import opened Wrappers

  type Byte = x: int | 0 <= x < 256

  /** The unreserved characters of RFC 3986, the only ones `quote` keeps. */
  predicate IsUnreservedChar(c: char)
  {
    ('A' <= c <= 'Z') || ('a' <= c <= 'z') || ('0' <= c <= '9') || c == '-' || c == '.' || c == '_' || c == '~'
  }

  predicate IsUnreservedByte(b: Byte)
  {
    b < 128 && IsUnreservedChar(b as char)
  }

  /** The UTF-8 encoding of one Unicode scalar value. */
  function Utf8Char(c: char): (bs: seq<Byte>)
    ensures 1 <= |bs| <= 4
    ensures c as int < 128 ==> bs == [c as int]
    ensures c as int >= 128 ==> |bs| >= 2 && forall k :: 0 <= k < |bs| ==> bs[k] >= 128
  {
    var n := c as int;
    if n < 0x80 then [n]
    else if n < 0x800 then [0xC0 + n / 64, 0x80 + n % 64]
    else if n < 0x1_0000 then [0xE0 + n / 4096, 0x80 + (n / 64) % 64, 0x80 + n % 64]
    else [0xF0 + n / 262144, 0x80 + (n / 4096) % 64, 0x80 + (n / 64) % 64, 0x80 + n % 64]
  }

  /** The UTF-8 encoding of a string (`s.encode('utf-8')`). */
  function Utf8(s: string): (bs: seq<Byte>)
    ensures |bs| >= |s|
  {
    if s == [] then [] else Utf8Char(s[0]) + Utf8(s[1..])
  }

  function HexDigit(d: nat): (c: char)
    requires d < 16
    ensures ('0' <= c <= '9') || ('A' <= c <= 'F')
  {
    "0123456789ABCDEF"[d]
  }

  /** The value of a hexadecimal digit of either case, as `unquote` reads it. */
  function HexValue(c: char): (r: Option<nat>)
    ensures r.Some? ==> r.value < 16
  {
    if '0' <= c <= '9' then Some(c as int - '0' as int)
    else if 'A' <= c <= 'F' then Some(c as int - 'A' as int + 10)
    else if 'a' <= c <= 'f' then Some(c as int - 'a' as int + 10)
    else None
  }

  lemma HexValueOfDigit(d: nat)
    requires d < 16
    ensures HexValue(HexDigit(d)) == Some(d)
  {
  }

  /** One byte as `quote` writes it. */
  function QuoteByte(b: Byte): (r: string)
    ensures IsUnreservedByte(b) ==> r == [b as char]
    ensures !IsUnreservedByte(b) ==> |r| == 3 && r[0] == '%'
  {
    if IsUnreservedByte(b) then [b as char] else ['%', HexDigit(b / 16), HexDigit(b % 16)]
  }

  function QuoteBytes(bs: seq<Byte>): (r: string)
    ensures forall i :: 0 <= i < |r| ==> IsUnreservedChar(r[i]) || r[i] == '%'
  {
    if bs == [] then [] else QuoteByte(bs[0]) + QuoteBytes(bs[1..])
  }

  /** `quote(s, safe='')`. The result is plain URL text: unreserved
      characters and `%` only (the hexadecimal digits are unreserved). */
  function Quote(s: string): (r: string)
    ensures forall i :: 0 <= i < |r| ==> IsUnreservedChar(r[i]) || r[i] == '%'
  {
    QuoteBytes(Utf8(s))
  }

  /** The partner of `Quote`: percent-decoding back to bytes, failing on a
      character that `Quote` never writes unencoded. */
  function PercentDecode(r: string): (bs: Option<seq<Byte>>)
    decreases |r|
  {
    if r == [] then Some([])
    else if r[0] == '%' && |r| >= 3 && HexValue(r[1]).Some? && HexValue(r[2]).Some? then
      match PercentDecode(r[3..])
      case None => None
      case Some(rest) => Some([HexValue(r[1]).value * 16 + HexValue(r[2]).value] + rest)
    else if r[0] as int < 128 && IsUnreservedChar(r[0]) then
      match PercentDecode(r[1..])
      case None => None
      case Some(rest) => Some([r[0] as int] + rest)
    else None
  }

  /** Prepending a byte to a decoded tail. */
  function Prepend(b: seq<Byte>, d: Option<seq<Byte>>): Option<seq<Byte>>
  {
    match d
    case None => None
    case Some(rest) => Some(b + rest)
  }

  lemma DecodeQuoteByte(b: Byte, rest: string)
    ensures PercentDecode(QuoteByte(b) + rest) == Prepend([b], PercentDecode(rest))
  {
    var r := QuoteByte(b) + rest;
    if IsUnreservedByte(b) {
      assert r[0] == b as char && r[1..] == rest;
    } else {
      HexValueOfDigit(b / 16);
      HexValueOfDigit(b % 16);
      assert r[0] == '%' && r[1] == HexDigit(b / 16) && r[2] == HexDigit(b % 16) && r[3..] == rest;
    }
  }

  lemma PrependPrepend(a: seq<Byte>, b: seq<Byte>, d: Option<seq<Byte>>)
    ensures Prepend(a, Prepend(b, d)) == Prepend(a + b, d)
  {
    match d
    case None =>
    case Some(rest) => assert a + (b + rest) == (a + b) + rest;
  }

  lemma {:induction false} DecodeQuoteBytes(bs: seq<Byte>, rest: string)
    ensures PercentDecode(QuoteBytes(bs) + rest) == Prepend(bs, PercentDecode(rest))
  {
    if bs == [] {
      assert QuoteBytes(bs) + rest == rest;
      match PercentDecode(rest)
      case None =>
      case Some(d) => assert bs + d == d;
    } else {
      var tail := QuoteBytes(bs[1..]) + rest;
      calc {
        PercentDecode(QuoteBytes(bs) + rest);
        { assert QuoteBytes(bs) + rest == QuoteByte(bs[0]) + tail; }
        PercentDecode(QuoteByte(bs[0]) + tail);
        { DecodeQuoteByte(bs[0], tail); }
        Prepend([bs[0]], PercentDecode(tail));
        { DecodeQuoteBytes(bs[1..], rest); }
        Prepend([bs[0]], Prepend(bs[1..], PercentDecode(rest)));
        { PrependPrepend([bs[0]], bs[1..], PercentDecode(rest));
          assert [bs[0]] + bs[1..] == bs; }
        Prepend(bs, PercentDecode(rest));
      }
    }
  }

  /** Percent-encoding loses nothing: decoding the quoted title gives back its
      UTF-8 bytes exactly. */
  lemma QuoteRoundTrip(s: string)
    ensures PercentDecode(Quote(s)) == Some(Utf8(s))
  {
    DecodeQuoteBytes(Utf8(s), []);
    assert QuoteBytes(Utf8(s)) + [] == Quote(s);
    assert Utf8(s) + [] == Utf8(s);
  }

  lemma QuoteBytesAppend(a: seq<Byte>, b: seq<Byte>)
    ensures QuoteBytes(a + b) == QuoteBytes(a) + QuoteBytes(b)
  {
    if a == [] {
      assert a + b == b;
    } else {
      assert (a + b)[0] == a[0] && (a + b)[1..] == a[1..] + b;
      QuoteBytesAppend(a[1..], b);
    }
  }

  /** One character quotes to a single character exactly when it is unreserved,
      and to at least one character in any case. */
  lemma QuoteCharLength(c: char)
    ensures |QuoteBytes(Utf8Char(c))| >= 1
    ensures |QuoteBytes(Utf8Char(c))| == 1 <==> IsUnreservedChar(c)
    ensures IsUnreservedChar(c) ==> QuoteBytes(Utf8Char(c)) == [c]
  {
    var bs := Utf8Char(c);
    if c as int < 128 {
      assert bs == [c as int];
      assert QuoteBytes(bs) == QuoteByte(c as int);
    } else {
      assert bs == [bs[0]] + bs[1..];
      QuoteBytesAppend([bs[0]], bs[1..]);
      assert QuoteBytes([bs[0]]) == QuoteByte(bs[0]);
      assert !IsUnreservedByte(bs[0]);
      assert !IsUnreservedChar(c);
    }
  }

  /** A title is left as it is by `quote(…, safe='')` exactly when every
      character is unreserved; anything else (a space, `&`, `/`, a non-ASCII
      letter) changes it. */
  lemma {:induction false} QuoteIdentity(s: string)
    ensures |Quote(s)| >= |s|
    ensures Quote(s) == s <==> forall i :: 0 <= i < |s| ==> IsUnreservedChar(s[i])
  {
    if s == [] {
    } else {
      QuoteIdentity(s[1..]);
      QuoteCharLength(s[0]);
      QuoteBytesAppend(Utf8Char(s[0]), Utf8(s[1..]));
      assert Quote(s) == QuoteBytes(Utf8Char(s[0])) + Quote(s[1..]);
      if forall i :: 0 <= i < |s| ==> IsUnreservedChar(s[i]) {
        assert forall i :: 0 <= i < |s[1..]| ==> IsUnreservedChar(s[1..][i]);
        assert Quote(s) == [s[0]] + s[1..] == s;
      }
      if Quote(s) == s {
        assert |QuoteBytes(Utf8Char(s[0]))| == 1;
        assert Quote(s[1..]) == s[1..];
      }
    }
  }

  /** A non-empty title has a non-empty quoted form. */
  lemma QuoteNonEmpty(s: string)
    requires s != []
    ensures Quote(s) != []
  {
    QuoteIdentity(s);
  }

  lemma Utf8Append(a: string, b: string)
    ensures Utf8(a + b) == Utf8(a) + Utf8(b)
  {
    if a == [] {
      assert a + b == b;
    } else {
      assert (a + b)[0] == a[0] && (a + b)[1..] == a[1..] + b;
      Utf8Append(a[1..], b);
    }
  }

  /** Quoting works piece by piece. */
  lemma QuoteAppend(a: string, b: string)
    ensures Quote(a + b) == Quote(a) + Quote(b)
  {
    Utf8Append(a, b);
    QuoteBytesAppend(Utf8(a), Utf8(b));
  }

  /** A space is written as `%20`. */
  lemma QuoteOfSpace(sp: string)
    requires sp == " "
    ensures Quote(sp) == "%20"
  {
    assert Utf8(sp) == [32];
    assert QuoteBytes([32]) == QuoteByte(32) + QuoteBytes([]);
  }

  /** `my` and `file.docx` are made of unreserved characters only, and a
      space separates them. */
  lemma QuoteSpaceExampleParts(s: string)
    requires s == "my file.docx"
    ensures Quote(s[..2]) == s[..2] && Quote(s[3..]) == s[3..]
    ensures s[2..3] == " "
  {
    var a, b := s[..2], s[3..];
    assert forall i :: 0 <= i < |a| ==> IsUnreservedChar(a[i]);
    QuoteIdentity(a);
    assert forall i :: 0 <= i < |b| ==> IsUnreservedChar(b[i]);
    QuoteIdentity(b);
  }

  /** Example: `my file.docx` is quoted as `my%20file.docx`. */
  lemma QuoteSpaceExample(s: string)
    requires s == "my file.docx"
    ensures Quote(s) == "my%20file.docx"
  {
    var a, sp, b := s[..2], s[2..3], s[3..];
    calc {
      Quote(s);
      { assert s == a + sp + b; }
      Quote(a + sp + b);
      { QuoteAppend(a + sp, b); QuoteAppend(a, sp); }
      Quote(a) + Quote(sp) + Quote(b);
      { QuoteSpaceExampleParts(s); QuoteOfSpace(sp); }
      a + "%20" + b;
    }
  }


}
