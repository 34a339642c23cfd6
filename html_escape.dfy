/** Python's `html.escape(s)` (quote=True): the five characters that are
    special in HTML markup and in attribute values are replaced by character
    references, as listed in section 13.1.4 of the WHATWG HTML Standard. */
module HtmlEscape {

  /** The characters `html.escape` rewrites. */
  predicate IsSpecial(c: char)
  {
    c == '&' || c == '<' || c == '>' || c == '"' || c == '\''
  }

  /** The character reference written for one character; other characters
      stand for themselves. */
  function EscapeChar(c: char): (r: string)
    ensures |r| >= 1
    ensures !IsSpecial(c) <==> r == [c]
  {
    match c
    case '&' => "&amp;"
    case '<' => "&lt;"
    case '>' => "&gt;"
    case '"' => "&quot;"
    case '\'' => "&#x27;"
    case _ => [c]
  }

  /** `html.escape(s)`. Replacing `&` first and then the other four, as the
      library does, is the same as rewriting each character on its own. */
  function Escape(s: string): (r: string)
    ensures |r| >= |s|
  {
    if s == [] then [] else EscapeChar(s[0]) + Escape(s[1..])
  }

  lemma EscapeAppend(a: string, b: string)
    ensures Escape(a + b) == Escape(a) + Escape(b)
  {
    if a != [] {
      calc {
        Escape(a + b);
        { assert (a + b)[0] == a[0] && (a + b)[1..] == a[1..] + b; }
        EscapeChar(a[0]) + Escape(a[1..] + b);
        { EscapeAppend(a[1..], b); }
        EscapeChar(a[0]) + (Escape(a[1..]) + Escape(b));
      }
    } else {
      assert a + b == b;
    }
  }

  /** The escaped form never contains a raw `<`, `>`, `"` or `'`. */
  lemma {:induction false} EscapeLeavesNoMarkup(s: string)
    ensures forall i :: 0 <= i < |Escape(s)| ==> Escape(s)[i] !in "<>\"'"
  {
    if s != [] {
      EscapeLeavesNoMarkup(s[1..]);
    }
  }

  /** A title with none of the five characters is its own escaped form, and
      only such a title is. */
  lemma {:induction false} EscapeIdentity(s: string)
    ensures Escape(s) == s <==> forall i :: 0 <= i < |s| ==> !IsSpecial(s[i])
  {
    if s != [] {
      EscapeIdentity(s[1..]);
      if Escape(s) == s {
        // EscapeChar(s[0]) is a prefix of s, and Escape(s[1..]) is at least |s| - 1 long
        assert |EscapeChar(s[0])| == 1;
        assert EscapeChar(s[0]) == [s[0]];
        assert Escape(s[1..]) == s[1..];
      }
    }
  }

  /** Decoder for exactly the five references `Escape` writes; the reference
      partner against which `Escape` is checked (it is not `html.unescape`). */
  function DecodeFive(r: string): (s: string)
    decreases |r|
  {
    if r == [] then []
    else if "&amp;" <= r then ['&'] + DecodeFive(r[5..])
    else if "&lt;" <= r then ['<'] + DecodeFive(r[4..])
    else if "&gt;" <= r then ['>'] + DecodeFive(r[4..])
    else if "&quot;" <= r then ['"'] + DecodeFive(r[6..])
    else if "&#x27;" <= r then ['\''] + DecodeFive(r[6..])
    else [r[0]] + DecodeFive(r[1..])
  }

  /** `&`, `<` and `>`: the first three references the decoder tries. */
  lemma DecodeEscapeAngle(c: char, rest: string)
    requires c == '&' || c == '<' || c == '>'
    ensures DecodeFive(EscapeChar(c) + rest) == [c] + DecodeFive(rest)
  {
    var r := EscapeChar(c) + rest;
    if c == '&' {
      assert "&amp;" <= r && r[5..] == rest;
    } else if c == '<' {
      assert r[1] == 'l' && "&lt;" <= r && r[4..] == rest;
    } else {
      assert r[1] == 'g' && "&gt;" <= r && r[4..] == rest;
    }
  }

  /** `"` and `'`: the last two references the decoder tries. */
  lemma DecodeEscapeQuote(c: char, rest: string)
    requires c == '"' || c == '\''
    ensures DecodeFive(EscapeChar(c) + rest) == [c] + DecodeFive(rest)
  {
    var r := EscapeChar(c) + rest;
    if c == '"' {
      assert r[1] == 'q' && "&quot;" <= r && r[6..] == rest;
    } else {
      assert r[1] == '#' && "&#x27;" <= r && r[6..] == rest;
    }
  }

  lemma DecodeEscapeChar(c: char, rest: string)
    ensures DecodeFive(EscapeChar(c) + rest) == [c] + DecodeFive(rest)
  {
    if c == '&' || c == '<' || c == '>' {
      DecodeEscapeAngle(c, rest);
    } else if c == '"' || c == '\'' {
      DecodeEscapeQuote(c, rest);
    } else {
      var r := EscapeChar(c) + rest;
      assert r[0] == c && r[1..] == rest;
    }
  }

  /** Escaping loses nothing: decoding the five references gives the title back.
      Hence two different titles never share an escaped form. */
  lemma {:induction false} EscapeRoundTrip(s: string)
    ensures DecodeFive(Escape(s)) == s
  {
    if s != [] {
      DecodeEscapeChar(s[0], Escape(s[1..]));
      EscapeRoundTrip(s[1..]);
    }
  }

  lemma EscapeInjective(s: string, t: string)
    requires Escape(s) == Escape(t)
    ensures s == t
  {
    EscapeRoundTrip(s);
    EscapeRoundTrip(t);
  }

  /** Example: `A&B.pdf` escapes to `A&amp;B.pdf`. */
  lemma EscapeAmpersandExample(s: string)
    requires s == "A&B.pdf"
    ensures Escape(s) == "A&amp;B.pdf"
  {
    var a, amp, b := s[..1], s[1..2], s[2..];
    calc {
      Escape(s);
      { assert s == a + amp + b; }
      Escape(a + amp + b);
      { EscapeAppend(a + amp, b); EscapeAppend(a, amp); }
      Escape(a) + Escape(amp) + Escape(b);
      { assert forall i :: 0 <= i < |a| ==> !IsSpecial(a[i]);
        EscapeIdentity(a); }
      a + Escape(amp) + Escape(b);
      { assert forall i :: 0 <= i < |b| ==> !IsSpecial(b[i]);
        EscapeIdentity(b); }
      a + Escape(amp) + b;
      { assert amp == ['&'];
        assert Escape(amp) == EscapeChar('&') + Escape([]); }
      a + "&amp;" + b;
    }
  }
}
