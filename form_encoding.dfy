/**
 * The `application/x-www-form-urlencoded` body of a POST (WHATWG URL
 * Standard, section 5.2): each name and value is escaped byte by byte in
 * ISO-8859-1, the pairs are written `name=value` and joined with `&`.
 * Beside the serialiser stands the standard's parser, with ISO-8859-1
 * decoding in place of UTF-8, and the two are proved to be inverse on
 * every ISO-8859-1 list of pairs.
 */
module FormEncoding {

  /** Characters the serialiser copies unchanged: ASCII letters, digits and `*`, `-`, `.`, `_`. */
  predicate Unreserved(c: char) {
    ('a' <= c <= 'z') || ('A' <= c <= 'Z') || ('0' <= c <= '9') || c == '*' || c == '-' || c == '.' || c == '_'
  }

  /** A string made of unreserved characters only. */
  predicate IsPlain(s: string) { forall i :: 0 <= i < |s| ==> Unreserved(s[i]) }

  /** A string every character of which ISO-8859-1 can encode. */
  predicate IsLatin1(s: string) { forall i :: 0 <= i < |s| ==> s[i] as int < 256 }

  predicate IsHex(c: char) { ('0' <= c <= '9') || ('A' <= c <= 'F') || ('a' <= c <= 'f') }

  function HexDigit(d: int): (c: char)
    requires 0 <= d < 16
    ensures IsHex(c) && HexValue(c) == d
  {
    if d < 10 then ('0' as int + d) as char else ('A' as int + d - 10) as char
  }

  function HexValue(c: char): (d: int)
    requires IsHex(c)
    ensures 0 <= d < 16
  {
    if '0' <= c <= '9' then c as int - '0' as int
    else if 'A' <= c <= 'F' then c as int - 'A' as int + 10
    else c as int - 'a' as int + 10
  }

  /** The ISO-8859-1 byte of a character: its code point, or `?` for one the charset lacks. */
  function Latin1Byte(c: char): (b: int)
    ensures 0 <= b < 256
    ensures c as int < 256 ==> b == c as int
  {
    if c as int < 256 then c as int else '?' as int
  }

  function EscapeChar(c: char): string {
    if Unreserved(c) then [c]
    else if c == ' ' then "+"
    else
      var b := Latin1Byte(c);
      ['%', HexDigit(b / 16), HexDigit(b % 16)]
  }

  /** The serialiser's escaping of one name or value. */
  function Escape(s: string): (e: string)
    ensures IsPlain(s) ==> e == s
    ensures forall i :: 0 <= i < |e| ==> e[i] != '&' && e[i] != '='
  {
    if s == [] then [] else EscapeChar(s[0]) + Escape(s[1..])
  }

  /** The parser's decoding of one name or value: `+` is a space, `%XY` a byte. */
  function Unescape(s: string): string
    decreases |s|
  {
    if s == [] then []
    else if s[0] == '+' then [' '] + Unescape(s[1..])
    else if s[0] == '%' && |s| >= 3 && IsHex(s[1]) && IsHex(s[2]) then
      [(HexValue(s[1]) * 16 + HexValue(s[2])) as char] + Unescape(s[3..])
    else [s[0]] + Unescape(s[1..])
  }

  lemma UnescapeEscapeChar(c: char, t: string)
    requires c as int < 256
    ensures Unescape(EscapeChar(c) + t) == [c] + Unescape(t)
  {
    var e := EscapeChar(c) + t;
    if Unreserved(c) {
      assert e[1..] == t;
    } else if c == ' ' {
      assert e[1..] == t;
    } else {
      var b := Latin1Byte(c);
      assert e[3..] == t;
      assert HexValue(e[1]) * 16 + HexValue(e[2]) == b;
    }
  }

  /** Decoding undoes escaping for every ISO-8859-1 string. */
  lemma {:induction false} UnescapeEscape(s: string)
    requires IsLatin1(s)
    ensures Unescape(Escape(s)) == s
  {
    if s != [] {
      assert IsLatin1(s[1..]) by {
        forall i | 0 <= i < |s[1..]| ensures s[1..][i] as int < 256 { assert s[1..][i] == s[i + 1]; }
      }
      UnescapeEscape(s[1..]);
      UnescapeEscapeChar(s[0], Escape(s[1..]));
      assert s == [s[0]] + s[1..];
    }
  }

  /** One `name=value` field of the body. */
  function Field(p: (string, string)): string {
    Escape(p.0) + "=" + Escape(p.1)
  }

  /** The whole body: the fields in the order given, joined with `&`. */
  function Body(pairs: seq<(string, string)>): string
    decreases |pairs|
  {
    if pairs == [] then ""
    else if |pairs| == 1 then Field(pairs[0])
    else Field(pairs[0]) + "&" + Body(pairs[1..])
  }

  /** Position of the first `c` in `s`, or `|s|` when there is none. */
  function IndexOf(s: string, c: char): (k: nat)
    ensures k <= |s|
    ensures k < |s| ==> s[k] == c
    ensures forall i :: 0 <= i < k ==> s[i] != c
  {
    if s == [] then 0 else if s[0] == c then 0 else 1 + IndexOf(s[1..], c)
  }

  /** A field split at its first `=`; a field without one is a name with an empty value. */
  function ParseField(f: string): (string, string) {
    var k := IndexOf(f, '=');
    if k == |f| then (Unescape(f), "") else (Unescape(f[..k]), Unescape(f[k + 1..]))
  }

  /** The parser: split on `&`, skip empty fields, split each field at its first `=`. */
  function Parse(body: string): seq<(string, string)>
    decreases |body|
  {
    if body == [] then []
    else
      var k := IndexOf(body, '&');
      var rest := if k == |body| then [] else Parse(body[k + 1..]);
      if k == 0 then rest else [ParseField(body[..k])] + rest
  }

  lemma IndexOfFirst(x: string, c: char, y: string)
    requires forall i :: 0 <= i < |x| ==> x[i] != c
    ensures IndexOf(x + [c] + y, c) == |x|
  {
    var s := x + [c] + y;
    assert s[|x|] == c;
    assert forall i :: 0 <= i < |x| ==> s[i] == x[i];
  }

  lemma IndexOfAbsent(x: string, c: char)
    requires forall i :: 0 <= i < |x| ==> x[i] != c
    ensures IndexOf(x, c) == |x|
  {
  }

  /** A field reads back as the pair it was written from. */
  lemma ParseFieldInverse(p: (string, string))
    requires IsLatin1(p.0) && IsLatin1(p.1)
    ensures ParseField(Field(p)) == p
  {
    var f := Field(p);
    var n, v := Escape(p.0), Escape(p.1);
    assert f == n + ['='] + v;
    IndexOfFirst(n, '=', v);
    assert f[..|n|] == n;
    assert f[|n| + 1..] == v;
    UnescapeEscape(p.0);
    UnescapeEscape(p.1);
  }

  lemma FieldHasNoAmpersand(p: (string, string))
    ensures |Field(p)| > 0
    ensures forall i :: 0 <= i < |Field(p)| ==> Field(p)[i] != '&'
  {
    var f := Field(p);
    assert f[|Escape(p.0)|] == '=';
    forall i | 0 <= i < |f| ensures f[i] != '&' {
      if i < |Escape(p.0)| {
        assert f[i] == Escape(p.0)[i];
      } else if i > |Escape(p.0)| {
        assert f[i] == Escape(p.1)[i - |Escape(p.0)| - 1];
      }
    }
  }

  lemma ParseLoneField(f: string)
    requires |f| > 0 && forall i :: 0 <= i < |f| ==> f[i] != '&'
    ensures Parse(f) == [ParseField(f)]
  {
    IndexOfAbsent(f, '&');
    assert f[..|f|] == f;
  }

  lemma ParseLeadingField(f: string, tail: string)
    requires |f| > 0 && forall i :: 0 <= i < |f| ==> f[i] != '&'
    ensures Parse(f + "&" + tail) == [ParseField(f)] + Parse(tail)
  {
    var body := f + "&" + tail;
    IndexOfFirst(f, '&', tail);
    assert body[..|f|] == f;
    assert body[|f| + 1..] == tail;
  }

  /** Parsing a body gives back, in order, the pairs it was serialised from. */
  lemma {:induction false} ParseBody(pairs: seq<(string, string)>)
    requires forall j :: 0 <= j < |pairs| ==> IsLatin1(pairs[j].0) && IsLatin1(pairs[j].1)
    ensures Parse(Body(pairs)) == pairs
    decreases |pairs|
  {
    if pairs != [] {
      var f := Field(pairs[0]);
      FieldHasNoAmpersand(pairs[0]);
      ParseFieldInverse(pairs[0]);
      if |pairs| == 1 {
        ParseLoneField(f);
      } else {
        ParseLeadingField(f, Body(pairs[1..]));
        ParseBody(pairs[1..]);
        assert pairs == [pairs[0]] + pairs[1..];
      }
    }
  }
}
