/** Certificate fingerprints: the pin an operator pastes and the one `zecd` prints. */
module Fingerprint {
  import opened Wrappers
  import opened Characters
  import opened Numerals

  /** 32 bytes. */
  type Digest = d: seq<byte> | |d| == 32 witness seq(32, _ => 0)

  // ---- Cleaning up the text ----------------------------------------------------------------

  /** `char::is_whitespace` */
  predicate IsWhitespace(c: char) {
    var n := c as int;
    9 <= n <= 13 || n == 32 || n == 0x85 || n == 0xA0 || n == 0x1680 || 0x2000 <= n <= 0x200A
    || n == 0x2028 || n == 0x2029 || n == 0x202F || n == 0x205F || n == 0x3000
  }

  /** The twenty-five characters with the Unicode property White_Space. */
  lemma WhitespaceExact(c: char)
    ensures IsWhitespace(c) <==>
            c as int in {0x9, 0xA, 0xB, 0xC, 0xD, 0x20, 0x85, 0xA0, 0x1680, 0x2000, 0x2001, 0x2002, 0x2003, 0x2004,
                         0x2005, 0x2006, 0x2007, 0x2008, 0x2009, 0x200A, 0x2028, 0x2029, 0x202F, 0x205F, 0x3000}
  {
  }

  function TrimStart(s: string): string {
    if s != "" && IsWhitespace(s[0]) then TrimStart(s[1..]) else s
  }

  function TrimEnd(s: string): string {
    if s != "" && IsWhitespace(s[|s| - 1]) then TrimEnd(s[..|s| - 1]) else s
  }

  function Trim(s: string): string {
    TrimEnd(TrimStart(s))
  }

  function DropColons(s: string): string {
    if s == "" then "" else (if s[0] == ':' then "" else [s[0]]) + DropColons(s[1..])
  }

  function HexOnly(s: string): string {
    DropColons(Trim(s))
  }

  /** Bytes of a character in UTF-8: Rust measures `len` in these. */
  function Utf8Length(s: string): nat {
    if s == "" then 0
    else
      (var n := s[0] as int; if n < 0x80 then 1 else if n < 0x800 then 2 else if n < 0x10000 then 3 else 4)
      + Utf8Length(s[1..])
  }

  /** Where the encoding grows by a byte. */
  lemma Utf8Bounds()
    ensures Utf8Length("\U{7F}") == 1 && Utf8Length("\U{80}") == 2 && Utf8Length("\U{7FF}") == 2
    ensures Utf8Length("\U{800}") == 3 && Utf8Length("\U{FFFF}") == 3 && Utf8Length("\U{10000}") == 4
  {
  }

  // ---- Hexadecimal -------------------------------------------------------------------------

  predicate IsHex(c: char) {
    '0' <= c <= '9' || 'a' <= c <= 'f' || 'A' <= c <= 'F'
  }

  predicate AllHex(s: string) {
    forall i :: 0 <= i < |s| ==> IsHex(s[i])
  }

  function HexValue(c: char): (v: int)
    requires IsHex(c)
    ensures 0 <= v < 16
  {
    if c <= '9' then c as int - '0' as int
    else if c <= 'F' then c as int - 'A' as int + 10
    else c as int - 'a' as int + 10
  }

  function HexDigit(v: int): (c: char)
    requires 0 <= v < 16
    ensures IsHex(c) && c != ':' && !IsWhitespace(c) && HexValue(c) == v
  {
    if v < 10 then ('0' as int + v) as char else ('A' as int + v - 10) as char
  }

  /** The sixteen digits, in either case. */
  lemma HexAlphabet(v: int)
    requires 0 <= v < 16
    ensures HexDigit(v) == "0123456789ABCDEF"[v]
    ensures IsHex("0123456789abcdef"[v]) && HexValue("0123456789abcdef"[v]) == v
    ensures IsHex("0123456789ABCDEF"[v]) && HexValue("0123456789ABCDEF"[v]) == v
  {
  }

  /** `hex::decode` of text already known to have even length and only hex digits. */
  function Bytes(s: string): (bytes: seq<byte>)
    requires |s| % 2 == 0 && AllHex(s)
    ensures |bytes| == |s| / 2
  {
    if s == "" then [] else [HexValue(s[0]) * 16 + HexValue(s[1])] + Bytes(s[2..])
  }

  datatype ParseError = WrongLength(bytes: nat) | NotHex

  /** The text without margins and colons, read as 64 hex digits. */
  function Parse(s: string): Result<Digest, ParseError> {
    ParseHex(HexOnly(s))
  }

  function ParseHex(h: string): Result<Digest, ParseError> {
    if Utf8Length(h) != 64 then Err(WrongLength(Utf8Length(h)))
    else if !AllHex(h) then Err(NotHex)
    else
      HexIsOneByte(h);
      Ok(Bytes(h))
  }

  lemma {:induction false} HexIsOneByte(s: string)
    ensures AllHex(s) ==> Utf8Length(s) == |s|
  {
    if s != "" && AllHex(s) {
      assert IsHex(s[0]);
      HexIsOneByte(s[1..]);
    }
  }

  // ---- Display -----------------------------------------------------------------------------

  function ByteText(b: byte): (s: string)
    ensures |s| == 2
  {
    [HexDigit(b / 16), HexDigit(b % 16)]
  }

  /** Each byte in two digits, with a colon before every byte but the first. */
  ghost function Shown(bytes: seq<byte>): string {
    if bytes == [] then ""
    else if |bytes| == 1 then ByteText(bytes[0])
    else Shown(bytes[..|bytes| - 1]) + ":" + ByteText(bytes[|bytes| - 1])
  }

  method Display(digest: Digest) returns (text: string)
    ensures text == Shown(digest)
  {
    text := "";
    for i := 0 to |digest|
      invariant text == Shown(digest[..i])
    {
      assert digest[..i + 1][..i] == digest[..i];
      if i > 0 {
        text := text + ":";
      }
      text := text + ByteText(digest[i]);
      assert i == 0 ==> text == ByteText(digest[0]);
    }
    assert digest[..|digest|] == digest;
  }

  // ---- What parsing accepts ----------------------------------------------------------------

  /** Accepted exactly when the cleaned text is 64 hex digits, whatever its length in bytes was. */
  lemma ParseExact(s: string)
    ensures Parse(s).Ok? <==> |HexOnly(s)| == 64 && AllHex(HexOnly(s))
  {
    HexIsOneByte(HexOnly(s));
  }

  ghost predicate SameHex(s: string, t: string) {
    AllHex(s) && AllHex(t) && |s| == |t| && forall i :: 0 <= i < |s| ==> HexValue(s[i]) == HexValue(t[i])
  }

  lemma {:induction false} BytesOfSameHex(s: string, t: string)
    requires SameHex(s, t) && |s| % 2 == 0
    ensures Bytes(s) == Bytes(t)
    decreases |s|
  {
    if s != "" {
      BytesOfSameHex(s[2..], t[2..]);
    }
  }

  // ---- Letter case -------------------------------------------------------------------------

  /** The same character, or one hex digit in two cases. */
  predicate SameChar(a: char, b: char) {
    a == b || (IsHex(a) && IsHex(b) && HexValue(a) == HexValue(b))
  }

  ghost predicate SameButForCase(s: string, t: string) {
    |s| == |t| && forall i :: 0 <= i < |s| ==> SameChar(s[i], t[i])
  }

  lemma SameCharClass(a: char, b: char)
    requires SameChar(a, b)
    ensures IsWhitespace(a) <==> IsWhitespace(b)
    ensures a == ':' <==> b == ':'
    ensures IsHex(a) <==> IsHex(b)
    ensures Utf8Length([a]) == Utf8Length([b])
  {
  }

  lemma {:induction false} TrimStartCase(s: string, t: string)
    requires SameButForCase(s, t)
    ensures SameButForCase(TrimStart(s), TrimStart(t))
    decreases |s|
  {
    if s != "" {
      SameCharClass(s[0], t[0]);
      TrimStartCase(s[1..], t[1..]);
    }
  }

  lemma {:induction false} TrimEndCase(s: string, t: string)
    requires SameButForCase(s, t)
    ensures SameButForCase(TrimEnd(s), TrimEnd(t))
    decreases |s|
  {
    if s != "" {
      var n := |s| - 1;
      SameCharClass(s[n], t[n]);
      TrimEndCase(s[..n], t[..n]);
    }
  }

  lemma {:induction false} DropColonsCase(s: string, t: string)
    requires SameButForCase(s, t)
    ensures SameButForCase(DropColons(s), DropColons(t))
    decreases |s|
  {
    hide SameChar;
    if s != "" {
      SameCharClass(s[0], t[0]);
      DropColonsCase(s[1..], t[1..]);
    }
  }

  lemma {:induction false} Utf8LengthCase(s: string, t: string)
    requires SameButForCase(s, t)
    ensures Utf8Length(s) == Utf8Length(t)
    decreases |s|
  {
    if s != "" {
      SameCharClass(s[0], t[0]);
      Utf8LengthCase(s[1..], t[1..]);
    }
  }

  /** Changing the case of hex digits anywhere in a text, well formed or not, changes nothing. */
  lemma CaseIrrelevant(s: string, t: string)
    requires SameButForCase(s, t)
    ensures Parse(s) == Parse(t)
  {
    hide TrimStart, TrimEnd, DropColons, Utf8Length, IsWhitespace, Bytes;
    TrimStartCase(s, t);
    TrimEndCase(TrimStart(s), TrimStart(t));
    DropColonsCase(Trim(s), Trim(t));
    var h, g := HexOnly(s), HexOnly(t);
    Utf8LengthCase(h, g);
    forall i | 0 <= i < |h| ensures IsHex(h[i]) <==> IsHex(g[i]) {
      SameCharClass(h[i], g[i]);
    }
    if AllHex(h) {
      HexIsOneByte(h);
      if |h| == 64 {
        BytesOfSameHex(h, g);
      }
    }
  }

  // ---- Colons and whitespace ---------------------------------------------------------------

  predicate Blank(s: string) {
    forall i :: 0 <= i < |s| ==> IsWhitespace(s[i])
  }

  /** Put between `u` and `v`, a colon would stand outside whitespace that trimming removes. */
  predicate OutsideMargin(u: string, v: string) {
    || (Blank(u) && !Blank(v) && IsWhitespace(v[0]))
    || (Blank(v) && !Blank(u) && IsWhitespace(u[|u| - 1]))
  }

  lemma {:induction false} TrimStartConcat(u: string, v: string)
    ensures Blank(u) ==> TrimStart(u) == "" && TrimStart(u + v) == TrimStart(v)
    ensures !Blank(u) ==> TrimStart(u) != "" && TrimStart(u + v) == TrimStart(u) + v
    decreases |u|
  {
    hide IsWhitespace;
    if u == "" {
      assert u + v == v;
    } else {
      assert (u + v)[1..] == u[1..] + v;
      TrimStartConcat(u[1..], v);
      assert Blank(u) <==> IsWhitespace(u[0]) && Blank(u[1..]);
    }
  }

  lemma {:induction false} TrimEndConcat(u: string, v: string)
    ensures Blank(v) ==> TrimEnd(v) == "" && TrimEnd(u + v) == TrimEnd(u)
    ensures !Blank(v) ==> TrimEnd(v) != "" && TrimEnd(u + v) == u + TrimEnd(v)
    decreases |v|
  {
    hide IsWhitespace;
    if v == "" {
      assert u + v == u;
    } else {
      var n := |v| - 1;
      assert (u + v)[..|u| + n] == u + v[..n];
      TrimEndConcat(u, v[..n]);
      assert Blank(v) <==> IsWhitespace(v[n]) && Blank(v[..n]);
    }
  }

  /** Trimming keeps some suffix, starting at a character that is not whitespace. */
  lemma {:induction false} TrimStartEnds(s: string)
    ensures s != "" && !IsWhitespace(s[0]) ==> TrimStart(s) == s
    ensures s != "" && IsWhitespace(s[0]) ==> |TrimStart(s)| < |s|
    ensures |TrimStart(s)| <= |s| && TrimStart(s) == s[|s| - |TrimStart(s)|..]
    ensures TrimStart(s) != "" ==> !IsWhitespace(TrimStart(s)[0])
  {
    if s != "" && IsWhitespace(s[0]) {
      TrimStartEnds(s[1..]);
    }
  }

  /** A colon is not whitespace, so it shields what lies beyond it from trimming on its side. */
  lemma HexOnlyAtColon(u: string, v: string)
    ensures HexOnly(u + ":" + v) == DropColons(TrimStart(u)) + DropColons(TrimEnd(v))
  {
    hide DropColons, IsWhitespace, TrimStart, TrimEnd;
    ColonAlone();
    assert u + ":" + v == u + (":" + v);
    TrimStartConcat(u, ":" + v);
    assert (":" + v)[0] == ':';
    TrimStartEnds(":" + v);
    assert TrimStart(u + ":" + v) == TrimStart(u) + ":" + v;
    assert !Blank(":");
    TrimEndConcat(TrimStart(u) + ":", v);
    TrimEndConcat(TrimStart(u), ":");
    assert TrimEnd(TrimStart(u) + ":" + v) == TrimStart(u) + ":" + TrimEnd(v);
    DropColonsConcat(TrimStart(u) + ":", TrimEnd(v));
    DropColonsConcat(TrimStart(u), ":");
    assert DropColons(TrimStart(u)) + "" == DropColons(TrimStart(u));
  }

  lemma {:induction false} DropColonsBlank(s: string)
    requires Blank(s)
    ensures DropColons(s) == s
  {
    if s != "" {
      DropColonsBlank(s[1..]);
      assert s == [s[0]] + s[1..];
    }
  }

  lemma {:induction false} Utf8LengthConcat(s: string, t: string)
    ensures Utf8Length(s + t) == Utf8Length(s) + Utf8Length(t)
    ensures s != "" ==> Utf8Length(s) > 0
    decreases |s|
  {
    if s == "" {
      assert s + t == t;
    } else {
      assert (s + t)[1..] == s[1..] + t;
      Utf8LengthConcat(s[1..], t);
    }
  }

  /** Whitespace left in the digits is always an error, and never the error there was without it. */
  lemma StrayBlank(blank: string, h: string, g: string)
    requires blank != "" && Blank(blank) && (h == blank + g || h == g + blank)
    ensures ParseHex(h).Err? && ParseHex(h) != ParseHex(g)
  {
    hide IsHex, Bytes;
    Utf8LengthConcat(blank, g);
    Utf8LengthConcat(g, blank);
    var i := if h == blank + g then 0 else |g|;
    assert h[i] == blank[0];
    BlankNotHex(blank[0]);
  }

  lemma BlankNotHex(c: char)
    requires IsWhitespace(c)
    ensures !IsHex(c)
  {
  }

  lemma ColonAfterBlank(u: string, v: string)
    requires Blank(u)
    ensures !OutsideMargin(u, v) ==> HexOnly(u + ":" + v) == HexOnly(u + v)
    ensures OutsideMargin(u, v) ==>
              Parse(u + ":" + v).Err? && Parse(u + ":" + v) != Parse(u + v)
  {
    hide DropColons, IsWhitespace, TrimStart, TrimEnd, ParseHex;
    HexOnlyAtColon(u, v);
    TrimStartConcat(u, v);
    assert HexOnly(u + v) == HexOnly(v);
    DropColonsBlank("");
    assert "" + DropColons(TrimEnd(v)) == DropColons(TrimEnd(v));
    TrimStartConcat(v, "");
    TrimEndConcat("", v);
    TrimStartEnds(v);
    if Blank(v) {
      TrimEndConcat("", "");
    } else if IsWhitespace(v[0]) {
      var rest := TrimStart(v);
      var margin := v[..|v| - |rest|];
      assert v == margin + rest;
      MarginBlank(v);
      TrimEndConcat(margin, rest);
      DropColonsConcat(margin, TrimEnd(rest));
      DropColonsBlank(margin);
      StrayBlank(margin, HexOnly(u + ":" + v), HexOnly(u + v));
    }
  }

  lemma {:induction false} MarginBlank(s: string)
    ensures |TrimStart(s)| <= |s| && Blank(s[..|s| - |TrimStart(s)|])
    ensures |TrimEnd(s)| <= |s| && Blank(s[|TrimEnd(s)|..])
    decreases |s|
  {
    hide IsWhitespace;
    if s != "" && IsWhitespace(s[0]) {
      MarginBlank(s[1..]);
      var n := |s| - |TrimStart(s)|;
      assert s[..n] == [s[0]] + s[1..][..n - 1];
    }
    if s != "" && IsWhitespace(s[|s| - 1]) {
      MarginBlank(s[..|s| - 1]);
      var n := |TrimEnd(s)|;
      assert s[n..] == s[..|s| - 1][n..] + [s[|s| - 1]];
    }
  }

  lemma {:induction false} TrimEndEnds(s: string)
    ensures s != "" && !IsWhitespace(s[|s| - 1]) ==> TrimEnd(s) == s
    ensures s != "" && IsWhitespace(s[|s| - 1]) ==> |TrimEnd(s)| < |s|
    ensures |TrimEnd(s)| <= |s| && TrimEnd(s) == s[..|TrimEnd(s)|]
  {
    if s != "" && IsWhitespace(s[|s| - 1]) {
      TrimEndEnds(s[..|s| - 1]);
    }
  }

  lemma ColonBeforeBlank(u: string, v: string)
    requires Blank(v) && !Blank(u)
    ensures !OutsideMargin(u, v) ==> HexOnly(u + ":" + v) == HexOnly(u + v)
    ensures OutsideMargin(u, v) ==>
              Parse(u + ":" + v).Err? && Parse(u + ":" + v) != Parse(u + v)
  {
    hide DropColons, IsWhitespace, TrimStart, TrimEnd, ParseHex;
    HexOnlyAtColon(u, v);
    TrimStartConcat(u, v);
    var text := TrimStart(u);
    TrimEndConcat(text, v);
    assert HexOnly(u + v) == DropColons(TrimEnd(text));
    DropColonsBlank("");
    assert DropColons(text) + "" == DropColons(text);
    TrimStartConcat(u, "");
    TrimStartEnds(u);
    assert text[|text| - 1] == u[|u| - 1];
    TrimEndEnds(text);
    if IsWhitespace(u[|u| - 1]) {
      var margin := text[|TrimEnd(text)|..];
      assert text == TrimEnd(text) + margin;
      MarginBlank(text);
      DropColonsConcat(TrimEnd(text), margin);
      DropColonsBlank(margin);
      StrayBlank(margin, HexOnly(u + ":" + v), HexOnly(u + v));
    }
  }

  /**
   A colon may be put anywhere in a text without changing the result, error or not, except beyond
   whitespace at either end: trimming comes first, so that whitespace then stays and is refused.
   */
  lemma ColonIrrelevantInside(u: string, v: string)
    ensures Parse(u + ":" + v) == Parse(u + v) <==> !OutsideMargin(u, v)
    ensures OutsideMargin(u, v) ==> Parse(u + ":" + v).Err?
  {
    hide DropColons, IsWhitespace, TrimStart, TrimEnd, ParseHex;
    if Blank(u) {
      ColonAfterBlank(u, v);
    } else if Blank(v) {
      ColonBeforeBlank(u, v);
    } else {
      HexOnlyAtColon(u, v);
      TrimStartConcat(u, v);
      TrimEndConcat(TrimStart(u), v);
      DropColonsConcat(TrimStart(u), TrimEnd(v));
    }
  }

  /** Whitespace around a text changes nothing. */
  lemma MarginIrrelevant(before: string, s: string, after: string)
    requires Blank(before) && Blank(after)
    ensures Parse(before + s + after) == Parse(s)
  {
    hide DropColons, IsWhitespace, TrimStart, TrimEnd, ParseHex;
    assert before + s + after == before + (s + after);
    TrimStartConcat(before, s + after);
    TrimStartConcat(s, after);
    if Blank(s) {
      TrimStartConcat(after, "");
      assert after + "" == after;
    } else {
      TrimEndConcat(TrimStart(s), after);
    }
  }

  /** Every accepted pin, indented, is refused with a colon put before the indent. */
  lemma ColonBeforeIndent(h: string)
    requires |h| == 64 && AllHex(h)
    ensures Parse(" " + h).Ok? && Parse(": " + h).Err?
  {
    hide DropColons, TrimStart, TrimEnd, ParseHex;
    var s := " " + h;
    assert s[0] == ' ' && s[1] == h[0] && !IsWhitespace(h[0]) && !IsWhitespace(h[63]);
    assert Blank("") && !Blank(s);
    ColonIrrelevantInside("", s);
    assert "" + ":" + s == ": " + h && "" + s == s;
    TrimStartConcat(" ", h);
    TrimStartEnds(h);
    TrimEndEnds(h);
    DropColonsOfHex(h);
    ParseExact(s);
  }

  lemma {:induction false} DropColonsOfHex(h: string)
    requires AllHex(h)
    ensures DropColons(h) == h
  {
    if h != "" {
      DropColonsOfHex(h[1..]);
      assert h == [h[0]] + h[1..];
    }
  }

  lemma ColonAlone()
    ensures DropColons(":") == "" && TrimEnd(":") == ":" && !IsWhitespace(':') && !IsWhitespace(":"[0])
  {
  }

  // ---- Round trip --------------------------------------------------------------------------

  /** The digits of a digest without separators. */
  ghost function Bare(bytes: seq<byte>): string {
    if bytes == [] then "" else Bare(bytes[..|bytes| - 1]) + ByteText(bytes[|bytes| - 1])
  }

  lemma {:induction false} DropColonsConcat(s: string, t: string)
    ensures DropColons(s + t) == DropColons(s) + DropColons(t)
    decreases |s|
  {
    if s == "" {
      assert s + t == t;
    } else {
      assert (s + t)[1..] == s[1..] + t;
      DropColonsConcat(s[1..], t);
    }
  }

  lemma DropColonsByte(b: byte)
    ensures DropColons(ByteText(b)) == ByteText(b) && DropColons(":") == ""
  {
    var s := ByteText(b);
    assert DropColons(s[2..]) == "";
    assert s[1..][1..] == s[2..];
    assert DropColons(s[1..]) == [s[1]];
  }

  lemma {:induction false} DropColonsShown(bytes: seq<byte>)
    ensures DropColons(Shown(bytes)) == Bare(bytes)
    decreases |bytes|
  {
    hide ByteText, DropColons;
    if bytes == [] {
      DropColonsEmpty();
    } else {
      var n := |bytes| - 1;
      DropColonsShown(bytes[..n]);
      DropColonsByte(bytes[n]);
      if n > 0 {
        DropColonsConcat(Shown(bytes[..n]) + ":", ByteText(bytes[n]));
        DropColonsConcat(Shown(bytes[..n]), ":");
        assert Bare(bytes[..n]) + "" == Bare(bytes[..n]);
      } else {
        assert bytes[..0] == [] && "" + ByteText(bytes[0]) == ByteText(bytes[0]);
      }
    }
  }

  lemma DropColonsEmpty()
    ensures DropColons("") == ""
  {
  }

  lemma {:induction false} BytesSnoc(s: string, b: byte)
    requires |s| % 2 == 0 && AllHex(s)
    ensures AllHex(s + ByteText(b)) && Bytes(s + ByteText(b)) == Bytes(s) + [b]
    decreases |s|
  {
    var t := s + ByteText(b);
    if s == "" {
      assert t == ByteText(b);
      assert Bytes(t[2..]) == [];
    } else {
      BytesSnoc(s[2..], b);
      assert t[2..] == s[2..] + ByteText(b);
    }
  }

  lemma {:induction false} BytesOfBare(bytes: seq<byte>)
    ensures |Bare(bytes)| == 2 * |bytes| && AllHex(Bare(bytes)) && Bytes(Bare(bytes)) == bytes
    decreases |bytes|
  {
    hide ByteText;
    if bytes != [] {
      var n := |bytes| - 1;
      BytesOfBare(bytes[..n]);
      BytesSnoc(Bare(bytes[..n]), bytes[n]);
      assert bytes == bytes[..n] + [bytes[n]];
    }
  }

  lemma {:induction false} ShownEnds(bytes: seq<byte>)
    requires bytes != []
    ensures Shown(bytes) != "" && !IsWhitespace(Shown(bytes)[0]) && !IsWhitespace(Shown(bytes)[|Shown(bytes)| - 1])
    decreases |bytes|
  {
    if |bytes| > 1 {
      ShownEnds(bytes[..|bytes| - 1]);
    }
  }

  predicate IsUpperHex(c: char) {
    '0' <= c <= '9' || 'A' <= c <= 'F'
  }

  /** Two upper-case digits a byte, high half first, with a colon between bytes. */
  lemma {:induction false} ShownShape(bytes: seq<byte>, i: nat)
    requires i < |bytes|
    ensures |Shown(bytes)| == 3 * |bytes| - 1
    ensures IsUpperHex(Shown(bytes)[3 * i]) && HexValue(Shown(bytes)[3 * i]) == bytes[i] / 16
    ensures IsUpperHex(Shown(bytes)[3 * i + 1]) && HexValue(Shown(bytes)[3 * i + 1]) == bytes[i] % 16
    ensures i + 1 < |bytes| ==> Shown(bytes)[3 * i + 2] == ':'
    decreases |bytes|
  {
    if |bytes| > 1 {
      var n := |bytes| - 1;
      ShownShape(bytes[..n], if i < n then i else 0);
    }
  }

  lemma TrimNothing(s: string)
    requires s != "" && !IsWhitespace(s[0]) && !IsWhitespace(s[|s| - 1])
    ensures Trim(s) == s
  {
  }

  /** A printed fingerprint can be pasted back as the pin it names. */
  lemma ParseShown(digest: Digest)
    ensures Parse(Shown(digest)) == Ok(digest)
  {
    hide Shown, Trim, DropColons, Bytes, Bare, IsWhitespace;
    ShownEnds(digest);
    TrimNothing(Shown(digest));
    DropColonsShown(digest);
    BytesOfBare(digest);
    HexIsOneByte(Bare(digest));
  }
}
