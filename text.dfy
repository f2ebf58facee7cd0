/**
 * The pieces of Python string behaviour the handlers rely on: `str.strip()`
 * when a review text is checked for blankness, the decimal rendering of an
 * `int` inside an f-string when the low-stock e-mail is written, and the UTF-8
 * encoding of a password before it is hashed.
 */
module Text {
  import opened Wrappers

  /** The characters Python's `str.isspace` accepts, which `str.strip()` removes. */
  predicate IsSpace(c: char) {
    || c == ' '
    || ('\t' <= c <= '\r')
    || ('\U{1C}' <= c <= '\U{1F}')
    || c == '\U{85}' || c == '\U{A0}' || c == '\U{1680}'
    || ('\U{2000}' <= c <= '\U{200A}')
    || c == '\U{2028}' || c == '\U{2029}' || c == '\U{202F}' || c == '\U{205F}' || c == '\U{3000}'
  }

  /** A string made of whitespace only (the empty string included). */
  predicate IsBlank(s: string) {
    forall i :: 0 <= i < |s| ==> IsSpace(s[i])
  }

  /** The texts `render(x)` of the elements of `xs`, written one after the other. */
  function Joined<T>(xs: seq<T>, render: T -> string): string {
    if xs == [] then "" else Joined(xs[..|xs| - 1], render) + render(xs[|xs| - 1])
  }

  /** A text rendered as itself, for joining pieces of text. */
  function Verbatim(part: string): string {
    part
  }

  /** Joining two lists one after the other gives the two joined texts one after the other. */
  lemma {:induction false} JoinedAppend<T>(a: seq<T>, b: seq<T>, render: T -> string)
    ensures Joined(a + b, render) == Joined(a, render) + Joined(b, render)
    decreases |b|
  {
    if b == [] {
      assert a + b == a;
    } else {
      var init := b[..|b| - 1];
      assert (a + b)[..|a + b| - 1] == a + init;
      JoinedAppend(a, init, render);
    }
  }

  /** The text of element `k` sits in the joined text right after the texts of elements `0..k-1`. */
  lemma JoinedHas<T>(xs: seq<T>, k: nat, render: T -> string)
    requires k < |xs|
    ensures var at := |Joined(xs[..k], render)|;
      && at + |render(xs[k])| <= |Joined(xs, render)|
      && Joined(xs, render)[at..at + |render(xs[k])|] == render(xs[k])
  {
    assert xs == xs[..k] + [xs[k]] + xs[k + 1..];
    JoinedAppend(xs[..k] + [xs[k]], xs[k + 1..], render);
    JoinedAppend(xs[..k], [xs[k]], render);
    assert Joined([xs[k]], render) == Joined([], render) + render(xs[k]);
  }

  /** In `p + s`, `p` comes first and `s` follows it unchanged. */
  lemma AfterPrefix(p: string, s: string, from: nat, to: nat)
    requires from <= to <= |s|
    ensures (p + s)[..|p|] == p
    ensures (p + s)[|p| + from..|p| + to] == s[from..to]
  {
    assert forall i :: 0 <= i < to - from ==> (p + s)[|p| + from..|p| + to][i] == s[from..to][i];
  }

  /** `s` without its leading whitespace: the longest suffix that does not start with a space. */
  function TrimStart(s: string): (r: string)
    ensures |r| <= |s| && r == s[|s| - |r|..]
    ensures forall i :: 0 <= i < |s| - |r| ==> IsSpace(s[i])
    ensures r == [] || !IsSpace(r[0])
  {
    if s != [] && IsSpace(s[0]) then
      var tail := s[1..];
      assert forall i :: 0 < i < |s| ==> s[i] == tail[i - 1];
      TrimStart(tail)
    else s
  }

  /** `s` without its trailing whitespace: the longest prefix that does not end with a space. */
  function TrimEnd(s: string): (r: string)
    ensures |r| <= |s| && r == s[..|r|]
    ensures forall i :: |r| <= i < |s| ==> IsSpace(s[i])
    ensures r == [] || !IsSpace(r[|r| - 1])
  {
    if s != [] && IsSpace(s[|s| - 1]) then
      var init := s[..|s| - 1];
      assert forall i :: 0 <= i < |init| ==> s[i] == init[i];
      TrimEnd(init)
    else s
  }

  /** Python's `str.strip()` with no argument. */
  function Strip(s: string): string {
    TrimEnd(TrimStart(s))
  }

  /**
   * What `strip()` returns: a piece of `s` that neither starts nor ends with
   * whitespace, with nothing but whitespace before and after it.
   */
  lemma StripCutsBlankEnds(s: string)
    ensures Strip(s) == [] || (!IsSpace(Strip(s)[0]) && !IsSpace(Strip(s)[|Strip(s)| - 1]))
    ensures exists before, after :: s == before + Strip(s) + after && IsBlank(before) && IsBlank(after)
  {
    CutBothEnds(s, TrimStart(s), Strip(s));
  }

  /**
   * Cutting leading whitespace from `s` to get `t`, then trailing whitespace
   * from `t` to get `r`, leaves `r` between two blank pieces of `s`.
   */
  lemma CutBothEnds(s: string, t: string, r: string)
    requires |t| <= |s| && t == s[|s| - |t|..] && forall i :: 0 <= i < |s| - |t| ==> IsSpace(s[i])
    requires t == [] || !IsSpace(t[0])
    requires |r| <= |t| && r == t[..|r|] && forall i :: |r| <= i < |t| ==> IsSpace(t[i])
    requires r == [] || !IsSpace(r[|r| - 1])
    ensures r == [] || (!IsSpace(r[0]) && !IsSpace(r[|r| - 1]))
    ensures exists before, after :: s == before + r + after && IsBlank(before) && IsBlank(after)
  {
    assert r != [] ==> r[0] == t[0];
    var before, after := s[..|s| - |t|], t[|r|..];
    assert forall i :: 0 <= i < |before| ==> before[i] == s[i];
    assert forall i :: 0 <= i < |after| ==> after[i] == t[|r| + i];
    assert t == r + after;
    assert s == before + t;
    assert s == before + r + after;
    assert IsBlank(before) && IsBlank(after);
  }

  /** `not s.strip()` holds exactly for the strings made of whitespace only. */
  lemma StripEmptyIffBlank(s: string)
    ensures Strip(s) == [] <==> IsBlank(s)
  {
    var t := TrimStart(s);
    if Strip(s) == [] {
      assert t == [];
    } else {
      var r := Strip(s);
      assert r == t[..|r|];
      assert !IsSpace(t[0]);
      assert t[0] == s[|s| - |t|];
    }
  }

  /** The character of the decimal digit `d`. */
  function Digit(d: nat): char
    requires d < 10
  {
    ('0' as int + d) as char
  }

  /** The decimal digits of `n`, most significant first, without leading zeros. */
  function NaturalDigits(n: nat): (r: string)
    decreases n
  {
    if n < 10 then [Digit(n)] else NaturalDigits(n / 10) + [Digit(n % 10)]
  }

  /** Python's rendering of an `int` in an f-string: an optional minus sign, then the digits. */
  function FormatInt(n: int): string {
    if n < 0 then "-" + NaturalDigits(-n) else NaturalDigits(n)
  }

  predicate AllDigits(s: string) {
    forall i :: 0 <= i < |s| ==> '0' <= s[i] <= '9'
  }

  /** The value of a string of decimal digits. */
  function DigitsValue(s: string): nat
    requires AllDigits(s)
  {
    if s == [] then 0 else 10 * DigitsValue(s[..|s| - 1]) + (s[|s| - 1] as int - '0' as int)
  }

  /** Reads back an optional minus sign followed by at least one decimal digit. */
  function ParseInt(s: string): Option<int> {
    if |s| > 1 && s[0] == '-' && AllDigits(s[1..]) then Some(-(DigitsValue(s[1..]) as int))
    else if s != [] && AllDigits(s) then Some(DigitsValue(s))
    else None
  }

  /** A natural number's digits: non-empty, decimal, starting with '0' only for zero, and worth the number. */
  lemma {:induction false} NaturalDigitsValue(n: nat)
    ensures NaturalDigits(n) != [] && AllDigits(NaturalDigits(n))
    ensures NaturalDigits(n)[0] == '0' <==> n == 0
    ensures DigitsValue(NaturalDigits(n)) == n
    decreases n
  {
    var d := NaturalDigits(n);
    if n >= 10 {
      var init := NaturalDigits(n / 10);
      NaturalDigitsValue(n / 10);
      assert d == init + [Digit(n % 10)];
      assert d[..|d| - 1] == init;
      assert d[0] == init[0];
      assert DigitsValue(d) == 10 * (n / 10) + n % 10;
    }
  }

  /** A non-empty digit string reads back as its value. */
  lemma ParseDigits(d: string)
    requires d != [] && AllDigits(d)
    ensures ParseInt(d) == Some(DigitsValue(d))
  {
    assert d[0] != '-';
  }

  /** A minus sign followed by a non-empty digit string reads back as the negated value. */
  lemma ParseNegated(d: string)
    requires d != [] && AllDigits(d)
    ensures ParseInt("-" + d) == Some(-(DigitsValue(d) as int))
  {
    var s := "-" + d;
    assert |s| > 1 && s[0] == '-' && s[1..] == d;
  }

  /**
   * The rendering is Python's canonical one: a minus sign exactly when the
   * number is negative, then decimal digits with no leading zero unless the
   * number is zero (so never "007" or "-0").
   */
  lemma FormatIntCanonical(n: int)
    ensures var t := FormatInt(n);
      && t != [] && (t[0] == '-' <==> n < 0)
      && var digits := if n < 0 then t[1..] else t;
      && digits != [] && AllDigits(digits) && (digits[0] == '0' <==> n == 0)
  {
    if n < 0 {
      NaturalDigitsValue(-n);
      assert FormatInt(n)[1..] == NaturalDigits(-n);
    } else {
      NaturalDigitsValue(n);
    }
  }

  /** Rendering an integer loses nothing: reading the text back gives the same integer. */
  lemma FormatIntRoundTrip(n: int)
    ensures ParseInt(FormatInt(n)) == Some(n)
  {
    if n < 0 {
      NaturalDigitsValue(-n);
      ParseNegated(NaturalDigits(-n));
    } else {
      NaturalDigitsValue(n);
      ParseDigits(NaturalDigits(n));
    }
  }

  /** A byte of an encoded string. */
  newtype byte = b: int | 0 <= b < 256

  /** The UTF-8 encoding of one character: one to four bytes (RFC 3629, section 3). */
  function Utf8Char(c: char): seq<byte> {
    var cp := c as int;
    if cp < 0x80 then [cp as byte]
    else if cp < 0x800 then [(0xC0 + cp / 64) as byte, (0x80 + cp % 64) as byte]
    else if cp < 0x1_0000 then [(0xE0 + cp / 4096) as byte, (0x80 + cp / 64 % 64) as byte, (0x80 + cp % 64) as byte]
    else [(0xF0 + cp / 0x4_0000) as byte, (0x80 + cp / 4096 % 64) as byte, (0x80 + cp / 64 % 64) as byte, (0x80 + cp % 64) as byte]
  }

  /** The length of a UTF-8 sequence, read off its first byte. */
  function LeadLength(b: byte): nat {
    if b < 0x80 then 1 else if b < 0xE0 then 2 else if b < 0xF0 then 3 else 4
  }

  /** The code point a one- to four-byte UTF-8 sequence stands for. */
  function CodePoint(r: seq<byte>): int
    requires 1 <= |r| <= 4
  {
    if |r| == 1 then r[0] as int
    else if |r| == 2 then (r[0] as int - 0xC0) * 64 + (r[1] as int - 0x80)
    else if |r| == 3 then (r[0] as int - 0xE0) * 4096 + (r[1] as int - 0x80) * 64 + (r[2] as int - 0x80)
    else (r[0] as int - 0xF0) * 0x4_0000 + (r[1] as int - 0x80) * 4096 + (r[2] as int - 0x80) * 64 + (r[3] as int - 0x80)
  }

  /** `s.encode("utf-8")`: the characters' encodings, one after the other. */
  function Utf8(s: string): seq<byte> {
    if s == [] then [] else Utf8Char(s[0]) + Utf8(s[1..])
  }

  /** A character's encoding says how long it is in its first byte, and decodes back to the character. */
  lemma Utf8CharDecodes(c: char)
    ensures 1 <= |Utf8Char(c)| <= 4
    ensures |Utf8Char(c)| == LeadLength(Utf8Char(c)[0])
    ensures CodePoint(Utf8Char(c)) == c as int
  {
    var cp := c as int;
    if cp < 0x80 {
    } else if cp < 0x800 {
      TwoBytesDecode(cp);
    } else if cp < 0x1_0000 {
      ThreeBytesDecode(cp);
    } else {
      FourBytesDecode(cp);
    }
  }

  lemma TwoBytesDecode(cp: int)
    requires 0x80 <= cp < 0x800
    ensures 0xC0 <= 0xC0 + cp / 64 < 0xE0 && (0xC0 + cp / 64 - 0xC0) * 64 + (0x80 + cp % 64 - 0x80) == cp
  {
  }

  lemma ThreeBytesDecode(cp: int)
    requires 0x800 <= cp < 0x1_0000
    ensures 0xE0 <= 0xE0 + cp / 4096 < 0xF0
    ensures (0xE0 + cp / 4096 - 0xE0) * 4096 + (0x80 + cp / 64 % 64 - 0x80) * 64 + (0x80 + cp % 64 - 0x80) == cp
  {
    assert cp / 64 == cp / 4096 * 64 + cp / 64 % 64;
  }

  lemma FourBytesDecode(cp: int)
    requires 0x1_0000 <= cp < 0x11_0000
    ensures 0xF0 <= 0xF0 + cp / 0x4_0000 < 0x100
    ensures (0xF0 + cp / 0x4_0000 - 0xF0) * 0x4_0000 + (0x80 + cp / 4096 % 64 - 0x80) * 4096
      + (0x80 + cp / 64 % 64 - 0x80) * 64 + (0x80 + cp % 64 - 0x80) == cp
  {
    assert cp / 4096 == cp / 0x4_0000 * 64 + cp / 4096 % 64;
    assert cp / 64 == cp / 4096 * 64 + cp / 64 % 64;
  }

  /** Only the empty string encodes to no bytes. */
  lemma Utf8Empty(s: string)
    ensures Utf8(s) == [] <==> s == []
  {
    if s != [] {
      Utf8CharDecodes(s[0]);
    }
  }

  /** Encoding is injective: two strings with the same UTF-8 bytes are the same string. */
  lemma {:induction false} Utf8Injective(s: string, t: string)
    requires Utf8(s) == Utf8(t)
    ensures s == t
    decreases |s|
  {
    Utf8Empty(s);
    Utf8Empty(t);
    if s != [] {
      var head, other := Utf8Char(s[0]), Utf8Char(t[0]);
      Utf8CharDecodes(s[0]);
      Utf8CharDecodes(t[0]);
      assert head[0] == Utf8(s)[0] == other[0];
      assert head == Utf8(s)[..|head|] == other;
      assert s[0] as int == t[0] as int;
      assert Utf8(s[1..]) == Utf8(s)[|head|..] == Utf8(t[1..]);
      Utf8Injective(s[1..], t[1..]);
      assert s == [s[0]] + s[1..];
      assert t == [t[0]] + t[1..];
    }
  }

  /** Encoding a concatenation gives the two encodings one after the other. */
  lemma {:induction false} Utf8Append(a: string, b: string)
    ensures Utf8(a + b) == Utf8(a) + Utf8(b)
    decreases |a|
  {
    if a == [] {
      assert a + b == b;
    } else {
      assert (a + b)[0] == a[0];
      assert (a + b)[1..] == a[1..] + b;
      Utf8Append(a[1..], b);
    }
  }

  /** A string of ASCII characters takes one byte per character. */
  lemma {:induction false} Utf8Ascii(s: string)
    requires forall i :: 0 <= i < |s| ==> s[i] as int < 0x80
    ensures |Utf8(s)| == |s|
    decreases |s|
  {
    if s != [] {
      Utf8Ascii(s[1..]);
    }
  }
}
