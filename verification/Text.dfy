/** Strings as Go and protobuf see them: UTF-8 bytes, and what strings.TrimSpace removes. */
module Text {
  import opened Words

  /** unicode.IsSpace: the White_Space code points. */
  predicate IsSpace(c: char) {
    var n := c as int;
    0x09 <= n <= 0x0D || n == 0x20 || n == 0x85 || n == 0xA0 || n == 0x1680
    || 0x2000 <= n <= 0x200A || n == 0x2028 || n == 0x2029 || n == 0x202F || n == 0x205F || n == 0x3000
  }

  /** The 25 code points with the Unicode property White_Space, one by one. */
  const WHITE_SPACE: set<int> := {
    0x09, 0x0A, 0x0B, 0x0C, 0x0D, 0x20, 0x85, 0xA0, 0x1680, 0x2000, 0x2001, 0x2002, 0x2003, 0x2004, 0x2005, 0x2006,
    0x2007, 0x2008, 0x2009, 0x200A, 0x2028, 0x2029, 0x202F, 0x205F, 0x3000}

  lemma SpacesAre(c: char)
    ensures IsSpace(c) <==> c as int in WHITE_SPACE
  {
  }

  /** strings.TrimSpace(s) == "". */
  predicate Blank(s: string) { forall c | c in s :: IsSpace(c) }

  function Utf8Char(c: char): (b: Bytes)
    ensures 1 <= |b| <= 4
  {
    var n := c as int;
    if n < 0x80 then [n]
    else if n < 0x800 then [0xC0 + n / 0x40, 0x80 + n % 0x40]
    else if n < 0x1_0000 then [0xE0 + n / 0x1000, 0x80 + n / 0x40 % 0x40, 0x80 + n % 0x40]
    else [0xF0 + n / 0x4_0000, 0x80 + n / 0x1000 % 0x40, 0x80 + n / 0x40 % 0x40, 0x80 + n % 0x40]
  }

  function Utf8(s: string): (b: Bytes)
    ensures |s| <= |b|
  {
    if |s| == 0 then [] else Utf8Char(s[0]) + Utf8(s[1..])
  }

  /** len(s) in Go. */
  function ByteLength(s: string): nat { |Utf8(s)| }

  /** A leading byte tells how long its character is. */
  function Utf8Length(lead: Byte): nat {
    if lead < 0x80 then 1 else if lead < 0xE0 then 2 else if lead < 0xF0 then 3 else 4
  }

  lemma Utf8Lead(c: char)
    ensures |Utf8Char(c)| == Utf8Length(Utf8Char(c)[0])
  {
  }

  lemma Base64Digits(m: nat, n: nat)
    requires m / 0x40 == n / 0x40 && m % 0x40 == n % 0x40
    ensures m == n
  {
  }

  lemma TwiceDivided(n: nat)
    ensures n / 0x40 / 0x40 == n / 0x1000 && n / 0x1000 / 0x40 == n / 0x4_0000
  {
  }

  lemma Utf8CharInjective(c: char, d: char)
    requires Utf8Char(c) == Utf8Char(d)
    ensures c == d
  {
    var m, n := c as int, d as int;
    var a, b := Utf8Char(c), Utf8Char(d);
    TwiceDivided(m);
    TwiceDivided(n);
    if |a| == 2 {
      assert a[0] == b[0] && a[1] == b[1];
      Base64Digits(m, n);
    } else if |a| == 3 {
      assert a[0] == b[0] && a[1] == b[1] && a[2] == b[2];
      Base64Digits(m / 0x40, n / 0x40);
      Base64Digits(m, n);
    } else if |a| == 4 {
      assert a[0] == b[0] && a[1] == b[1] && a[2] == b[2] && a[3] == b[3];
      Base64Digits(m / 0x1000, n / 0x1000);
      Base64Digits(m / 0x40, n / 0x40);
      Base64Digits(m, n);
    } else {
      assert a[0] == b[0];
    }
  }

  /** UTF-8 is read back one character at a time. */
  lemma Utf8CharDecodable(c: char, d: char, rest: Bytes, rest': Bytes)
    requires Utf8Char(c) + rest == Utf8Char(d) + rest'
    ensures c == d && rest == rest'
  {
    hide Utf8Char;
    var a, b := Utf8Char(c), Utf8Char(d);
    Utf8Lead(c);
    Utf8Lead(d);
    assert a[0] == (a + rest)[0] && b[0] == (b + rest')[0];
    assert a == (a + rest)[..|a|] && b == (b + rest')[..|b|];
    assert rest == (a + rest)[|a|..] && rest' == (b + rest')[|b|..];
    Utf8CharInjective(c, d);
  }

  lemma {:induction false} Utf8Decodable(s: string, t: string)
    requires Utf8(s) == Utf8(t)
    ensures s == t
    decreases |s|
  {
    hide Utf8Char;
    if s != [] && t != [] {
      Utf8CharDecodable(s[0], t[0], Utf8(s[1..]), Utf8(t[1..]));
      Utf8Decodable(s[1..], t[1..]);
      assert s == [s[0]] + s[1..] && t == [t[0]] + t[1..];
    }
  }

  /** The examples of section 7 of RFC 3629, one character of each length among them. */
  lemma Utf8Examples()
    ensures Utf8Char('A') == [0x41] && Utf8Char('.') == [0x2E]
    ensures Utf8Char('\U{391}') == [0xCE, 0x91]
    ensures Utf8Char('\U{2262}') == [0xE2, 0x89, 0xA2] && Utf8Char('\U{65E5}') == [0xE6, 0x97, 0xA5]
    ensures Utf8Char('\U{233B4}') == [0xF0, 0xA3, 0x8E, 0xB4]
  {
  }
}
