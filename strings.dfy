/**
  The parts of Rust's `str`/`String` behaviour that the extraction pipeline
  relies on: `trim`, `contains`, `starts_with`, `len` (a UTF-8 byte count),
  the decimal rendering that `format!("{}", n)` gives a `usize`, and
  `[String]::join`.  A Rust `String` is a sequence of Unicode scalar values,
  which is what a Dafny `string` (`seq<char>`) is.
*/
module Strings {

  /** Rust's `char::is_whitespace`: the Unicode `White_Space` property. */
  predicate IsWhitespace(c: char)
    ensures (c as int) < 0x80 ==> (IsWhitespace(c) <==> c == ' ' || '\t' <= c <= '\r')
    ensures IsWhitespace(c) ==> (c as int) <= 0x3000
  {
    var n := c as int;
    (0x09 <= n <= 0x0D) || n == 0x20 || n == 0x85 || n == 0xA0 || n == 0x1680
    || (0x2000 <= n <= 0x200A) || n == 0x2028 || n == 0x2029 || n == 0x202F
    || n == 0x205F || n == 0x3000
  }

  /** Every character of `s` is white space (so `s.trim()` is empty). */
  predicate IsBlank(s: string) {
    forall i :: 0 <= i < |s| ==> IsWhitespace(s[i])
  }

  /** `str::trim_start`: drops the leading white space, nothing else. */
  function TrimStart(s: string): (r: string)
    ensures |r| <= |s| && r == s[|s| - |r|..]
    ensures forall i :: 0 <= i < |s| - |r| ==> IsWhitespace(s[i])
    ensures r != [] ==> !IsWhitespace(r[0])
    decreases |s|
  {
    if |s| > 0 && IsWhitespace(s[0]) then TrimStart(s[1..]) else s
  }

  /** `str::trim_end`: drops the trailing white space, nothing else. */
  function TrimEnd(s: string): (r: string)
    ensures |r| <= |s| && r == s[..|r|]
    ensures forall i :: |r| <= i < |s| ==> IsWhitespace(s[i])
    ensures r != [] ==> !IsWhitespace(r[|r| - 1])
    decreases |s|
  {
    if |s| > 0 && IsWhitespace(s[|s| - 1]) then TrimEnd(s[..|s| - 1]) else s
  }

  /** `str::trim`: empty exactly when `s` is blank, otherwise starting and ending with
      a character that is not white space. */
  function Trim(s: string): (r: string)
    ensures |r| <= |s|
    ensures r == [] <==> IsBlank(s)
    ensures r != [] ==> !IsWhitespace(r[0]) && !IsWhitespace(r[|r| - 1])
  {
    TrimEnd(TrimStart(s))
  }

  /** `str::starts_with`. */
  predicate StartsWith(s: string, prefix: string)
    ensures StartsWith(s, prefix) <==> |prefix| <= |s| && s[..|prefix|] == prefix
  {
    prefix <= s
  }

  /** `pat` occurs in `s` at offset `i`. */
  predicate OccursAt(s: string, pat: string, i: int) {
    0 <= i && i + |pat| <= |s| && s[i..i + |pat|] == pat
  }

  /** `str::contains` with a string pattern, scanning left to right. */
  function Contains(s: string, pat: string): (found: bool)
    ensures StartsWith(s, pat) ==> found
    ensures found ==> |pat| <= |s|
    decreases |s|
  {
    if pat <= s then true
    else if |s| == 0 then false
    else Contains(s[1..], pat)
  }

  /** The scan finds `pat` exactly when it occurs somewhere in `s`. */
  lemma {:induction false} ContainsIffOccurs(s: string, pat: string)
    ensures Contains(s, pat) <==> exists i :: OccursAt(s, pat, i)
    decreases |s|
  {
    if pat <= s {
      assert OccursAt(s, pat, 0);
    } else if |s| > 0 {
      ContainsIffOccurs(s[1..], pat);
      if exists i :: OccursAt(s[1..], pat, i) {
        var i :| OccursAt(s[1..], pat, i);
        OccursInTail(s, pat, i);
      }
      if exists i :: OccursAt(s, pat, i) {
        var i :| OccursAt(s, pat, i);
        OccursPastHead(s, pat, i);
      }
    }
  }

  /** An occurrence in the tail is an occurrence one place further in `s`. */
  lemma OccursInTail(s: string, pat: string, i: int)
    requires |s| > 0 && OccursAt(s[1..], pat, i)
    ensures OccursAt(s, pat, i + 1)
  {
    assert s[1..][i..i + |pat|] == s[i + 1..i + 1 + |pat|];
  }

  /** An occurrence that is not at the start is an occurrence in the tail. */
  lemma OccursPastHead(s: string, pat: string, i: int)
    requires OccursAt(s, pat, i) && !(pat <= s)
    ensures i > 0 && OccursAt(s[1..], pat, i - 1)
  {
    if i > 0 {
      assert s[1..][i - 1..i - 1 + |pat|] == s[i..i + |pat|];
    }
  }

  /** Number of bytes UTF-8 needs for `c` (what Rust's `char::len_utf8` returns). */
  function Utf8Width(c: char): (w: nat)
    ensures 1 <= w <= 4
    ensures w == 1 <==> (c as int) < 0x80
  {
    var n := c as int;
    if n < 0x80 then 1 else if n < 0x800 then 2 else if n < 0x1_0000 then 3 else 4
  }

  /** Rust's `String::len`: the length of the UTF-8 encoding, in bytes. */
  function ByteLen(s: string): (n: nat)
    ensures |s| <= n <= 4 * |s|
    ensures n == |s| <==> forall i :: 0 <= i < |s| ==> (s[i] as int) < 0x80
  {
    if s == [] then 0
    else
      var n := Utf8Width(s[0]) + ByteLen(s[1..]);
      assert forall i :: 1 <= i < |s| ==> s[i] == s[1..][i - 1];
      n
  }

  lemma {:induction false} ByteLenConcat(a: string, b: string)
    ensures ByteLen(a + b) == ByteLen(a) + ByteLen(b)
    decreases |a|
  {
    if a != [] {
      assert (a + b)[0] == a[0] && (a + b)[1..] == a[1..] + b;
      ByteLenConcat(a[1..], b);
    } else {
      assert a + b == b;
    }
  }

  /** Sum of `len()` over a list of strings, as `.map(|s| s.len()).sum()` computes it. */
  function TotalBytes(ss: seq<string>): (n: nat)
    ensures ss == [] ==> n == 0
    ensures forall i :: 0 <= i < |ss| ==> ByteLen(ss[i]) <= n
  {
    if ss == [] then 0 else ByteLen(ss[0]) + TotalBytes(ss[1..])
  }

  lemma {:induction false} TotalBytesConcat(a: seq<string>, b: seq<string>)
    ensures TotalBytes(a + b) == TotalBytes(a) + TotalBytes(b)
    decreases |a|
  {
    if a != [] {
      assert (a + b)[0] == a[0] && (a + b)[1..] == a[1..] + b;
      TotalBytesConcat(a[1..], b);
    } else {
      assert a + b == b;
    }
  }

  function DigitChar(d: nat): char
    requires d < 10
  {
    "0123456789"[d]
  }

  /** The value of a string of decimal digits; the inverse of `NatToString`. */
  function DecimalValue(s: string): nat
  {
    if s == [] then 0
    else
      var c := s[|s| - 1] as int;
      DecimalValue(s[..|s| - 1]) * 10 + (if 0x30 <= c <= 0x39 then c - 0x30 else 0)
  }

  /** `format!("{}", n)` for an unsigned integer: decimal digits, no leading zero. */
  function NatToString(n: nat): (r: string)
    ensures r != []
    ensures forall i :: 0 <= i < |r| ==> '0' <= r[i] <= '9'
    ensures r[0] == '0' ==> n == 0
  {
    if n < 10 then [DigitChar(n)] else NatToString(n / 10) + [DigitChar(n % 10)]
  }

  /** Reading back the decimal rendering gives the number. */
  lemma {:induction false} NatToStringRoundTrip(n: nat)
    ensures DecimalValue(NatToString(n)) == n
  {
    var r := NatToString(n);
    if n >= 10 {
      NatToStringRoundTrip(n / 10);
      assert r[..|r| - 1] == NatToString(n / 10);
    }
  }

  /** `[String]::join(sep)`: the pieces in order, with `sep` between neighbours. */
  function Join(pieces: seq<string>, sep: string): (joined: string)
    ensures pieces == [] ==> joined == ""
    ensures pieces != [] ==> StartsWith(joined, pieces[0])
  {
    if |pieces| == 0 then ""
    else if |pieces| == 1 then pieces[0]
    else pieces[0] + sep + Join(pieces[1..], sep)
  }

  /** The joined text has the bytes of every piece plus one separator per gap. */
  lemma {:induction false} JoinByteLen(pieces: seq<string>, sep: string)
    ensures ByteLen(Join(pieces, sep))
            == TotalBytes(pieces) + (if pieces == [] then 0 else (|pieces| - 1) * ByteLen(sep))
    decreases |pieces|
  {
    if |pieces| == 1 {
      assert pieces[1..] == [];
    } else if |pieces| > 1 {
      JoinByteLen(pieces[1..], sep);
      ByteLenConcat(pieces[0], sep);
      ByteLenConcat(pieces[0] + sep, Join(pieces[1..], sep));
    }
  }
}
