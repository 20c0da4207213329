/**
 * Bytes and the handful of Rust string operations the server relies on.
 *
 * A Rust `&[u8]`, `&str` or `String` is modelled as the sequence of its
 * (UTF-8) bytes. A byte is written as a `char` below 256 so that byte
 * strings can be given as literals; `.len()` of a `&str` is then `|s|`
 * and `.as_bytes()` is the identity.
 */
module Text {

  type Byte = c: char | c as int < 0x100
  type Bytes = seq<Byte>

  /** Rust's fixed-width integers used by the core. */
  newtype u8 = x: int | 0 <= x < 0x100
  newtype u64 = x: int | 0 <= x < 0x1_0000_0000_0000_0000
  newtype i64 = x: int | -0x8000_0000_0000_0000 <= x < 0x8000_0000_0000_0000

  const CR: Byte := '\r'
  const LF: Byte := '\n'
  const NUL: Byte := '\0'

  predicate IsDigit(c: Byte) {
    '0' <= c <= '9'
  }

  predicate AllDigits(s: Bytes) {
    forall i :: 0 <= i < |s| ==> IsDigit(s[i])
  }

  /** `char::is_whitespace` restricted to one-byte characters: TAB, LF, VT, FF, CR and space. */
  predicate IsWhitespace(c: Byte) {
    c == ' ' || '\t' <= c <= '\r'
  }

  /** A UTF-8 continuation byte (0b10xx_xxxx) never starts a character. */
  predicate IsContinuationByte(c: Byte) {
    0x80 <= c as int < 0xC0
  }

  /** Rust's `str::is_char_boundary`: slicing a `&str` at `i` panics unless this holds. */
  predicate IsCharBoundary(s: Bytes, i: nat) {
    i == 0 || i == |s| || (i < |s| && !IsContinuationByte(s[i]))
  }

  // ---------------------------------------------------------------------
  // Case folding
  // ---------------------------------------------------------------------

  function LowerByte(c: Byte): (r: Byte)
    ensures 'A' <= c <= 'Z' ==> r as int == c as int + 32
    ensures !('A' <= c <= 'Z') ==> r == c
    ensures !('A' <= r <= 'Z')
  {
    if 'A' <= c <= 'Z' then (c as int + 32) as char else c
  }

  /** `to_lowercase` on ASCII letters; every other byte is kept. */
  function ToLower(s: Bytes): (r: Bytes)
    ensures |r| == |s|
    ensures forall i :: 0 <= i < |s| ==> r[i] == LowerByte(s[i])
  {
    seq(|s|, i requires 0 <= i < |s| => LowerByte(s[i]))
  }

  /** Lower-casing twice is lower-casing once. */
  lemma ToLowerIdempotent(s: Bytes)
    ensures ToLower(ToLower(s)) == ToLower(s)
  {
    var once := ToLower(s);
    assert forall i :: 0 <= i < |s| ==> ToLower(once)[i] == once[i];
  }

  // ---------------------------------------------------------------------
  // trim
  // ---------------------------------------------------------------------

  /** Drops leading whitespace: what remains is a suffix of `s` that starts with no whitespace. */
  function TrimStart(s: Bytes): (r: Bytes)
    ensures |r| <= |s| && r == s[|s| - |r|..]
    ensures forall i :: 0 <= i < |s| - |r| ==> IsWhitespace(s[i])
    ensures r != [] ==> !IsWhitespace(r[0])
    decreases |s|
  {
    if s != [] && IsWhitespace(s[0]) then TrimStart(s[1..]) else s
  }

  /** Drops trailing whitespace: what remains is a prefix of `s` that ends with no whitespace. */
  function TrimEnd(s: Bytes): (r: Bytes)
    ensures |r| <= |s| && r == s[..|r|]
    ensures forall i :: |r| <= i < |s| ==> IsWhitespace(s[i])
    ensures r != [] ==> !IsWhitespace(r[|r| - 1])
    decreases |s|
  {
    if s != [] && IsWhitespace(s[|s| - 1]) then TrimEnd(s[..|s| - 1]) else s
  }

  /**
   * Rust's `str::trim`: the result neither starts nor ends with whitespace,
   * and text that already does not is kept as it is.
   */
  function Trim(s: Bytes): (r: Bytes)
    ensures |r| <= |s|
    ensures r != [] ==> !IsWhitespace(r[0]) && !IsWhitespace(r[|r| - 1])
    ensures s != [] && !IsWhitespace(s[0]) && !IsWhitespace(s[|s| - 1]) ==> r == s
  {
    var t := TrimStart(s);
    var r := TrimEnd(t);
    assert r != [] ==> r[0] == t[0];
    r
  }

  // ---------------------------------------------------------------------
  // replace
  // ---------------------------------------------------------------------

  /**
   * Rust's `str::replace` for a non-empty pattern: matches are found from
   * left to right and do not overlap. A replacement no longer than the
   * pattern never lengthens the text.
   */
  function Replace(s: Bytes, pat: Bytes, rep: Bytes): (r: Bytes)
    requires |pat| > 0
    ensures |rep| <= |pat| ==> |r| <= |s|
    decreases |s|
  {
    if |pat| <= |s| && s[..|pat|] == pat then rep + Replace(s[|pat|..], pat, rep)
    else if s == [] then []
    else [s[0]] + Replace(s[1..], pat, rep)
  }

  /** Text that cannot start a match is copied unchanged. */
  lemma {:induction false} ReplaceSkipsPrefix(a: Bytes, t: Bytes, pat: Bytes, rep: Bytes)
    requires |pat| > 0 && pat[0] !in a
    ensures Replace(a + t, pat, rep) == a + Replace(t, pat, rep)
    decreases |a|
  {
    if a != [] {
      var s := a + t;
      assert s[0] == a[0] != pat[0];
      assert |pat| <= |s| ==> s[..|pat|][0] != pat[0];
      assert s[1..] == a[1..] + t;
      assert Replace(s, pat, rep) == [a[0]] + Replace(s[1..], pat, rep);
      ReplaceSkipsPrefix(a[1..], t, pat, rep);
      assert a == [a[0]] + a[1..];
    } else {
      assert a + t == t;
    }
  }

  /** A match at the front is replaced and scanning goes on after it. */
  lemma ReplaceAtMatch(t: Bytes, pat: Bytes, rep: Bytes)
    requires |pat| > 0
    ensures Replace(pat + t, pat, rep) == rep + Replace(t, pat, rep)
  {
    assert (pat + t)[..|pat|] == pat;
    assert (pat + t)[|pat|..] == t;
  }

  /** Deleting every `c` (`replace(c, "")`) distributes over concatenation. */
  lemma {:induction false} RemoveCharConcat(a: Bytes, b: Bytes, c: Byte)
    ensures Replace(a + b, [c], []) == Replace(a, [c], []) + Replace(b, [c], [])
    decreases |a|
  {
    if a == [] {
      assert a + b == b;
    } else {
      assert (a + b)[..1] == a[..1];
      assert (a + b)[1..] == a[1..] + b;
      RemoveCharConcat(a[1..], b, c);
    }
  }

  /** Deleting every `c` leaves no `c`, never lengthens the text, and changes nothing in text without `c`. */
  lemma {:induction false} RemoveCharSpec(s: Bytes, c: Byte)
    ensures c !in Replace(s, [c], [])
    ensures |Replace(s, [c], [])| <= |s|
    ensures c !in s ==> Replace(s, [c], []) == s
    ensures (forall i :: 0 <= i < |s| ==> s[i] == c) ==> Replace(s, [c], []) == []
    decreases |s|
  {
    if s != [] {
      RemoveCharSpec(s[1..], c);
      if s[..1] == [c] {
        assert s[0] == c;
      } else {
        assert s[0] != c;
      }
    }
  }

  // ---------------------------------------------------------------------
  // split
  // ---------------------------------------------------------------------

  /**
   * Rust's `str::split` on a one-byte delimiter: the pieces between
   * delimiters, including empty ones; splitting `""` gives `[""]`.
   */
  function SplitOn(s: Bytes, d: Byte): (r: seq<Bytes>)
    ensures |r| >= 1
    ensures forall i :: 0 <= i < |r| ==> d !in r[i]
    decreases |s|
  {
    if s == [] then [[]]
    else
      var rest := SplitOn(s[1..], d);
      if s[0] == d then [[]] + rest else [[s[0]] + rest[0]] + rest[1..]
  }

  /** The inverse of `SplitOn`: the pieces glued back together with the delimiter. */
  function JoinWith(pieces: seq<Bytes>, d: Byte): Bytes
    decreases |pieces|
  {
    if pieces == [] then []
    else if |pieces| == 1 then pieces[0]
    else pieces[0] + [d] + JoinWith(pieces[1..], d)
  }

  /** Splitting loses nothing: joining the pieces with the delimiter rebuilds the input. */
  lemma {:induction false} SplitOnJoin(s: Bytes, d: Byte)
    ensures JoinWith(SplitOn(s, d), d) == s
    decreases |s|
  {
    if s != [] {
      var rest := SplitOn(s[1..], d);
      SplitOnJoin(s[1..], d);
      if s[0] == d {
        assert SplitOn(s, d) == [[]] + rest;
        assert ([[]] + rest)[1..] == rest;
      } else {
        var r := [[s[0]] + rest[0]] + rest[1..];
        assert SplitOn(s, d) == r;
        if |rest| == 1 {
          assert JoinWith(rest, d) == rest[0];
        } else {
          assert r[1..] == rest[1..];
          assert JoinWith(rest, d) == rest[0] + [d] + JoinWith(rest[1..], d);
        }
      }
    }
  }

  /** With no delimiter in `a`, `a` is the first piece. */
  lemma {:induction false} SplitOnPrefix(a: Bytes, t: Bytes, d: Byte)
    requires d !in a
    ensures SplitOn(a + [d] + t, d) == [a] + SplitOn(t, d)
    decreases |a|
  {
    if a == [] {
      assert a + [d] + t == [d] + t;
      assert ([d] + t)[1..] == t;
    } else {
      assert (a + [d] + t)[1..] == a[1..] + [d] + t;
      SplitOnPrefix(a[1..], t, d);
      assert [a[0]] + a[1..] == a;
    }
  }

  /** Text without the delimiter is a single piece. */
  lemma {:induction false} SplitOnWhole(a: Bytes, d: Byte)
    requires d !in a
    ensures SplitOn(a, d) == [a]
    decreases |a|
  {
    if a != [] {
      SplitOnWhole(a[1..], d);
      assert [a[0]] + a[1..] == a;
    }
  }

  // ---------------------------------------------------------------------
  // Decimal numbers (`format!("{}", n)` for an unsigned integer)
  // ---------------------------------------------------------------------

  function DigitChar(d: nat): (c: Byte)
    requires d < 10
    ensures IsDigit(c)
  {
    ('0' as int + d) as char
  }

  function DigitValue(c: Byte): (d: nat)
    requires IsDigit(c)
    ensures d < 10 && DigitChar(d) == c
  {
    c as int - '0' as int
  }

  /** The decimal digits of `n`, most significant first, with no leading zero. */
  function Decimal(n: nat): (r: Bytes)
    ensures |r| >= 1 && AllDigits(r)
    ensures |r| > 1 ==> r[0] != '0'
    ensures CR !in r && LF !in r
    decreases n
  {
    if n < 10 then [DigitChar(n)] else Decimal(n / 10) + [DigitChar(n % 10)]
  }

  /** The number a string of decimal digits denotes. */
  function DecimalValue(s: Bytes): nat
    requires AllDigits(s)
    decreases |s|
  {
    if s == [] then 0 else 10 * DecimalValue(s[..|s| - 1]) + DigitValue(s[|s| - 1])
  }

  /** Reading back the decimal form of `n` gives `n`. */
  lemma {:induction false} DecimalRoundTrip(n: nat)
    ensures DecimalValue(Decimal(n)) == n
    decreases n
  {
    var r := Decimal(n);
    if n >= 10 {
      DecimalRoundTrip(n / 10);
      assert r[..|r| - 1] == Decimal(n / 10);
    }
  }
}
