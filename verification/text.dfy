/** Text handling the serializer and the server rely on: ASCII text as
    bytes, NUL padding, hexadecimal and decimal numerals, and Python's
    `str.split`, `str.strip`, `str.rstrip` and `str.zfill`. Text is modelled
    one byte per character; only ASCII is representable. */
module Text {
  import opened Results
  import opened Bits
  import opened Wire

  predicate IsAscii(s: string) {
    forall i :: 0 <= i < |s| ==> s[i] as int < 128
  }

  predicate AllAscii(bs: seq<byte>) {
    forall i :: 0 <= i < |bs| ==> bs[i] < 128
  }

  /** `s.encode()` for ASCII text; `None` outside ASCII. */
  function EncodeAscii(s: string): (r: Option<seq<byte>>)
    ensures r.Some? <==> IsAscii(s)
    ensures r.Some? ==> |r.value| == |s| && AllAscii(r.value)
    ensures r.Some? ==> forall i :: 0 <= i < |s| ==> r.value[i] == s[i] as int
  {
    if IsAscii(s) then Some(seq(|s|, i requires 0 <= i < |s| => s[i] as int as byte))
    else None
  }

  /** `bs.decode()` for ASCII bytes; `None` (a UnicodeDecodeError) otherwise. */
  function DecodeAscii(bs: seq<byte>): (r: Option<string>)
    ensures r.Some? <==> AllAscii(bs)
    ensures r.Some? ==> |r.value| == |bs| && IsAscii(r.value)
    ensures r.Some? ==> forall i :: 0 <= i < |bs| ==> r.value[i] as int == bs[i]
  {
    if AllAscii(bs) then Some(seq(|bs|, i requires 0 <= i < |bs| => bs[i] as char))
    else None
  }

  lemma DecodeEncodeAscii(s: string)
    requires IsAscii(s)
    ensures DecodeAscii(EncodeAscii(s).value) == Some(s)
  {
    var d := DecodeAscii(EncodeAscii(s).value).value;
    assert forall i :: 0 <= i < |s| ==> d[i] as int == s[i] as int;
    assert d == s;
  }

  lemma EncodeDecodeAscii(bs: seq<byte>)
    requires AllAscii(bs)
    ensures EncodeAscii(DecodeAscii(bs).value) == Some(bs)
  {
    var e := EncodeAscii(DecodeAscii(bs).value).value;
    assert e == bs;
  }

  /** `struct.pack(f'{n}s', b)` after `ljust(n, '\x00')`: exactly `n` bytes,
      the text's bytes first, NUL bytes after them, anything past `n` cut. */
  function NulPadded(bs: seq<byte>, n: nat): (r: seq<byte>)
    ensures |r| == n
    ensures forall i :: 0 <= i < n ==> r[i] == if i < |bs| then bs[i] else 0
  {
    seq(n, i requires 0 <= i < n => if i < |bs| then bs[i] else 0)
  }

  /** `s.rstrip('\x00')`: the longest prefix of `s` not ending in NUL,
      where everything cut off is NUL. */
  function RStripNul(s: string): (r: string)
    ensures r <= s
    ensures |r| == 0 || r[|r| - 1] != '\0'
    ensures forall i :: |r| <= i < |s| ==> s[i] == '\0'
  {
    if |s| == 0 || s[|s| - 1] != '\0' then s else RStripNul(s[..|s| - 1])
  }

  lemma {:induction false} RStripNulPadding(s: string, pad: nat)
    requires |s| == 0 || s[|s| - 1] != '\0'
    ensures RStripNul(s + seq(pad, _ => '\0')) == s
  {
    if pad > 0 {
      var t := s + seq(pad, _ => '\0');
      assert t[..|t| - 1] == s + seq(pad - 1, _ => '\0');
      RStripNulPadding(s, pad - 1);
    } else {
      assert s + seq(pad, _ => '\0') == s;
    }
  }

  // ---- hexadecimal ----

  predicate IsLowerHexDigit(c: char) {
    '0' <= c <= '9' || 'a' <= c <= 'f'
  }

  predicate IsHexDigit(c: char) {
    IsLowerHexDigit(c) || 'A' <= c <= 'F'
  }

  function HexDigit(d: nat): (c: char)
    requires d < 16
    ensures IsLowerHexDigit(c)
  {
    if d < 10 then ('0' as int + d) as char else ('a' as int + d - 10) as char
  }

  function DigitValue(c: char): (d: nat)
    requires IsHexDigit(c)
    ensures d < 16
  {
    if '0' <= c <= '9' then c as int - '0' as int
    else if 'a' <= c <= 'f' then c as int - 'a' as int + 10
    else c as int - 'A' as int + 10
  }

  /** `f'{n:x}'`: lowercase hexadecimal without leading zeros. */
  function HexString(n: nat): (r: string)
    ensures |r| >= 1
    ensures forall i :: 0 <= i < |r| ==> IsLowerHexDigit(r[i])
    ensures r[0] != '0' || n == 0
    ensures n == 0 ==> r == "0"
  {
    if n < 16 then [HexDigit(n)] else HexString(n / 16) + [HexDigit(n % 16)]
  }

  /** The number a non-empty string of hex digits denotes, most
      significant digit first. */
  function HexValue(s: string): nat
    requires forall i :: 0 <= i < |s| ==> IsHexDigit(s[i])
  {
    if |s| == 0 then 0 else 16 * HexValue(s[..|s| - 1]) + DigitValue(s[|s| - 1])
  }

  /** `int(s, 16)` on plain digit strings; `None` is the ValueError. */
  function ParseHex(s: string): (r: Option<nat>)
    ensures r.Some? <==> |s| >= 1 && forall i :: 0 <= i < |s| ==> IsHexDigit(s[i])
  {
    if |s| >= 1 && forall i :: 0 <= i < |s| ==> IsHexDigit(s[i]) then Some(HexValue(s)) else None
  }

  lemma {:induction false} HexValueOfHexString(n: nat)
    ensures HexValue(HexString(n)) == n
  {
    var r := HexString(n);
    if n >= 16 {
      HexValueOfHexString(n / 16);
      assert r[..|r| - 1] == HexString(n / 16);
    }
  }

  lemma ParseHexString(n: nat)
    ensures ParseHex(HexString(n)) == Some(n)
  {
    HexValueOfHexString(n);
  }

  lemma HexDigitOfValue(c: char)
    requires IsLowerHexDigit(c)
    ensures HexDigit(DigitValue(c)) == c
  {
  }

  lemma {:induction false} HexValueOfZeros(z: string)
    requires forall i :: 0 <= i < |z| ==> z[i] == '0'
    ensures HexValue(z) == 0
    decreases |z|
  {
    if |z| > 0 {
      HexValueOfZeros(z[..|z| - 1]);
    }
  }

  /** Leading zeros do not change what a hex numeral denotes. */
  lemma {:induction false} HexValueLeadingZeros(z: string, s: string)
    requires forall i :: 0 <= i < |z| ==> z[i] == '0'
    requires forall i :: 0 <= i < |s| ==> IsHexDigit(s[i])
    ensures forall i :: 0 <= i < |z + s| ==> IsHexDigit((z + s)[i])
    ensures HexValue(z + s) == HexValue(s)
    decreases |s|
  {
    if |s| == 0 {
      assert z + s == z;
      HexValueOfZeros(z);
    } else {
      var t := z + s;
      assert t[..|t| - 1] == z + s[..|s| - 1];
      HexValueLeadingZeros(z, s[..|s| - 1]);
    }
  }

  /** Two lowercase numerals of the same length that denote the same
      number are the same text. */
  lemma {:induction false} HexValueInjective(a: string, b: string)
    requires |a| == |b|
    requires forall i :: 0 <= i < |a| ==> IsLowerHexDigit(a[i])
    requires forall i :: 0 <= i < |b| ==> IsLowerHexDigit(b[i])
    requires HexValue(a) == HexValue(b)
    ensures a == b
    decreases |a|
  {
    if |a| > 0 {
      var n := |a| - 1;
      DivModUnique(HexValue(a), 16, HexValue(a[..n]), DigitValue(a[n]));
      DivModUnique(HexValue(b), 16, HexValue(b[..n]), DigitValue(b[n]));
      HexValueInjective(a[..n], b[..n]);
      HexDigitOfValue(a[n]);
      HexDigitOfValue(b[n]);
      assert a == a[..n] + [a[n]] && b == b[..n] + [b[n]];
    }
  }

  /** `f'{n:x}'` is never longer than a numeral that denotes `n`. */
  lemma {:induction false} HexStringNoLonger(s: string)
    requires |s| >= 1 && forall i :: 0 <= i < |s| ==> IsLowerHexDigit(s[i])
    ensures |HexString(HexValue(s))| <= |s|
    decreases |s|
  {
    var v := HexValue(s);
    var n := |s| - 1;
    if n >= 1 && v >= 16 {
      DivModUnique(v, 16, HexValue(s[..n]), DigitValue(s[n]));
      HexStringNoLonger(s[..n]);
    }
  }

  /** `f'{v:x}'` for any integer: a minus sign before the digits of `-v`. */
  function FormatHex(v: int): (r: string)
    ensures v >= 0 ==> r == HexString(v)
    ensures v < 0 ==> r == "-" + HexString(-v)
  {
    if v < 0 then "-" + HexString(-v) else HexString(v)
  }

  /** `s.zfill(w)` for a string without a sign: zeros on the left up to
      width `w`; a string already that long is unchanged. */
  function ZeroFill(s: string, w: nat): (r: string)
    ensures |r| == if |s| >= w then |s| else w
    ensures s <= r[|r| - |s|..] && r[|r| - |s|..] == s
    ensures forall i :: 0 <= i < |r| - |s| ==> r[i] == '0'
  {
    if |s| >= w then s else seq(w - |s|, _ => '0') + s
  }

  // ---- decimal ----

  predicate IsDigit(c: char) {
    '0' <= c <= '9'
  }

  function DigitsValue(s: string): nat
    requires forall i :: 0 <= i < |s| ==> IsDigit(s[i])
  {
    if |s| == 0 then 0
    else
      assert IsDigit(s[|s| - 1]);
      10 * DigitsValue(s[..|s| - 1]) + (s[|s| - 1] as int - '0' as int)
  }

  predicate AllDigits(s: string) {
    |s| >= 1 && forall i :: 0 <= i < |s| ==> IsDigit(s[i])
  }

  /** `int(s)` on an optional sign followed by decimal digits; `None` is
      the ValueError Python raises for anything else. */
  function ParseDecimal(s: string): (r: Option<int>)
    ensures r.Some? <==> AllDigits(s) || (|s| >= 2 && (s[0] == '-' || s[0] == '+') && AllDigits(s[1..]))
    ensures r.Some? && AllDigits(s) ==> r.value >= 0
  {
    if AllDigits(s) then Some(DigitsValue(s) as int)
    else if |s| >= 2 && s[0] == '-' && AllDigits(s[1..]) then
      var n: int := DigitsValue(s[1..]);
      Some(-n)
    else if |s| >= 2 && s[0] == '+' && AllDigits(s[1..]) then Some(DigitsValue(s[1..]))
    else None
  }

  function NatString(n: nat): (r: string)
    ensures AllDigits(r)
  {
    if n < 10 then [('0' as int + n) as char] else NatString(n / 10) + [('0' as int + n % 10) as char]
  }

  /** `str(v)`. */
  function DecimalString(v: int): string {
    if v < 0 then "-" + NatString(-v) else NatString(v)
  }

  lemma {:induction false} DigitsValueOfNatString(n: nat)
    ensures DigitsValue(NatString(n)) == n
  {
    if n >= 10 {
      var r := NatString(n);
      DigitsValueOfNatString(n / 10);
      assert r[..|r| - 1] == NatString(n / 10);
    }
  }

  lemma ParseDecimalString(v: int)
    ensures ParseDecimal(DecimalString(v)) == Some(v)
  {
    if v < 0 {
      var r := DecimalString(v);
      assert r[1..] == NatString(-v);
      assert !AllDigits(r) by { assert !IsDigit(r[0]); }
      DigitsValueOfNatString(-v);
    } else {
      DigitsValueOfNatString(v);
    }
  }

  // ---- split and strip ----

  /** `s.split(sep)`: the pieces between separators, one more than the
      number of separators. */
  function Split(s: string, sep: char): (r: seq<string>)
    ensures |r| == Count(s, sep) + 1
    ensures forall k :: 0 <= k < |r| ==> sep !in r[k]
    decreases |s|
  {
    if |s| == 0 then [""]
    else
      var rest := Split(s[1..], sep);
      if s[0] == sep then [""] + rest
      else [[s[0]] + rest[0]] + rest[1..]
  }

  /** `sep.join(parts)`. */
  function Join(parts: seq<string>, sep: char): string
    requires |parts| >= 1
  {
    if |parts| == 1 then parts[0] else parts[0] + [sep] + Join(parts[1..], sep)
  }

  function Count(s: string, c: char): nat {
    if |s| == 0 then 0 else (if s[0] == c then 1 else 0) + Count(s[1..], c)
  }

  lemma {:induction false} SplitJoin(s: string, sep: char)
    ensures Join(Split(s, sep), sep) == s
    decreases |s|
  {
    if |s| > 0 {
      var rest := Split(s[1..], sep);
      SplitJoin(s[1..], sep);
      if s[0] == sep {
        assert ([""] + rest)[1..] == rest;
      } else {
        var r := [[s[0]] + rest[0]] + rest[1..];
        if |rest| == 1 {
        } else {
          assert r[1..] == rest[1..];
          assert Join(rest, sep) == rest[0] + [sep] + Join(rest[1..], sep);
        }
      }
    }
  }

  lemma {:induction false} JoinSplit(parts: seq<string>, sep: char)
    requires |parts| >= 1
    requires forall k :: 0 <= k < |parts| ==> sep !in parts[k]
    ensures Split(Join(parts, sep), sep) == parts
    decreases |parts|, |parts[0]|
  {
    var p0 := parts[0];
    if |p0| == 0 {
      if |parts| > 1 {
        JoinSplit(parts[1..], sep);
        var s := Join(parts, sep);
        assert s == [sep] + Join(parts[1..], sep);
        assert s[1..] == Join(parts[1..], sep);
        assert [""] + parts[1..] == parts;
      }
    } else {
      var tail := [p0[1..]] + parts[1..];
      assert tail[1..] == parts[1..];
      JoinSplit(tail, sep);
      var s := Join(parts, sep);
      assert s == [p0[0]] + Join(tail, sep) by {
        if |parts| > 1 {
          assert Join(tail, sep) == p0[1..] + [sep] + Join(parts[1..], sep);
        }
      }
      assert s[1..] == Join(tail, sep);
      assert s[0] == p0[0] && p0[0] != sep;
      var rest := Split(s[1..], sep);
      assert [p0[0]] + p0[1..] == p0;
      assert [[s[0]] + rest[0]] + rest[1..] == parts;
    }
  }

  /** `s.strip(chars)`: `s` without its leading and trailing characters
      drawn from `chars`. */
  function Strip(s: string, chars: set<char>): (r: string)
    ensures |r| == 0 || (r[0] !in chars && r[|r| - 1] !in chars)
    ensures exists i :: StrippedAt(s, chars, r, i)
  {
    var lo := SkipFrom(s, chars, 0);
    var hi := SkipBackTo(s, chars, lo, |s|);
    assert StrippedAt(s, chars, s[lo..hi], lo);
    s[lo..hi]
  }

  /** Stripping takes off exactly the run of `chars` on either side. */
  lemma StripFramed(pre: string, mid: string, post: string, chars: set<char>)
    requires forall k :: 0 <= k < |pre| ==> pre[k] in chars
    requires forall k :: 0 <= k < |post| ==> post[k] in chars
    requires |mid| >= 1 && mid[0] !in chars && mid[|mid| - 1] !in chars
    ensures Strip(pre + mid + post, chars) == mid
  {
    var s := pre + mid + post;
    var lo := SkipFrom(s, chars, 0);
    var hi := SkipBackTo(s, chars, lo, |s|);
    assert s[|pre|] == mid[0];
    assert forall k :: 0 <= k < |pre| ==> s[k] in chars;
    assert lo == |pre|;
    var e := |pre| + |mid|;
    assert s[e - 1] == mid[|mid| - 1];
    assert forall k :: e <= k < |s| ==> s[k] in chars;
    assert hi == e;
    assert s[lo..hi] == mid;
  }

  /** `r` sits at offset `i` of `s` with only `chars` around it. */
  ghost predicate StrippedAt(s: string, chars: set<char>, r: string, i: int) {
    && 0 <= i && i + |r| <= |s| && r == s[i..i + |r|]
    && (forall k :: 0 <= k < i ==> s[k] in chars)
    && (forall k :: i + |r| <= k < |s| ==> s[k] in chars)
  }

  /** The first index from `i` on whose character is not in `chars`. */
  function SkipFrom(s: string, chars: set<char>, i: nat): (j: nat)
    requires i <= |s|
    ensures i <= j <= |s| && (j == |s| || s[j] !in chars)
    ensures forall k :: i <= k < j ==> s[k] in chars
    decreases |s| - i
  {
    if i < |s| && s[i] in chars then SkipFrom(s, chars, i + 1) else i
  }

  /** The last end, at most `j` and at least `lo`, whose preceding
      character is not in `chars`. */
  function SkipBackTo(s: string, chars: set<char>, lo: nat, j: nat): (e: nat)
    requires lo <= j <= |s|
    ensures lo <= e <= j && (e == lo || s[e - 1] !in chars)
    ensures forall k :: e <= k < j ==> s[k] in chars
    decreases j
  {
    if j > lo && s[j - 1] in chars then SkipBackTo(s, chars, lo, j - 1) else j
  }
}
