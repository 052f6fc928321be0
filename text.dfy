/** The pieces of Python's `str` and `bytes` behaviour that the protocol code
    relies on: ASCII encoding and decoding, slicing, `strip`, `lower`,
    `upper`, `re.split` on a character class, `hex`, `zfill` and `int`. */
module Text {
  import opened Wrappers

  type Byte = b: int | 0 <= b < 256

  predicate IsAscii(s: string)
  {
    forall i :: 0 <= i < |s| ==> s[i] as int < 128
  }

  predicate IsAsciiBytes(b: seq<Byte>)
  {
    forall i :: 0 <= i < |b| ==> b[i] < 128
  }

  /** `s.encode('utf-8')` for ASCII text: one byte per character. */
  function Encode(s: string): (b: seq<Byte>)
    requires IsAscii(s)
    ensures |b| == |s| && IsAsciiBytes(b)
    ensures forall i :: 0 <= i < |s| ==> b[i] == s[i] as int
  {
    seq(|s|, i requires 0 <= i < |s| => s[i] as int)
  }

  /** `b.decode()`: ASCII bytes decode one character each; any other byte is
      a decoding failure in this model. */
  function Decode(b: seq<Byte>): (r: Result<string>)
    ensures r.Ok? <==> IsAsciiBytes(b)
    ensures r.Err? ==> r.error == UnicodeDecodeError
    ensures r.Ok? ==> |r.value| == |b| && IsAscii(r.value) && Encode(r.value) == b
  {
    if IsAsciiBytes(b) then Ok(seq(|b|, i requires 0 <= i < |b| => b[i] as char))
    else Err(UnicodeDecodeError)
  }

  lemma DecodeEncode(s: string)
    requires IsAscii(s)
    ensures Decode(Encode(s)) == Ok(s)
  {
    var r := Decode(Encode(s));
    assert r.Ok?;
    assert forall i :: 0 <= i < |s| ==> r.value[i] == s[i];
    assert r.value == s;
  }

  lemma EncodeAppend(a: string, b: string)
    requires IsAscii(a) && IsAscii(b)
    ensures IsAscii(a + b) && Encode(a + b) == Encode(a) + Encode(b)
  {
    assert forall i :: 0 <= i < |a + b| ==> (a + b)[i] == if i < |a| then a[i] else b[i - |a|];
  }

  /** Python's `s[:n]` for `n >= 0`. */
  function Take<T>(s: seq<T>, n: nat): (r: seq<T>)
    ensures |r| == if n < |s| then n else |s|
    ensures r == s[..|r|]
  {
    if n < |s| then s[..n] else s
  }

  /** Python's `s[n:]` for `n >= 0`. */
  function Drop<T>(s: seq<T>, n: nat): (r: seq<T>)
    ensures Take(s, n) + r == s
  {
    if n < |s| then s[n..] else []
  }

  /** `str.isspace()` for one character. */
  predicate IsSpace(c: char)
  {
    || 9 <= c as int <= 13 || 28 <= c as int <= 32
    || c as int == 0x85 || c as int == 0xA0 || c as int == 0x1680
    || 0x2000 <= c as int <= 0x200A
    || c as int == 0x2028 || c as int == 0x2029 || c as int == 0x202F
    || c as int == 0x205F || c as int == 0x3000
  }

  /** `s.lstrip()`. */
  function StripStart(s: string): (r: string)
    ensures |r| <= |s| && r == s[|s| - |r|..]
    ensures forall i :: 0 <= i < |s| - |r| ==> IsSpace(s[i])
    ensures r == [] || !IsSpace(r[0])
  {
    if |s| > 0 && IsSpace(s[0]) then StripStart(s[1..]) else s
  }

  /** `s.rstrip()`. */
  function StripEnd(s: string): (r: string)
    ensures |r| <= |s| && r == s[..|r|]
    ensures forall i :: |r| <= i < |s| ==> IsSpace(s[i])
    ensures r == [] || !IsSpace(r[|r| - 1])
  {
    if |s| > 0 && IsSpace(s[|s| - 1]) then StripEnd(s[..|s| - 1]) else s
  }

  /** `s.strip()`. */
  function Strip(s: string): string
  {
    StripEnd(StripStart(s))
  }

  /** Stripping text that starts and ends with a non-space character,
      followed by white space, gives back the text. */
  lemma StripTrailing(x: string, w: string)
    requires x != [] && !IsSpace(x[0]) && !IsSpace(x[|x| - 1])
    requires forall i :: 0 <= i < |w| ==> IsSpace(w[i])
    ensures Strip(x + w) == x
  {
    assert StripStart(x + w) == x + w by {
      assert (x + w)[0] == x[0];
    }
    StripEndOfSpaces(x, w);
  }

  lemma {:induction false} StripEndOfSpaces(x: string, w: string)
    requires x == [] || !IsSpace(x[|x| - 1])
    requires forall i :: 0 <= i < |w| ==> IsSpace(w[i])
    ensures StripEnd(x + w) == x
    decreases |w|
  {
    if |w| == 0 {
      assert x + w == x;
    } else {
      var s := x + w;
      assert s[|s| - 1] == w[|w| - 1];
      assert s[..|s| - 1] == x + w[..|w| - 1];
      StripEndOfSpaces(x, w[..|w| - 1]);
    }
  }

  /** What `strip` leaves neither starts nor ends with white space. */
  lemma StripEnds(s: string)
    ensures Strip(s) == [] || (!IsSpace(Strip(s)[0]) && !IsSpace(Strip(s)[|Strip(s)| - 1]))
  {
    var t := StripStart(s);
    var r := StripEnd(t);
    if r != [] {
      assert r[0] == t[0];
    }
  }

  /** Lowering a character keeps it white space or not, and leaves no
      upper-case letter. */
  lemma LowerCharSpace(c: char)
    ensures IsSpace(LowerChar(c)) <==> IsSpace(c)
    ensures !('A' <= LowerChar(c) <= 'Z')
  {
  }

  lemma StripUnchanged(s: string)
    requires s == [] || (!IsSpace(s[0]) && !IsSpace(s[|s| - 1]))
    ensures Strip(s) == s
  {
  }

  function LowerChar(c: char): char
  {
    if 'A' <= c <= 'Z' then (c as int + 32) as char else c
  }

  function UpperChar(c: char): char
  {
    if 'a' <= c <= 'z' then (c as int - 32) as char else c
  }

  /** `s.lower()` on ASCII letters. */
  function Lower(s: string): (r: string)
    ensures |r| == |s| && forall i :: 0 <= i < |s| ==> r[i] == LowerChar(s[i])
  {
    seq(|s|, i requires 0 <= i < |s| => LowerChar(s[i]))
  }

  /** `s.upper()` on ASCII letters. */
  function Upper(s: string): (r: string)
    ensures |r| == |s| && forall i :: 0 <= i < |s| ==> r[i] == UpperChar(s[i])
  {
    seq(|s|, i requires 0 <= i < |s| => UpperChar(s[i]))
  }

  /** Index of the first character of `s` that belongs to `cs`, or -1. */
  function IndexOfAny(s: string, cs: set<char>): (k: int)
    ensures -1 <= k < |s|
    ensures k >= 0 ==> s[k] in cs && forall i :: 0 <= i < k ==> s[i] !in cs
    ensures k < 0 ==> forall i :: 0 <= i < |s| ==> s[i] !in cs
  {
    if |s| == 0 then -1
    else if s[0] in cs then 0
    else
      var k := IndexOfAny(s[1..], cs);
      if k < 0 then -1 else k + 1
  }

  /** The first separator after a separator-free prefix is the one right
      after it. */
  lemma IndexOfAnyAt(a: string, c: char, b: string, cs: set<char>)
    requires forall i :: 0 <= i < |a| ==> a[i] !in cs
    requires c in cs
    ensures IndexOfAny(a + [c] + b, cs) == |a|
  {
    var s := a + [c] + b;
    var k := IndexOfAny(s, cs);
    assert s[|a|] == c;
    assert forall i :: 0 <= i < |a| ==> s[i] == a[i];
  }

  /** `re.split('[...]', s)` where the class `seps` holds single characters:
      every separator ends one part, so consecutive separators give empty
      parts. */
  function Split(s: string, seps: set<char>): (parts: seq<string>)
    ensures |parts| >= 1
    ensures forall i, j :: 0 <= i < |parts| && 0 <= j < |parts[i]| ==> parts[i][j] !in seps
    ensures |parts| == 1 <==> forall i :: 0 <= i < |s| ==> s[i] !in seps
    ensures |parts| == 1 ==> parts[0] == s
    decreases |s|
  {
    if |s| == 0 then [""]
    else if s[0] in seps then [""] + Split(s[1..], seps)
    else
      var rest := Split(s[1..], seps);
      [[s[0]] + rest[0]] + rest[1..]
  }

  /** A part free of separators followed by a separator is split off whole. */
  lemma {:induction false} SplitAt(a: string, c: char, b: string, seps: set<char>)
    requires forall i :: 0 <= i < |a| ==> a[i] !in seps
    requires c in seps
    ensures Split(a + [c] + b, seps) == [a] + Split(b, seps)
    decreases |a|
  {
    if |a| == 0 {
      assert a + [c] + b == [c] + b;
      assert ([c] + b)[1..] == b;
    } else {
      var s := a + [c] + b;
      assert s[0] == a[0] && s[0] !in seps;
      assert s[1..] == a[1..] + [c] + b;
      SplitAt(a[1..], c, b, seps);
      assert [a[0]] + a[1..] == a;
    }
  }

  /** `re.split('[...]', s, 1)` when `s` holds a separator: the text before
      and after the first one. */
  function SplitOnce(s: string, seps: set<char>): (r: (string, string))
    requires exists i :: 0 <= i < |s| && s[i] in seps
    ensures exists k :: 0 <= k < |s| && s[k] in seps && r.0 == s[..k] && r.1 == s[k + 1..]
    ensures forall i :: 0 <= i < |r.0| ==> r.0[i] !in seps
  {
    var k := IndexOfAny(s, seps);
    (s[..k], s[k + 1..])
  }

  predicate IsDigit(c: char)
  {
    '0' <= c <= '9'
  }

  predicate IsHexDigit(c: char)
  {
    '0' <= c <= '9' || 'a' <= c <= 'f' || 'A' <= c <= 'F'
  }

  /** Regular-expression `\w` on ASCII. */
  predicate IsWordChar(c: char)
  {
    'a' <= c <= 'z' || 'A' <= c <= 'Z' || '0' <= c <= '9' || c == '_'
  }

  predicate AllDigits(s: string)
  {
    forall i :: 0 <= i < |s| ==> IsDigit(s[i])
  }

  predicate AllHexDigits(s: string)
  {
    forall i :: 0 <= i < |s| ==> IsHexDigit(s[i])
  }

  function HexDigitValue(c: char): (d: nat)
    requires IsHexDigit(c)
    ensures d < 16
  {
    if '0' <= c <= '9' then c as int - '0' as int
    else if 'a' <= c <= 'f' then c as int - 'a' as int + 10
    else c as int - 'A' as int + 10
  }

  /** The value of a string of hexadecimal digits, most significant first. */
  function HexValue(s: string): nat
    requires AllHexDigits(s)
  {
    if |s| == 0 then 0 else HexValue(s[..|s| - 1]) * 16 + HexDigitValue(s[|s| - 1])
  }

  /** The value of a string of decimal digits, as `int(s)` gives it. */
  function DecimalValue(s: string): nat
    requires AllDigits(s)
  {
    if |s| == 0 then 0 else DecimalValue(s[..|s| - 1]) * 10 + (s[|s| - 1] as int - '0' as int)
  }

  function LowerHexDigit(d: nat): (c: char)
    requires d < 16
    ensures IsHexDigit(c) && HexDigitValue(c) == d
  {
    if d < 10 then ('0' as int + d) as char else ('a' as int + d - 10) as char
  }

  /** The lower-case hexadecimal digits of `n` without leading zeros, as in
      `hex(n)[2:]` for `n >= 0`. */
  function Hex(n: nat): (s: string)
    ensures |s| >= 1 && AllHexDigits(s)
    ensures forall i :: 0 <= i < |s| ==> s[i] != 'x' && s[i] != 'X'
    decreases n
  {
    if n < 16 then [LowerHexDigit(n)] else Hex(n / 16) + [LowerHexDigit(n % 16)]
  }

  /** Python's `hex(n)`: "0x" and the digits, with a leading '-' when negative. */
  function PyHex(n: int): string
  {
    if n >= 0 then "0x" + Hex(n) else "-0x" + Hex(-n)
  }

  function Zeros(k: nat): (z: string)
    ensures |z| == k && forall i :: 0 <= i < k ==> z[i] == '0'
  {
    if k == 0 then [] else Zeros(k - 1) + ['0']
  }

  /** Python's `s.zfill(width)`: pad with zeros on the left, after a leading
      sign if there is one. */
  function ZFill(s: string, width: nat): string
  {
    if |s| >= width then s
    else if |s| > 0 && (s[0] == '+' || s[0] == '-') then [s[0]] + Zeros(width - |s|) + s[1..]
    else Zeros(width - |s|) + s
  }

  lemma {:induction false} HexValueOfHex(n: nat)
    ensures HexValue(Hex(n)) == n
    decreases n
  {
    if n >= 16 {
      HexValueOfHex(n / 16);
      var s := Hex(n);
      assert s[..|s| - 1] == Hex(n / 16);
    }
  }

  lemma {:induction false} HexValueOfUpper(s: string)
    requires AllHexDigits(s)
    ensures AllHexDigits(Upper(s)) && HexValue(Upper(s)) == HexValue(s)
    decreases |s|
  {
    if |s| > 0 {
      HexValueOfUpper(s[..|s| - 1]);
      assert Upper(s)[..|s| - 1] == Upper(s[..|s| - 1]);
    }
  }

  lemma {:induction false} HexValueOfZeros(k: nat, s: string)
    requires AllHexDigits(s)
    ensures AllHexDigits(Zeros(k) + s) && HexValue(Zeros(k) + s) == HexValue(s)
    decreases |s|, k
  {
    var z := Zeros(k) + s;
    if |s| > 0 {
      HexValueOfZeros(k, s[..|s| - 1]);
      assert z[..|z| - 1] == Zeros(k) + s[..|s| - 1];
    } else if k > 0 {
      HexValueOfZeros(k - 1, s);
      assert z == Zeros(k - 1) + ['0'];
      assert z[..|z| - 1] == Zeros(k - 1) + s;
    }
  }

  /** Upper-casing leaves Python's `hex` digits case-insensitive in value:
      the upper-case, zero-padded code `ZFill(Hex(n), 2)` still reads as `n`. */
  lemma HexCode(n: nat)
    ensures AllHexDigits(Upper(ZFill(Hex(n), 2)))
    ensures HexValue(Upper(ZFill(Hex(n), 2))) == n
    ensures |Upper(ZFill(Hex(n), 2))| >= 2
  {
    var h := Hex(n);
    HexValueOfHex(n);
    if |h| >= 2 {
      HexValueOfUpper(h);
    } else {
      assert ZFill(h, 2) == Zeros(1) + h;
      HexValueOfZeros(1, h);
      HexValueOfUpper(Zeros(1) + h);
    }
  }
}
