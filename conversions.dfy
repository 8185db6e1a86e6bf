// The byte-to-value conversions the parser applies to what it reads:
// Python's `str`/`chr` renderings of single bytes joined into text, `int(...)`
// of such a text, the hex-weighted digit sum used for resource ids, and
// `int.from_bytes(..., byteorder='big')` used for section lengths.
module Conversions {
  import opened Types

  /** Python's slice `s[c : c + n]` for non-negative bounds: clamped to the end. */
  function Window(s: seq<Byte>, c: nat, n: nat): (r: seq<Byte>)
    ensures |r| <= n
    ensures c + n <= |s| ==> r == s[c..c + n]
    ensures c <= |s| ==> r == s[c..if c + n <= |s| then c + n else |s|]
    ensures |s| <= c ==> r == []
  {
    var lo := if c <= |s| then c else |s|;
    var hi := if c + n <= |s| then c + n else |s|;
    s[lo..hi]
  }

  function Pow(base: nat, e: nat): (r: nat)
    ensures base >= 1 ==> r >= 1
  {
    if e == 0 then 1 else base * Pow(base, e - 1)
  }

  // ---------------------------------------------------------------------------
  // Decimal text

  predicate IsDigit(ch: char) { '0' <= ch <= '9' }

  predicate AllDigits(text: string) {
    forall i :: 0 <= i < |text| ==> IsDigit(text[i])
  }

  function DigitChar(d: nat): (ch: char)
    requires d < 10
    ensures IsDigit(ch)
  {
    ('0' as int + d) as char
  }

  function DigitOf(ch: char): nat
    requires IsDigit(ch)
  {
    ch as int - '0' as int
  }

  /** Number of decimal digits of `n`. */
  function Width(n: nat): (w: nat)
    ensures w >= 1
  {
    if n < 10 then 1 else 1 + Width(n / 10)
  }

  /** Python's `str(n)` for a non-negative integer: no sign, no leading zero. */
  function DecimalString(n: nat): (s: string)
    ensures |s| >= 1 && AllDigits(s)
    ensures (s[0] == '0') == (n == 0)
  {
    if n < 10 then [DigitChar(n)] else DecimalString(n / 10) + [DigitChar(n % 10)]
  }

  /** The value of a digit text read positionally in `base`, most significant first. */
  function ValueInBase(text: string, base: nat): nat
    requires AllDigits(text)
  {
    if text == [] then 0
    else ValueInBase(text[..|text| - 1], base) * base + DigitOf(text[|text| - 1])
  }

  lemma {:induction false} DecimalStringValue(n: nat)
    ensures ValueInBase(DecimalString(n), 10) == n
    ensures |DecimalString(n)| == Width(n)
  {
    var s := DecimalString(n);
    if n >= 10 {
      DecimalStringValue(n / 10);
      assert s[..|s| - 1] == DecimalString(n / 10);
    }
  }

  lemma {:induction false} ValueInBaseAppend(x: string, y: string, base: nat)
    requires AllDigits(x) && AllDigits(y)
    ensures AllDigits(x + y)
    ensures ValueInBase(x + y, base) == ValueInBase(x, base) * Pow(base, |y|) + ValueInBase(y, base)
    decreases |y|
  {
    if y == [] {
      assert x + y == x;
    } else {
      var y' := y[..|y| - 1];
      var d := DigitOf(y[|y| - 1]);
      assert (x + y)[..|x + y| - 1] == x + y';
      assert (x + y)[|x + y| - 1] == y[|y| - 1];
      ValueInBaseAppend(x, y', base);
      assert AllDigits(x + y') && AllDigits(y');
      var vx, vy' := ValueInBase(x, base), ValueInBase(y', base);
      var p := Pow(base, |y'|);
      assert ValueInBase(x + y, base) == ValueInBase(x + y', base) * base + d;
      assert ValueInBase(y, base) == vy' * base + d by { assert y[..|y| - 1] == y'; }
      assert Pow(base, |y|) == base * p;
      ShiftDistributes(vx, p, vy', base, d);
    }
  }

  lemma ShiftDistributes(vx: nat, p: nat, vy: nat, base: nat, d: nat)
    ensures (vx * p + vy) * base + d == vx * (base * p) + (vy * base + d)
  {
  }

  /** Python's `int(text)` on the texts the parser builds: a non-empty run of
      decimal digits converts, anything else (the empty text) raises. */
  function DecimalLiteral(text: string): (r: Result<nat>)
    ensures r.Ok? <==> text != [] && AllDigits(text)
  {
    if text != [] && AllDigits(text) then Ok(ValueInBase(text, 10)) else Err(InvalidLiteral(text))
  }

  // ---------------------------------------------------------------------------
  // Renderings of byte runs

  /** `''.join(map(str, bytes))`: every byte written in decimal, concatenated. */
  function Render(s: seq<Byte>): (r: string)
    ensures AllDigits(r)
    ensures |r| >= |s|
  {
    if s == [] then [] else Render(s[..|s| - 1]) + DecimalString(s[|s| - 1])
  }

  /** `''.join(map(chr, bytes))`: every byte taken as one character. */
  function Chars(s: seq<Byte>): (r: string)
    ensures |r| == |s|
  {
    seq(|s|, i requires 0 <= i < |s| => s[i] as char)
  }

  /** The numeric reading of the joined decimal renderings, defined on the bytes:
      each byte shifts what came before by its own number of decimal digits. */
  function DigitFold(s: seq<Byte>): nat {
    if s == [] then 0 else Shift(DigitFold(s[..|s| - 1]), s[|s| - 1]) + s[|s| - 1]
  }

  /** `v` moved left by as many decimal places as `b` has digits. */
  function Shift(v: nat, b: Byte): nat {
    if b < 10 then 10 * v else if b < 100 then 100 * v else 1000 * v
  }

  lemma ShiftIsPow(v: nat, b: Byte)
    ensures Shift(v, b) == v * Pow(10, Width(b))
  {
    if b >= 10 {
      assert Width(b / 10) == (if b / 10 < 10 then 1 else 2);
    }
    assert Pow(10, 1) == 10 && Pow(10, 2) == 100 && Pow(10, 3) == 1000;
  }

  lemma {:induction false} RenderValue(s: seq<Byte>)
    ensures ValueInBase(Render(s), 10) == DigitFold(s)
  {
    if s != [] {
      var p, l := s[..|s| - 1], s[|s| - 1];
      RenderValue(p);
      DecimalStringValue(l);
      ValueInBaseAppend(Render(p), DecimalString(l), 10);
      ShiftIsPow(DigitFold(p), l);
    }
  }

  /** How the header decodes its integer fields: `int(''.join(map(str, bytes)))`.
      Not a binary reading: [0x01, 0x00] gives 10, not 256. An empty run (the
      buffer ran out) raises. */
  function DigitConcat(s: seq<Byte>): (r: Result<nat>)
    ensures s != [] ==> r == Ok(DigitFold(s))
    ensures s == [] ==> r == Err(InvalidLiteral(""))
  {
    RenderValue(s);
    DecimalLiteral(Render(s))
  }

  lemma DigitConcatIsNotBinary()
    ensures DigitConcat([1, 0]) == Ok(10)
    ensures DigitConcat([3, 237]) == Ok(3237)
    ensures BigEndian([1, 0]) == 256
  {
    assert [1, 0][..1] == [1] && [3, 237][..1] == [3];
    assert [1][..0] == [] && [3][..0] == [];
  }

  /** The only two-byte field that decodes to 1 is 00 01. */
  lemma TwoByteFieldIsOne(a: Byte, b: Byte)
    ensures DigitFold([a, b]) == 1 <==> a == 0 && b == 1
  {
    assert [a, b][..1] == [a];
    assert DigitFold([a]) == a by { assert [a][..0] == []; }
  }

  predicate AllZeroChars(t: string) {
    forall i :: 0 <= i < |t| ==> t[i] == '0'
  }

  predicate AllZeroBytes(s: seq<Byte>) {
    forall j :: 0 <= j < |s| ==> s[j] == 0
  }

  lemma {:induction false} RenderAllZero(s: seq<Byte>)
    ensures AllZeroChars(Render(s)) <==> AllZeroBytes(s)
    ensures AllZeroBytes(s) ==> |Render(s)| == |s|
  {
    if s != [] {
      var p, l := s[..|s| - 1], s[|s| - 1];
      RenderAllZero(p);
      var rp, dl := Render(p), DecimalString(l);
      assert Render(s) == rp + dl;
      assert AllZeroChars(rp + dl) <==> AllZeroChars(rp) && AllZeroChars(dl) by {
        if AllZeroChars(rp + dl) {
          forall i | 0 <= i < |rp| ensures rp[i] == '0' { assert (rp + dl)[i] == rp[i]; }
          forall i | 0 <= i < |dl| ensures dl[i] == '0' { assert (rp + dl)[|rp| + i] == dl[i]; }
        }
      }
      assert AllZeroChars(dl) <==> l == 0 by {
        if l == 0 { assert dl == ['0']; }
      }
      assert AllZeroBytes(s) <==> AllZeroBytes(p) && l == 0 by {
        if AllZeroBytes(p) && l == 0 {
          forall j | 0 <= j < |s| ensures s[j] == 0 {
            if j < |p| { assert s[j] == p[j]; }
          }
        }
      }
    }
  }

  function Zeros(k: nat): (t: string)
    ensures |t| == k && AllZeroChars(t)
  {
    seq(k, _ => '0')
  }

  function ZeroBytes(k: nat): (s: seq<Byte>)
    ensures |s| == k && AllZeroBytes(s)
  {
    seq(k, _ => 0)
  }

  /** A rendering is a run of k zero characters exactly when it came from k zero
      bytes: no non-zero byte renders with a leading '0'. */
  lemma RenderIsZeros(s: seq<Byte>, k: nat)
    ensures Render(s) == Zeros(k) <==> s == ZeroBytes(k)
  {
    RenderAllZero(s);
    if Render(s) == Zeros(k) {
      assert AllZeroChars(Render(s));
    }
    if AllZeroBytes(s) && |s| == k {
      assert Render(s) == Zeros(k);
    }
  }

  // ---------------------------------------------------------------------------
  // Resource ids

  /** `sum(int(ch) * 16 ** pos for pos, ch in enumerate(text[::-1]))`: each
      decimal digit weighted by a power of 16, the last digit by 16 ** 0. */
  function HexWeighted(text: string): nat
    requires AllDigits(text)
  {
    if text == [] then 0 else DigitOf(text[0]) * Pow(16, |text| - 1) + HexWeighted(text[1..])
  }

  /** The uid is the decimal rendering read as if its digits were hexadecimal. */
  lemma {:induction false} HexWeightedIsBase16(text: string)
    requires AllDigits(text)
    ensures HexWeighted(text) == ValueInBase(text, 16)
  {
    if text != [] {
      var c, rest := text[..1], text[1..];
      assert text == c + rest;
      HexWeightedIsBase16(rest);
      ValueInBaseAppend(c, rest, 16);
      assert c[..0] == [];
      assert ValueInBase(c, 16) == DigitOf(text[0]);
    }
  }

  // ---------------------------------------------------------------------------
  // Big-endian lengths

  /** `int.from_bytes(s, byteorder='big')`; the empty run gives 0. */
  function BigEndian(s: seq<Byte>): nat {
    if s == [] then 0 else BigEndian(s[..|s| - 1]) * 256 + s[|s| - 1]
  }

  /** The inverse writer: `n.to_bytes(k, byteorder='big')` for n below 256^k. */
  function EncodeBigEndian(n: nat, k: nat): (r: seq<Byte>)
    ensures |r| == k
  {
    if k == 0 then [] else EncodeBigEndian(n / 256, k - 1) + [n % 256]
  }

  lemma {:induction false} BigEndianRoundTrip(n: nat, k: nat)
    requires n < Pow(256, k)
    ensures BigEndian(EncodeBigEndian(n, k)) == n
  {
    if k > 0 {
      var e := EncodeBigEndian(n, k);
      assert e[..|e| - 1] == EncodeBigEndian(n / 256, k - 1);
      assert n / 256 < Pow(256, k - 1);
      BigEndianRoundTrip(n / 256, k - 1);
    }
  }

  lemma {:induction false} BigEndianBound(s: seq<Byte>)
    ensures BigEndian(s) < Pow(256, |s|)
  {
    if s != [] {
      var p := s[..|s| - 1];
      BigEndianBound(p);
      assert BigEndian(p) + 1 <= Pow(256, |p|);
      assert BigEndian(p) * 256 + 256 <= Pow(256, |p|) * 256;
    }
  }

  /** A length field is zero exactly when all of its bytes are zero. */
  lemma {:induction false} BigEndianZero(s: seq<Byte>)
    ensures BigEndian(s) == 0 <==> AllZeroBytes(s)
  {
    if s != [] {
      var p := s[..|s| - 1];
      BigEndianZero(p);
      if AllZeroBytes(s) {
        assert AllZeroBytes(p) by {
          forall j | 0 <= j < |p| ensures p[j] == 0 { assert p[j] == s[j]; }
        }
      }
      if BigEndian(s) == 0 {
        forall j | 0 <= j < |s| ensures s[j] == 0 {
          if j < |p| { assert s[j] == p[j]; }
        }
      }
    }
  }
}
