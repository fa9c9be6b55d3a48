/**
 * Character-level text formatting and parsing used by the sprite converter:
 * Python's `'%02x'` (two lower-case hexadecimal digits), `int(s, 16)`,
 * `str(n)` for integers, and a whitespace tokenizer that plays the part of
 * a reader of the produced `.spr` text.
 */
module Text {
  import opened Wrappers

  /** The whitespace characters a token reader skips. */
  predicate IsSpace(c: char) {
    c == ' ' || c == '\n' || c == '\t' || c == '\r'
  }

  /** The digit character for `d` in base 10 or 16, lower case as `%x` writes it. */
  function DigitChar(d: nat): (c: char)
    requires d < 16
    ensures !IsSpace(c) && c != '-'
  {
    if d < 10 then ('0' as int + d) as char else ('a' as int + d - 10) as char
  }

  /** The value of a digit character in base 16 (either case), or -1 for any other character. */
  function DigitValue(c: char): (d: int)
    ensures -1 <= d < 16
    ensures '0' <= c <= '9' ==> d < 10
  {
    if '0' <= c <= '9' then c as int - '0' as int
    else if 'a' <= c <= 'f' then c as int - 'a' as int + 10
    else if 'A' <= c <= 'F' then c as int - 'A' as int + 10
    else -1
  }

  lemma DigitValueOfChar(d: nat)
    requires d < 16
    ensures DigitValue(DigitChar(d)) == d
    ensures d < 10 ==> '0' <= DigitChar(d) <= '9'
  {
  }

  /** Every character of `s` is a digit of the given base. */
  predicate AllDigits(s: string, base: nat) {
    forall i :: 0 <= i < |s| ==> 0 <= DigitValue(s[i]) < base
  }

  /** The number that the digit string `s` denotes in `base` (most significant digit first). */
  function DigitsValue(s: string, base: nat): (n: nat)
    requires AllDigits(s, base)
  {
    if s == [] then 0
    else DigitsValue(s[..|s| - 1], base) * base + DigitValue(s[|s| - 1])
  }

  /** Python's `'%02x' % c` for a colour channel: exactly two lower-case hex digits. */
  function Hex2(c: int): (s: string)
    requires 0 <= c < 256
    ensures |s| == 2 && AllDigits(s, 16)
  {
    [DigitChar(c / 16), DigitChar(c % 16)]
  }

  /** Python's `'%02x%02x%02x' % (r, g, b)`. */
  function HexRgb(r: int, g: int, b: int): (s: string)
    requires 0 <= r < 256 && 0 <= g < 256 && 0 <= b < 256
    ensures |s| == 6 && AllDigits(s, 16)
  {
    Hex2(r) + Hex2(g) + Hex2(b)
  }

  /** Appending one digit multiplies the value read so far by the base and adds the digit. */
  lemma DigitsValueSnoc(s: string, c: char, base: nat)
    requires AllDigits(s, base) && 0 <= DigitValue(c) < base
    ensures AllDigits(s + [c], base)
    ensures DigitsValue(s + [c], base) == DigitsValue(s, base) * base + DigitValue(c)
  {
    assert (s + [c])[..|s|] == s;
  }

  /** Appending `'%02x' % c` shifts the value read so far by eight bits and adds `c`. */
  lemma DigitsValueHex2(s: string, c: int)
    requires AllDigits(s, 16) && 0 <= c < 256
    ensures AllDigits(s + Hex2(c), 16)
    ensures DigitsValue(s + Hex2(c), 16) == DigitsValue(s, 16) * 256 + c
  {
    DigitValueOfChar(c / 16);
    DigitValueOfChar(c % 16);
    DigitsValueSnoc(s, DigitChar(c / 16), 16);
    DigitsValueSnoc(s + [DigitChar(c / 16)], DigitChar(c % 16), 16);
    assert s + Hex2(c) == s + [DigitChar(c / 16)] + [DigitChar(c % 16)];
  }

  /** Reading the six-digit hex string back in base 16 gives the packed 24-bit colour. */
  lemma HexRgbValue(r: int, g: int, b: int)
    requires 0 <= r < 256 && 0 <= g < 256 && 0 <= b < 256
    ensures DigitsValue(HexRgb(r, g, b), 16) == r * 65536 + g * 256 + b
  {
    DigitsValueHex2([], r);
    assert [] + Hex2(r) == Hex2(r);
    DigitsValueHex2(Hex2(r), g);
    DigitsValueHex2(Hex2(r) + Hex2(g), b);
  }

  /** Python's `str(n)` for a non-negative integer: its decimal digits, no leading zeros. */
  function NatDigits(n: nat): (s: string)
    ensures |s| > 0 && AllDigits(s, 10)
    ensures forall i :: 0 <= i < |s| ==> '0' <= s[i] <= '9'
    ensures s[0] != '0' || n == 0
    decreases n
  {
    DigitValueOfChar(n % 10);
    if n < 10 then [DigitChar(n)] else NatDigits(n / 10) + [DigitChar(n % 10)]
  }

  /** Python's `str(n)` for any integer: a minus sign before the digits of a negative value. */
  function DecStr(n: int): (s: string)
    ensures |s| > 0
    ensures forall i :: 0 <= i < |s| ==> !IsSpace(s[i])
  {
    if n < 0 then "-" + NatDigits(-n) else NatDigits(n)
  }

  /** Reads an optionally signed decimal integer; `None` for anything else. */
  function ParseDec(s: string): (r: Option<int>)
    ensures r.Some? ==> |s| > 0
  {
    if |s| > 1 && s[0] == '-' && AllDigits(s[1..], 10) then
      var magnitude: int := DigitsValue(s[1..], 10); Some(-magnitude)
    else if |s| > 0 && AllDigits(s, 10) then Some(DigitsValue(s, 10))
    else None
  }

  lemma {:induction false} NatDigitsValue(n: nat)
    ensures DigitsValue(NatDigits(n), 10) == n
    decreases n
  {
    var s := NatDigits(n);
    DigitValueOfChar(n % 10);
    if n < 10 {
      assert s[..0] == [];
    } else {
      NatDigitsValue(n / 10);
      assert s[..|s| - 1] == NatDigits(n / 10);
    }
  }

  /** `ParseDec` inverts `DecStr`. */
  lemma DecRoundTrip(n: int)
    ensures ParseDec(DecStr(n)) == Some(n)
  {
    if n < 0 {
      NegativeRoundTrip(n);
    } else {
      NonNegativeRoundTrip(n);
    }
  }

  lemma NegativeRoundTrip(n: int)
    requires n < 0
    ensures ParseDec(DecStr(n)) == Some(n)
  {
    var digits := NatDigits(-n);
    var s := DecStr(n);
    assert s == "-" + digits;
    assert s[1..] == digits;
    assert |s| > 1 && s[0] == '-';
    assert AllDigits(s[1..], 10);
    NatDigitsValue(-n);
    var magnitude: int := DigitsValue(digits, 10);
    assert magnitude == -n;
    assert ParseDec(s) == Some(-magnitude);
  }

  lemma NonNegativeRoundTrip(n: nat)
    ensures ParseDec(DecStr(n)) == Some(n)
  {
    var s := NatDigits(n);
    assert DecStr(n) == s;
    assert '0' <= s[0] <= '9';
    NatDigitsValue(n);
    assert ParseDec(s) == Some(DigitsValue(s, 10));
  }

  /** The longest prefix of `s` holding no whitespace. */
  function Word(s: string): (w: string)
    ensures |w| <= |s| && w == s[..|w|]
    ensures forall i :: 0 <= i < |w| ==> !IsSpace(w[i])
    ensures |w| == |s| || IsSpace(s[|w|])
    ensures s != [] && !IsSpace(s[0]) ==> |w| > 0
  {
    if s == [] || IsSpace(s[0]) then [] else [s[0]] + Word(s[1..])
  }

  /** The whitespace-separated tokens of `s`, in order. */
  function Tokens(s: string): (ts: seq<string>)
    ensures forall k :: 0 <= k < |ts| ==> |ts[k]| > 0
    decreases |s|
  {
    if s == [] then []
    else if IsSpace(s[0]) then Tokens(s[1..])
    else var w := Word(s); [w] + Tokens(s[|w|..])
  }

  /** A space-free word followed by whitespace (or the end) is read as exactly that word. */
  lemma {:induction false} WordOfPrefix(w: string, rest: string)
    requires forall i :: 0 <= i < |w| ==> !IsSpace(w[i])
    requires rest == [] || IsSpace(rest[0])
    ensures Word(w + rest) == w
    decreases |w|
  {
    if w == [] {
      assert w + rest == rest;
    } else {
      assert (w + rest)[1..] == w[1..] + rest;
      WordOfPrefix(w[1..], rest);
      assert w == [w[0]] + w[1..];
    }
  }

  /** Text cut after a whitespace character tokenizes piecewise. */
  lemma {:induction false} TokensAppend(a: string, b: string)
    requires a == [] || IsSpace(a[|a| - 1])
    ensures Tokens(a + b) == Tokens(a) + Tokens(b)
    decreases |a|
  {
    if a == [] {
      assert a + b == b;
    } else if IsSpace(a[0]) {
      assert (a + b)[1..] == a[1..] + b;
      TokensAppend(a[1..], b);
    } else {
      var w := Word(a);
      var r := a[|w|..];
      assert |w| < |a|;
      assert a + b == w + (r + b) by {
        assert a == w + r;
      }
      assert Tokens(a + b) == [w] + Tokens(r + b) by {
        assert (r + b)[0] == a[|w|];
        WordOfPrefix(w, r + b);
        assert (a + b)[|w|..] == r + b;
      }
      assert Tokens(a) == [w] + Tokens(r);
      TokensAppend(r, b);
      ConsAssoc(w, Tokens(r), Tokens(b));
    }
  }

  /** `TokensSnoc` for the decimal text of a value. */
  lemma TokensSnocValue(prev: string, v: int, nl: string)
    requires prev == [] || IsSpace(prev[|prev| - 1])
    requires nl == "" || nl == "\n"
    ensures Tokens(prev + (DecStr(v) + " " + nl)) == Tokens(prev) + [DecStr(v)]
  {
    TokensSnoc(prev, DecStr(v), nl);
  }

  /** Regrouping for `TokensAppend`: the first word's token followed by both halves' tokens. */
  lemma ConsAssoc<T>(x: T, s: seq<T>, t: seq<T>)
    ensures [x] + (s + t) == [x] + s + t
  {
  }

  /** A token followed by a space, and perhaps a newline, reads back as that one token. */
  lemma TokensOfPiece(w: string, tail: string)
    requires |w| > 0 && forall i :: 0 <= i < |w| ==> !IsSpace(w[i])
    requires tail == " " || tail == " \n"
    ensures Tokens(w + tail) == [w]
  {
    WordOfPrefix(w, tail);
    var s := w + tail;
    assert s[|w|..] == tail;
    assert Tokens(s) == [w] + Tokens(tail);
    assert Tokens(tail) == Tokens(tail[1..]);
    if tail == " \n" {
      assert tail[1..] == "\n";
      assert Tokens("\n") == Tokens([]);
    } else {
      assert tail[1..] == [];
    }
  }
  /** Appending a token, its space and an optional newline to text that ends in whitespace appends that one token. */
  lemma TokensSnoc(prev: string, w: string, nl: string)
    requires prev == [] || IsSpace(prev[|prev| - 1])
    requires |w| > 0 && forall i :: 0 <= i < |w| ==> !IsSpace(w[i])
    requires nl == "" || nl == "\n"
    ensures Tokens(prev + (w + " " + nl)) == Tokens(prev) + [w]
  {
    var tail := " " + nl;
    assert tail == " " || tail == " \n";
    ConcatAssoc3(w, " ", nl);
    TokensOfPiece(w, tail);
    TokensAppend(prev, w + tail);
  }



  /** String concatenation regrouped, for the steps of `TokensSnoc`, `ConvertImage` and `RowTextNoNewlineStep` that append a token and its separators. */
  lemma ConcatAssoc3(a: string, b: string, c: string)
    ensures a + (b + c) == (a + b) + c
  {
  }
}
