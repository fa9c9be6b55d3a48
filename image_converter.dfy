/**
 * The sprite converter: turns the RGBA pixels of an image, in row-major
 * order, into the plain-text `.spr` format. Each pixel becomes one decimal
 * token (its packed 24-bit colour when fully opaque, -1 otherwise), every
 * token is followed by a space, and a newline ends every row of `width`
 * tokens.
 */
module ImageConverter {
  import opened Wrappers
  import opened Text

  /** One colour or alpha channel of an RGBA image. */
  type Channel = c: int | 0 <= c < 256

  /** One pixel as produced by an RGBA conversion: (red, green, blue, alpha). */
  type Pixel = (Channel, Channel, Channel, Channel)

  /** The token written for a pixel that is not fully opaque. */
  const Transparent: int := -1

  /** The largest packed colour, 0xFFFFFF. */
  const MaxColour: int := 16777215

  /**
   * The value of one pixel: the hex string of its colour read back in base 16,
   * replaced by -1 unless alpha is exactly 255.
   */
  function EncodePixel(p: Pixel): (v: int)
    ensures p.3 == 255 ==> v == p.0 * 65536 + p.1 * 256 + p.2
    ensures p.3 != 255 ==> v == Transparent
    ensures Transparent <= v <= MaxColour
    ensures v == Transparent <==> p.3 != 255
  {
    HexRgbValue(p.0, p.1, p.2);
    var val := DigitsValue(HexRgb(p.0, p.1, p.2), 16);
    if p.3 != 255 then Transparent else val
  }

  /** What a reader of a token recovers: the (r, g, b) channels, or `None` for a transparent pixel. */
  function DecodeToken(v: int): (c: Option<(int, int, int)>)
  {
    if v == Transparent then None else Some((v / 65536, (v / 256) % 256, v % 256))
  }

  lemma DivModUnique(x: int, d: int, q: int, r: int)
    requires d > 0 && 0 <= r < d && x == q * d + r
    ensures x / d == q && x % d == r
  {
    var q', r' := x / d, x % d;
    assert (q - q') * d == r' - r;
    if q > q' {
      MulAtLeast(q - q', d);
    } else if q < q' {
      MulAtLeast(q' - q, d);
    }
  }

  lemma MulAtLeast(k: int, d: int)
    requires k >= 1 && d > 0
    ensures k * d >= d
  {
  }

  /** Decoding an encoded pixel gives back its colour exactly when it was opaque. */
  lemma DecodeEncode(p: Pixel)
    ensures DecodeToken(EncodePixel(p)) == if p.3 == 255 then Some((p.0, p.1, p.2)) else None
  {
    if p.3 == 255 {
      var v := EncodePixel(p);
      DivModUnique(v, 65536, p.0, p.1 * 256 + p.2);
      DivModUnique(v, 256, p.0 * 256 + p.1, p.2);
      DivModUnique(p.0 * 256 + p.1, 256, p.0, p.1);
    }
  }

  /** Two opaque pixels with the same token have the same colour. */
  lemma EncodeInjective(p: Pixel, q: Pixel)
    requires p.3 == 255 && q.3 == 255
    requires EncodePixel(p) == EncodePixel(q)
    ensures (p.0, p.1, p.2) == (q.0, q.1, q.2)
  {
    DecodeEncode(p);
    DecodeEncode(q);
  }

  /** The decimal tokens of the first `n` pixels, in pixel order. */
  function TokenTexts(pixels: seq<Pixel>, n: nat): (ts: seq<string>)
    requires n <= |pixels|
    ensures |ts| == n
    ensures forall k :: 0 <= k < n ==> ts[k] == DecStr(EncodePixel(pixels[k]))
  {
    if n == 0 then [] else TokenTexts(pixels, n - 1) + [DecStr(EncodePixel(pixels[n - 1]))]
  }

  /** What the converter writes for pixel number `i`: its token, a space, and a newline after every `width`-th token. */
  function Piece(v: int, i: nat, width: nat): string
    requires width > 0
  {
    DecStr(v) + " " + RowBreak(i + 1, width)
  }

  /** The newline written once `count` tokens have been written, when that completes a row. */
  function RowBreak(count: nat, width: nat): (nl: string)
    requires width > 0
    ensures nl == "" || nl == "\n"
  {
    if count % width == 0 then "\n" else ""
  }

  /** The text written after the first `n` pixels. */
  function Emitted(pixels: seq<Pixel>, width: nat, n: nat): string
    requires n <= |pixels| && (n == 0 || width > 0)
  {
    if n == 0 then ""
    else Emitted(pixels, width, n - 1) + Piece(EncodePixel(pixels[n - 1]), n - 1, width)
  }

  /** One line of the reference layout: each pixel's token followed by a space. */
  function RowText(row: seq<Pixel>): string
  {
    if row == [] then ""
    else RowText(row[..|row| - 1]) + DecStr(EncodePixel(row[|row| - 1])) + " "
  }

  /**
   * The reference layout, row by row: the first `width` tokens and a newline,
   * then the layout of the remaining pixels; a final row shorter than `width`
   * gets no newline.
   */
  function Layout(pixels: seq<Pixel>, width: nat): string
    requires width > 0
    decreases |pixels|
  {
    if |pixels| < width then RowText(pixels)
    else RowText(pixels[..width]) + "\n" + Layout(pixels[width..], width)
  }

  /** The text `.spr` reader sees: one parsed integer per whitespace-separated token. */
  function ReadSpr(text: string): (vs: seq<Option<int>>)
    ensures |vs| == |Tokens(text)|
  {
    seq(|Tokens(text)|, k requires 0 <= k < |Tokens(text)| => ParseDec(Tokens(text)[k]))
  }

  function CountNewlines(s: string): nat {
    if s == [] then 0 else CountNewlines(s[..|s| - 1]) + (if s[|s| - 1] == '\n' then 1 else 0)
  }

  /**
   * The converter (the loop over `range(width*height)`): it appends each
   * pixel's token and separator to the output in pixel order.
   */
  method ConvertImage(pixels: seq<Pixel>, width: nat, height: nat) returns (out: string)
    requires |pixels| == width * height
    ensures out == Emitted(pixels, width, |pixels|)
    ensures Tokens(out) == TokenTexts(pixels, |pixels|)
    ensures width > 0 ==> out == Layout(pixels, width)
    ensures width > 0 ==> CountNewlines(out) == height
  {
    var n := width * height;
    assert width == 0 ==> n == 0;
    out := "";
    for i := 0 to n
      invariant width > 0 || i == 0
      invariant out == Emitted(pixels, width, i)
    {
      var val := EncodePixel(pixels[i]);
      ghost var before := out;
      out := out + (DecStr(val) + " ");
      if (i + 1) % width == 0 {
        out := out + "\n";
      }
      ConcatAssoc3(before, DecStr(val) + " ", RowBreak(i + 1, width));
    }
    EmittedFacts(pixels, width, height);
  }

  /** What the whole output is: the pixels' tokens in order, laid out in `height` rows of `width`. */
  lemma EmittedFacts(pixels: seq<Pixel>, width: nat, height: nat)
    requires |pixels| == width * height
    ensures Tokens(Emitted(pixels, width, |pixels|)) == TokenTexts(pixels, |pixels|)
    ensures width > 0 ==> Emitted(pixels, width, |pixels|) == Layout(pixels, width)
    ensures width > 0 ==> CountNewlines(Emitted(pixels, width, |pixels|)) == height
  {
    assert width == 0 ==> |pixels| == 0;
    EmittedTokens(pixels, width, |pixels|);
    if width > 0 {
      EmittedLayout(pixels, width, |pixels|);
      assert pixels[..|pixels|] == pixels;
      LayoutNewlines(pixels, width, height);
    }
  }

  /** The emitted text is empty or ends in whitespace. */
  lemma EmittedEndsInSpace(pixels: seq<Pixel>, width: nat, n: nat)
    requires n <= |pixels| && (n == 0 || width > 0)
    ensures var s := Emitted(pixels, width, n); s == [] || IsSpace(s[|s| - 1])
  {
  }

  /** Tokens of the emitted text are the pixels' decimal tokens, in pixel order, one per pixel. */
  lemma {:induction false} EmittedTokens(pixels: seq<Pixel>, width: nat, n: nat)
    requires n <= |pixels| && (n == 0 || width > 0)
    ensures Tokens(Emitted(pixels, width, n)) == TokenTexts(pixels, n)
  {
    if n > 0 {
      EmittedTokens(pixels, width, n - 1);
      EmittedTokensStep(pixels, width, n);
    }
  }

  lemma EmittedTokensStep(pixels: seq<Pixel>, width: nat, n: nat)
    requires 0 < n <= |pixels| && width > 0
    requires Tokens(Emitted(pixels, width, n - 1)) == TokenTexts(pixels, n - 1)
    ensures Tokens(Emitted(pixels, width, n)) == TokenTexts(pixels, n)
  {
    var prev := Emitted(pixels, width, n - 1);
    var v := EncodePixel(pixels[n - 1]);
    var nl := RowBreak(n, width);
    EmittedStep(pixels, width, n);
    assert Piece(v, n - 1, width) == DecStr(v) + " " + nl;
    EmittedEndsInSpace(pixels, width, n - 1);
    assert prev == [] || IsSpace(prev[|prev| - 1]);
    assert nl == "" || nl == "\n";
    TokensSnocValue(prev, v, nl);
    assert TokenTexts(pixels, n) == TokenTexts(pixels, n - 1) + [DecStr(v)];
  }

  /** The position within its row after `count` tokens, counted without division. */
  function Column(count: nat, width: nat): (c: nat)
    requires width > 0
    ensures c < width
    decreases count
  {
    if count < width then count else Column(count - width, width)
  }

  /** The newline of the row layout: written when the column returns to 0. */
  function LineEnd(count: nat, width: nat): string
    requires width > 0
  {
    if Column(count, width) == 0 then "\n" else ""
  }

  lemma {:induction false} ColumnIsMod(count: nat, width: nat)
    requires width > 0
    ensures Column(count, width) == count % width
    decreases count
  {
    if count < width {
      DivModUnique(count, width, 0, count);
    } else {
      ColumnIsMod(count - width, width);
      var q := (count - width) / width;
      assert (q + 1) * width == q * width + width;
      DivModUnique(count, width, q + 1, (count - width) % width);
    }
  }

  /** The converter's `(i + 1) % width == 0` test is the layout's end of line. */
  lemma RowBreakIsLineEnd(count: nat, width: nat)
    requires width > 0
    ensures RowBreak(count, width) == LineEnd(count, width)
  {
    ColumnIsMod(count, width);
  }

  /** The token text appended for a pixel. */
  function TokenText(x: Pixel): string
  {
    DecStr(EncodePixel(x)) + " "
  }

  /** Adding one pixel to the layout adds its token, a space, and a newline exactly when it completes a row. */
  lemma {:induction false} LayoutSnoc(q: seq<Pixel>, x: Pixel, width: nat)
    requires width > 0
    ensures Layout(q + [x], width) == Layout(q, width) + TokenText(x) + LineEnd(|q| + 1, width)
    decreases |q|
  {
    if |q| < width {
      LayoutSnocFirstRow(q, x, width);
    } else {
      LayoutSnoc(q[width..], x, width);
      LayoutSnocLaterRow(q, x, width);
    }
  }

  lemma LayoutSnocFirstRow(q: seq<Pixel>, x: Pixel, width: nat)
    requires |q| < width
    ensures Layout(q + [x], width) == Layout(q, width) + TokenText(x) + LineEnd(|q| + 1, width)
  {
    var qx := q + [x];
    assert qx[..|qx| - 1] == q;
    assert RowText(qx) == RowText(q) + TokenText(x);
    if |q| + 1 == width {
      assert Column(|q| + 1, width) == Column(0, width);
      assert qx[..width] == qx;
      assert qx[width..] == [];
      assert Layout(qx, width) == RowText(qx) + "\n" + Layout([], width);
    }
  }

  lemma LayoutSnocLaterRow(q: seq<Pixel>, x: Pixel, width: nat)
    requires width > 0 && |q| >= width
    requires Layout(q[width..] + [x], width) ==
      Layout(q[width..], width) + TokenText(x) + LineEnd(|q[width..]| + 1, width)
    ensures Layout(q + [x], width) == Layout(q, width) + TokenText(x) + LineEnd(|q| + 1, width)
  {
    var rest := q[width..];
    LayoutOfSnoc(q, x, width);
    LineEndShift(|rest| + 1, width);
    Regroup(Layout(q + [x], width), RowText(q[..width]) + "\n", Layout(rest + [x], width), Layout(rest, width),
            TokenText(x), LineEnd(|q| + 1, width), Layout(q, width));
  }

  /** Past the first row, one pixel more changes only the layout of the remaining rows. */
  lemma LayoutOfSnoc(q: seq<Pixel>, x: Pixel, width: nat)
    requires width > 0 && |q| >= width
    ensures Layout(q + [x], width) == RowText(q[..width]) + "\n" + Layout(q[width..] + [x], width)
    ensures Layout(q, width) == RowText(q[..width]) + "\n" + Layout(q[width..], width)
  {
    var qx := q + [x];
    assert qx[..width] == q[..width];
    assert qx[width..] == q[width..] + [x];
  }

  /** A full row further on, the row position is the same. */
  lemma LineEndShift(count: nat, width: nat)
    requires width > 0
    ensures LineEnd(count + width, width) == LineEnd(count, width)
  {
    assert Column(count + width, width) == Column(count, width);
  }

  /** Regrouping for `LayoutSnocLaterRow`: the first row kept as `head`, the pixel's token `c` and line end `d` moved out past the rest. */
  lemma Regroup(whole: string, head: string, body: string, prefix: string, c: string, d: string, front: string)
    requires whole == head + body && body == prefix + c + d && front == head + prefix
    ensures whole == front + c + d
  {
  }


  /** The converter's loop lays the first `n` pixels out row by row. */
  lemma {:induction false} EmittedLayout(pixels: seq<Pixel>, width: nat, n: nat)
    requires width > 0 && n <= |pixels|
    ensures Emitted(pixels, width, n) == Layout(pixels[..n], width)
  {
    if n == 0 {
      assert pixels[..0] == [];
    } else {
      EmittedLayout(pixels, width, n - 1);
      EmittedLayoutStep(pixels, width, n);
    }
  }

  lemma EmittedLayoutStep(pixels: seq<Pixel>, width: nat, n: nat)
    requires width > 0 && 0 < n <= |pixels|
    requires Emitted(pixels, width, n - 1) == Layout(pixels[..n - 1], width)
    ensures Emitted(pixels, width, n) == Layout(pixels[..n], width)
  {
    var x := pixels[n - 1];
    LayoutOfPrefix(pixels, n, width);
    PieceIsLayoutStep(x, n, width);
    EmittedStep(pixels, width, n);
    AppendStep(Emitted(pixels, width, n), Emitted(pixels, width, n - 1), Piece(EncodePixel(x), n - 1, width),
               Layout(pixels[..n - 1], width), TokenText(x), LineEnd(n, width), Layout(pixels[..n], width));
  }

  lemma EmittedStep(pixels: seq<Pixel>, width: nat, n: nat)
    requires width > 0 && 0 < n <= |pixels|
    ensures Emitted(pixels, width, n) == Emitted(pixels, width, n - 1) + Piece(EncodePixel(pixels[n - 1]), n - 1, width)
  {
  }

  /** The layout of the first `n` pixels extends that of the first `n - 1` by the `n`-th pixel's token. */
  lemma LayoutOfPrefix(pixels: seq<Pixel>, n: nat, width: nat)
    requires width > 0 && 0 < n <= |pixels|
    ensures Layout(pixels[..n], width) == Layout(pixels[..n - 1], width) + TokenText(pixels[n - 1]) + LineEnd(n, width)
  {
    assert pixels[..n] == pixels[..n - 1] + [pixels[n - 1]];
    LayoutSnoc(pixels[..n - 1], pixels[n - 1], width);
  }

  /** What the converter writes for one pixel is its layout token and, when it ends a row, a newline. */
  lemma PieceIsLayoutStep(x: Pixel, n: nat, width: nat)
    requires width > 0 && n > 0
    ensures Piece(EncodePixel(x), n - 1, width) == TokenText(x) + LineEnd(n, width)
  {
    RowBreakIsLineEnd(n, width);
  }

  /** Regrouping for `EmittedLayoutStep`: the loop's text plus one piece `t + nl` equals the layout plus that token and line end. */
  lemma AppendStep(whole: string, prev: string, piece: string, lay: string, t: string, nl: string, next: string)
    requires whole == prev + piece && piece == t + nl && prev == lay && next == lay + t + nl
    ensures whole == next
  {
  }

  /** The layout of `height` full rows holds exactly `height` newlines. */
  lemma {:induction false} LayoutNewlines(pixels: seq<Pixel>, width: nat, height: nat)
    requires width > 0 && |pixels| == width * height
    ensures CountNewlines(Layout(pixels, width)) == height
    decreases height
  {
    if height == 0 {
      assert pixels == [];
    } else {
      assert width * height == width * (height - 1) + width;
      var rest := pixels[width..];
      LayoutNewlines(rest, width, height - 1);
      RowTextNoNewline(pixels[..width]);
      CountNewlinesAppend(RowText(pixels[..width]), "\n");
      CountNewlinesAppend(RowText(pixels[..width]) + "\n", Layout(rest, width));
      assert CountNewlines("\n") == 1 by { assert "\n"[..0] == []; }
    }
  }

  lemma {:induction false} RowTextNoNewline(row: seq<Pixel>)
    ensures CountNewlines(RowText(row)) == 0
  {
    if row != [] {
      RowTextNoNewline(row[..|row| - 1]);
      RowTextNoNewlineStep(row);
    }
  }

  lemma RowTextNoNewlineStep(row: seq<Pixel>)
    requires row != [] && CountNewlines(RowText(row[..|row| - 1])) == 0
    ensures CountNewlines(RowText(row)) == 0
  {
    var x := row[|row| - 1];
    TokenHasNoNewline(EncodePixel(x));
    ConcatAssoc3(RowText(row[..|row| - 1]), DecStr(EncodePixel(x)), " ");
    NoNewlineConcat(RowText(row), RowText(row[..|row| - 1]), TokenText(row[|row| - 1]));
  }

  lemma NoNewlineConcat(whole: string, a: string, b: string)
    requires whole == a + b && CountNewlines(a) == 0 && CountNewlines(b) == 0
    ensures CountNewlines(whole) == 0
  {
    CountNewlinesAppend(a, b);
  }

  /** A value's text and its space hold no newline. */
  lemma TokenHasNoNewline(v: int)
    ensures CountNewlines(DecStr(v) + " ") == 0
  {
    var d := DecStr(v);
    var w := d + " ";
    forall i | 0 <= i < |w| ensures w[i] != '\n' {
      if i < |d| {
        assert w[i] == d[i];
      }
    }
    NoNewlineInToken(w);
  }

  /** Each line of the layout reads back as the tokens of its row's pixels. */
  lemma {:induction false} RowTextTokens(row: seq<Pixel>)
    ensures Tokens(RowText(row)) == TokenTexts(row, |row|)
  {
    if row != [] {
      var init := row[..|row| - 1];
      var v := DecStr(EncodePixel(row[|row| - 1]));
      assert RowText(row) == RowText(init) + (v + " " + "");
      assert Tokens(RowText(row)) == Tokens(RowText(init)) + [v] by {
        RowTextEndsInSpace(init);
        TokensSnoc(RowText(init), v, "");
      }
      RowTextTokens(init);
      assert TokenTexts(init, |init|) == TokenTexts(row, |row| - 1);
    }
  }

  lemma RowTextEndsInSpace(row: seq<Pixel>)
    ensures var s := RowText(row); s == [] || IsSpace(s[|s| - 1])
  {
  }

  lemma {:induction false} NoNewlineInToken(s: string)
    requires forall i :: 0 <= i < |s| ==> s[i] != '\n'
    ensures CountNewlines(s) == 0
  {
    if s != [] {
      NoNewlineInToken(s[..|s| - 1]);
    }
  }

  lemma {:induction false} CountNewlinesAppend(a: string, b: string)
    ensures CountNewlines(a + b) == CountNewlines(a) + CountNewlines(b)
    decreases |b|
  {
    if b == [] {
      assert a + b == a;
    } else {
      assert (a + b)[..|a + b| - 1] == a + b[..|b| - 1];
      CountNewlinesAppend(a, b[..|b| - 1]);
    }
  }

  /**
   * Round trip: reading the converter's output back gives one integer per
   * pixel, in order, and decoding it gives the pixel's colour when it was
   * opaque and "transparent" otherwise.
   */
  lemma ConvertRoundTrip(pixels: seq<Pixel>, width: nat, height: nat, k: nat)
    requires |pixels| == width * height && k < |pixels|
    ensures var read := ReadSpr(Emitted(pixels, width, |pixels|));
      |read| == |pixels| &&
      read[k] == Some(EncodePixel(pixels[k])) &&
      DecodeToken(read[k].value) == if pixels[k].3 == 255 then Some((pixels[k].0, pixels[k].1, pixels[k].2)) else None
  {
    assert width > 0;
    EmittedTokens(pixels, width, |pixels|);
    DecRoundTrip(EncodePixel(pixels[k]));
    DecodeEncode(pixels[k]);
  }
}
