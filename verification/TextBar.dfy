/**
 The 320 x 18 status bar as planar video memory (text_buf_build of text.c), for an
 arbitrary 256 x 16 font.
 */
module TextBar {
  import opened Common

  const BAR_SIZE := 5760
  const WIDTH := 320
  const HEIGHT := 18
  const BACK_COLOR := 0x34
  const FONT_COLOR := 0x03

  /** A character of the text; `char` is signed, and a negative one would index before the font. */
  type Ascii = c: int | 0 <= c < 128

  /** The mask after `c` right shifts of 0x80. */
  function Mask(c: nat): (m: nat)
    requires c <= 8
  {
    [128, 64, 32, 16, 8, 4, 2, 1, 0][c]
  }

  predicate BitSet(f: Byte, c: nat)
    requires c < 8
  {
    (f / Mask(c)) % 2 == 1
  }

  /** Column `c` of a font row is bit `7 - c` of its byte: the leftmost column is the highest bit. */
  lemma BitsLeftToRight(f: Byte, bits: seq<nat>, c: nat)
    requires |bits| == 8 && (forall i :: 0 <= i < 8 ==> bits[i] < 2) && c < 8
    requires f == 128 * bits[0] + 64 * bits[1] + 32 * bits[2] + 16 * bits[3]
                  + 8 * bits[4] + 4 * bits[5] + 2 * bits[6] + bits[7]
    ensures BitSet(f, c) <==> bits[c] == 1
  {
    HighBits(f, bits[0], bits[1], bits[2], bits[3], f % 16);
    LowBits(f, f / 16, bits[4], bits[5], bits[6], bits[7]);
  }

  /** The bit of weight `w`, with the bits above and below it. */
  lemma BitOf(f: nat, w: nat, above: nat, bit: nat, below: nat)
    requires bit < 2 && below < w && f == w * (2 * above + bit) + below
    ensures f / w % 2 == bit
  {
    DivModUnique(f, w, 2 * above + bit, below);
    DivModUnique(2 * above + bit, 2, above, bit);
  }

  lemma HighBits(f: nat, b0: nat, b1: nat, b2: nat, b3: nat, low: nat)
    requires b0 < 2 && b1 < 2 && b2 < 2 && b3 < 2 && low < 16 && f == 128 * b0 + 64 * b1 + 32 * b2 + 16 * b3 + low
    ensures f / 128 % 2 == b0 && f / 64 % 2 == b1 && f / 32 % 2 == b2 && f / 16 % 2 == b3
  {
    BitOf(f, 128, 0, b0, 64 * b1 + 32 * b2 + 16 * b3 + low);
    BitOf(f, 64, b0, b1, 32 * b2 + 16 * b3 + low);
    BitOf(f, 32, 2 * b0 + b1, b2, 16 * b3 + low);
    BitOf(f, 16, 4 * b0 + 2 * b1 + b2, b3, low);
  }

  lemma LowBits(f: nat, high: nat, b4: nat, b5: nat, b6: nat, b7: nat)
    requires b4 < 2 && b5 < 2 && b6 < 2 && b7 < 2 && f == 16 * high + 8 * b4 + 4 * b5 + 2 * b6 + b7
    ensures f / 8 % 2 == b4 && f / 4 % 2 == b5 && f / 2 % 2 == b6 && f % 2 == b7
  {
    BitOf(f, 8, high, b4, 4 * b5 + 2 * b6 + b7);
    BitOf(f, 4, 2 * high + b4, b5, 2 * b6 + b7);
    BitOf(f, 2, 4 * high + 2 * b4 + b5, b6, b7);
    BitOf(f, 1, 8 * high + 4 * b4 + 2 * b5 + b6, b7, 0);
    DivModUnique(f, 1, f, 0);
  }

  /** Testing one bit with `&` is testing the parity of the quotient. */
  lemma BitTest(f: bv8, m: bv8)
    requires m == 1 || m == 2 || m == 4 || m == 8 || m == 16 || m == 32 || m == 64 || m == 128
    ensures f & m != 0 <==> (f / m) % 2 == 1
  {
  }

  ghost predicate FontOk(font: seq<seq<Byte>>) {
    |font| == 256 && forall i :: 0 <= i < 256 ==> |font[i]| == 16
  }

  /** Planar memory: pixel column `px` lives in plane `px % 4`, four columns to an address. */
  function Cell(px: nat, py: nat): nat { px % 4 * 1440 + py * 80 + px / 4 }

  /** The map from pixels to cells is one-to-one onto the buffer. */
  lemma CellsAreDistinct(px: nat, py: nat, qx: nat, qy: nat)
    requires px < WIDTH && py < HEIGHT && qx < WIDTH && qy < HEIGHT
    ensures Cell(px, py) < BAR_SIZE
    ensures Cell(px, py) == Cell(qx, qy) ==> px == qx && py == qy
  {
    CellParts(px, py);
    CellParts(qx, qy);
  }

  /** A cell gives away its plane, its row and its place in the row. */
  lemma CellParts(px: nat, py: nat)
    requires px < WIDTH && py < HEIGHT
    ensures var a := Cell(px, py);
      a < BAR_SIZE && a / 1440 == px % 4 && a % 1440 / 80 == py && a % 1440 % 80 == px / 4
  {
    DivModUnique(Cell(px, py), 1440, px % 4, py * 80 + px / 4);
    DivModUnique(py * 80 + px / 4, 80, py, px / 4);
  }

  lemma EveryCellIsAPixel(a: nat)
    requires a < BAR_SIZE
    ensures var px, py := a % 80 * 4 + a / 1440, a % 1440 / 80;
      px < WIDTH && py < HEIGHT && Cell(px, py) == a
  {
    var plane, row, addr := a / 1440, a % 1440 / 80, a % 80;
    assert plane < 4 && row < 18;
    assert a == plane * 1440 + row * 80 + addr;
    assert (addr * 4 + plane) / 4 == addr && (addr * 4 + plane) % 4 == plane;
  }

  /** Pixel (px, py) is lit by the text whose first character starts at address `left` of each row. */
  predicate Lit(text: seq<Ascii>, font: seq<seq<Byte>>, left: nat, px: nat, py: nat)
    requires FontOk(font)
  {
    1 <= py <= 16 && 4 * left <= px < 4 * left + 8 * |text| &&
    BitSet(font[text[(px - 4 * left) / 8]][py - 1], (px - 4 * left) % 8)
  }

  /** The loops have dealt with (px, py) when they stand at character `n`, row `row`, column `col`. */
  predicate Done(left: nat, px: nat, py: nat, n: nat, row: nat, col: nat) {
    px >= 4 * left &&
    var q := px - 4 * left;
    q / 8 < n || (q / 8 == n && (py < row || (py == row && q % 8 < col)))
  }

  ghost predicate Drawn(buf: seq<int>, text: seq<Ascii>, font: seq<seq<Byte>>, left: nat, n: nat, row: nat, col: nat)
    requires FontOk(font)
  {
    |buf| == BAR_SIZE &&
    forall px: nat, py: nat {:trigger Cell(px, py)} :: px < WIDTH && py < HEIGHT && Cell(px, py) < BAR_SIZE ==>
      buf[Cell(px, py)] ==
        (if Lit(text, font, left, px, py) && Done(left, px, py, n, row, col) then FONT_COLOR else BACK_COLOR)
  }

  /** The finished bar: every pixel has the font colour exactly when the text lights it. */
  ghost predicate Shows(buf: seq<int>, text: seq<Ascii>, font: seq<seq<Byte>>, left: nat)
    requires FontOk(font)
  {
    |buf| == BAR_SIZE &&
    forall px: nat, py: nat {:trigger Cell(px, py)} :: px < WIDTH && py < HEIGHT && Cell(px, py) < BAR_SIZE ==>
      buf[Cell(px, py)] == (if Lit(text, font, left, px, py) then FONT_COLOR else BACK_COLOR)
  }

  /** One pixel step of the loops. */
  lemma DrawPixel(buf: seq<int>, after: seq<int>, text: seq<Ascii>, font: seq<seq<Byte>>, left: nat,
                  n: nat, row: nat, col: nat)
    requires FontOk(font) && Drawn(buf, text, font, left, n, row, col)
    requires n < |text| && left + 2 * |text| <= 80 && 1 <= row <= 16 && col < 8
    requires var x := 4 * left + 8 * n + col;
      && Cell(x, row) < BAR_SIZE
      && after == if BitSet(font[text[n]][row - 1], col) then buf[Cell(x, row) := FONT_COLOR] else buf
    ensures Drawn(after, text, font, left, n, row, col + 1)
  {
    var x := 4 * left + 8 * n + col;
    assert (x - 4 * left) / 8 == n && (x - 4 * left) % 8 == col;
    forall px: nat, py: nat {:trigger Cell(px, py)} | px < WIDTH && py < HEIGHT && Cell(px, py) < BAR_SIZE
      ensures after[Cell(px, py)] ==
        (if Lit(text, font, left, px, py) && Done(left, px, py, n, row, col + 1) then FONT_COLOR else BACK_COLOR)
    {
      CellsAreDistinct(px, py, x, row);
      SameStep(left, px, py, n, row, col);
    }
  }

  /** Going one column on brings in that one pixel and no other. */
  lemma SameStep(left: nat, px: nat, py: nat, n: nat, row: nat, col: nat)
    requires col < 8
    ensures Done(left, px, py, n, row, col + 1) <==>
      Done(left, px, py, n, row, col) || (px == 4 * left + 8 * n + col && py == row)
  {
  }

  /** Eight columns on is the next row, seventeen rows on is the next character, as far as lit pixels go. */
  lemma NextRow(buf: seq<int>, text: seq<Ascii>, font: seq<seq<Byte>>, left: nat, n: nat, row: nat)
    requires FontOk(font) && Drawn(buf, text, font, left, n, row, 8)
    ensures Drawn(buf, text, font, left, n, row + 1, 0)
  {
    forall px: nat, py: nat
      ensures Done(left, px, py, n, row, 8) == Done(left, px, py, n, row + 1, 0)
    {
    }
  }

  lemma NextCharacter(buf: seq<int>, text: seq<Ascii>, font: seq<seq<Byte>>, left: nat, n: nat)
    requires FontOk(font) && Drawn(buf, text, font, left, n, 17, 0)
    ensures Drawn(buf, text, font, left, n + 1, 1, 0)
  {
    forall px: nat, py: nat | 1 <= py <= 16
      ensures Done(left, px, py, n, 17, 0) == Done(left, px, py, n + 1, 1, 0)
    {
    }
  }

  method Background(buf: array<int>)
    requires buf.Length == BAR_SIZE
    modifies buf
    ensures forall i :: 0 <= i < BAR_SIZE ==> buf[i] == BACK_COLOR
  {
    var i := 0;
    while i < BAR_SIZE
      invariant 0 <= i <= BAR_SIZE && forall k :: 0 <= k < i ==> buf[k] == BACK_COLOR
    {
      buf[i] := BACK_COLOR;
      i := i + 1;
    }
  }

  /** The two inner loops: one character. */
  method DrawCharacter(text: seq<Ascii>, font: seq<seq<Byte>>, left: nat, n: nat, buf: array<int>)
    requires FontOk(font) && n < |text| && left + 2 * |text| <= 80
    requires buf.Length == BAR_SIZE && Drawn(buf[..], text, font, left, n, 1, 0)
    modifies buf
    ensures Drawn(buf[..], text, font, left, n + 1, 1, 0)
  {
    var row := 1;
    while row < 17
      invariant 1 <= row <= 17 && Drawn(buf[..], text, font, left, n, row, 0)
    {
      DrawRow(text, font, left, n, row, buf);
      NextRow(buf[..], text, font, left, n, row);
      row := row + 1;
    }
    NextCharacter(buf[..], text, font, left, n);
  }

  method DrawRow(text: seq<Ascii>, font: seq<seq<Byte>>, left: nat, n: nat, row: nat, buf: array<int>)
    requires FontOk(font) && n < |text| && left + 2 * |text| <= 80 && 1 <= row <= 16
    requires buf.Length == BAR_SIZE && Drawn(buf[..], text, font, left, n, row, 0)
    modifies buf
    ensures Drawn(buf[..], text, font, left, n, row, 8)
  {
    var mask := 0x80;
    var col := 0;
    while col < 8
      invariant 0 <= col <= 8 && mask == Mask(col) && Drawn(buf[..], text, font, left, n, row, col)
    {
      var plane := col % 4;
      ghost var before := buf[..];
      ghost var x := 4 * left + 8 * n + col;
      AddressIsCell(left, n, row, col);
      CellsAreDistinct(x, row, x, row);
      if (font[text[n]][row - 1] / mask) % 2 == 1 {
        buf[left + plane * 1440 + row * 80 + col / 4 + n * 2] := FONT_COLOR;
      }
      DrawPixel(before, buf[..], text, font, left, n, row, col);
      mask := mask / 2;
      col := col + 1;
    }
  }

  /** The address the source computes is the cell of the pixel it means. */
  lemma AddressIsCell(left: nat, n: nat, row: nat, col: nat)
    requires col < 8
    ensures left + col % 4 * 1440 + row * 80 + col / 4 + n * 2 == Cell(4 * left + 8 * n + col, row)
  {
    var x := 4 * left + 8 * n + col;
    assert x == 4 * (left + 2 * n + col / 4) + col % 4;
  }

  method DrawText(text: seq<Ascii>, font: seq<seq<Byte>>, left: nat, buf: array<int>)
    requires FontOk(font) && left + 2 * |text| <= 80 && buf.Length == BAR_SIZE
    modifies buf
    ensures Shows(buf[..], text, font, left)
  {
    Background(buf);
    var n := 0;
    assert Drawn(buf[..], text, font, left, 0, 1, 0);
    while n < |text|
      invariant 0 <= n <= |text| && Drawn(buf[..], text, font, left, n, 1, 0)
    {
      DrawCharacter(text, font, left, n, buf);
      n := n + 1;
    }
    Finished(buf[..], text, font, left);
  }

  lemma Finished(buf: seq<int>, text: seq<Ascii>, font: seq<seq<Byte>>, left: nat)
    requires FontOk(font) && Drawn(buf, text, font, left, |text|, 1, 0)
    ensures Shows(buf, text, font, left)
  {
    forall px: nat, py: nat | px < WIDTH && py < HEIGHT && Lit(text, font, left, px, py)
      ensures Done(left, px, py, |text|, 1, 0)
    {
    }
  }

  /** text_buf_build.  Case 0 centres a string of at most 40 characters, case 1 takes 40 from the left edge. */
  method TextBufBuild(input: seq<Ascii>, kind: int, font: seq<seq<Byte>>, buf: array<int>)
    requires FontOk(font) && buf.Length == BAR_SIZE
    requires kind == 0 ==> |input| <= 40
    requires kind == 1 ==> |input| >= 40
    modifies buf
    ensures kind == 0 ==> Shows(buf[..], input, font, 40 - |input|)
    ensures kind == 1 ==> Shows(buf[..], input[..40], font, 0)
    ensures kind != 0 && kind != 1 ==> buf[..] == old(buf[..])
  {
    if kind == 0 {
      var length := |input|;
      assert (80 - length * 2) / 2 == 40 - length;
      DrawText(input, font, (80 - length * 2) / 2, buf);
    } else if kind == 1 {
      DrawText(input[..40], font, 0, buf);
    }
  }

  /** Pixel by pixel: column `c` of row `r` of character `k` is 8 k + c to the right of the text's edge
      and r + 1 down, and has the font colour exactly when bit `7 - c` of that font row is set. */
  lemma PixelOfCharacter(buf: seq<int>, text: seq<Ascii>, font: seq<seq<Byte>>, left: nat,
                         k: nat, r: nat, bits: seq<nat>, c: nat)
    requires FontOk(font) && Shows(buf, text, font, left) && left + 2 * |text| <= 80 && k < |text| && r < 16 && c < 8
    requires |bits| == 8 && forall i :: 0 <= i < 8 ==> bits[i] < 2
    requires font[text[k]][r] == 128 * bits[0] + 64 * bits[1] + 32 * bits[2] + 16 * bits[3]
                                 + 8 * bits[4] + 4 * bits[5] + 2 * bits[6] + bits[7]
    ensures var px, py := 4 * left + 8 * k + c, r + 1;
      px < 320 && py < 18 && Cell(px, py) < |buf| && buf[Cell(px, py)] == if bits[c] == 1 then 0x03 else 0x34
  {
    var px, py := 4 * left + 8 * k + c, r + 1;
    CellsAreDistinct(px, py, px, py);
    BitsLeftToRight(font[text[k]][r], bits, c);
    assert (px - 4 * left) / 8 == k && (px - 4 * left) % 8 == c;
  }

  /** A font row of 0x80 lights the leftmost pixel of its character and no other. */
  lemma HighBitIsLeftmost(buf: seq<int>, text: seq<Ascii>, font: seq<seq<Byte>>, left: nat, k: nat, r: nat, c: nat)
    requires FontOk(font) && Shows(buf, text, font, left) && left + 2 * |text| <= 80 && k < |text| && r < 16 && c < 8
    requires font[text[k]][r] == 0x80
    ensures Cell(4 * left + 8 * k + c, r + 1) < |buf|
    ensures buf[Cell(4 * left + 8 * k + c, r + 1)] == if c == 0 then 0x03 else 0x34
  {
    PixelOfCharacter(buf, text, font, left, k, r, [1, 0, 0, 0, 0, 0, 0, 0], c);
  }

  /** Everything outside the characters is background: the top row, the bottom row, and both margins,
      which a centred text leaves equally wide. */
  lemma MarginsAreBackground(buf: seq<int>, text: seq<Ascii>, font: seq<seq<Byte>>, px: nat, py: nat)
    requires FontOk(font) && |text| <= 40 && Shows(buf, text, font, 40 - |text|) && px < 320 && py < 18
    requires py == 0 || py == 17 || px < 160 - 4 * |text| || px >= 160 + 4 * |text|
    ensures Cell(px, py) < |buf| && buf[Cell(px, py)] == 0x34
  {
    CellsAreDistinct(px, py, px, py);
  }

  /** The picture determines the buffer: two bars that show the same text are equal everywhere. */
  lemma PictureIsWhole(a: seq<int>, b: seq<int>, text: seq<Ascii>, font: seq<seq<Byte>>, left: nat)
    requires FontOk(font) && Shows(a, text, font, left) && Shows(b, text, font, left)
    ensures a == b
  {
    forall i | 0 <= i < BAR_SIZE ensures a[i] == b[i] {
      EveryCellIsAPixel(i);
    }
  }
}
