/** The text `saveAsPPM` in application.cpp writes: a plain (P3) PPM image,
    one line per `<<`-terminated `std::endl`. */
module Ppm {
  import opened Vectors

  /** The character of decimal digit `d`. */
  function DigitChar(d: nat): char
    requires d < 10
  {
    ('0' as int + d) as char
  }

  /** The value of a decimal digit character (0 for any other character). */
  function DigitValue(c: char): nat
  {
    if '0' <= c <= '9' then c as int - '0' as int else 0
  }

  /** Every character of `s` is a decimal digit. */
  predicate AllDigits(s: string)
  {
    forall k :: 0 <= k < |s| ==> '0' <= s[k] <= '9'
  }

  /** The decimal digits of `n` as `operator<<` writes them: at least one
      digit and no leading zero. */
  function NatToDecimal(n: nat): (s: string)
    ensures |s| >= 1 && AllDigits(s)
    ensures s[0] == '0' ==> n == 0
  {
    if n < 10 then [DigitChar(n)] else NatToDecimal(n / 10) + [DigitChar(n % 10)]
  }

  /** `s` holds no line break, so it stays one line of the file. */
  predicate NoNewline(s: string)
  {
    forall k :: 0 <= k < |s| ==> s[k] != '\n'
  }

  /** `operator<<` on an `int`: a minus sign before the digits of a negative value. */
  function IntToDecimal(n: int): (s: string)
    ensures |s| >= 1
    ensures n < 0 <==> s[0] == '-'
    ensures NoNewline(s)
  {
    if n < 0 then "-" + NatToDecimal(-n) else NatToDecimal(n)
  }

  /** The value of a string of decimal digits, read left to right. */
  function ParseDecimal(s: string): nat
  {
    if s == [] then 0 else ParseDecimal(s[..|s| - 1]) * 10 + DigitValue(s[|s| - 1])
  }

  /** The value of an optionally signed decimal numeral. */
  function ParseInt(s: string): int
  {
    if |s| > 0 && s[0] == '-' then -(ParseDecimal(s[1..]) as int) else ParseDecimal(s)
  }

  /** Reading back the digits of `n` gives `n`. */
  lemma {:induction false} ParseNatToDecimal(n: nat)
    ensures ParseDecimal(NatToDecimal(n)) == n
  {
    var s := NatToDecimal(n);
    if n < 10 {
      assert s[..|s| - 1] == [];
    } else {
      assert s[..|s| - 1] == NatToDecimal(n / 10);
      ParseNatToDecimal(n / 10);
    }
  }

  /** Reading back what `operator<<` wrote for an `int` gives that `int`. */
  lemma {:induction false} ParseIntToDecimal(n: int)
    ensures ParseInt(IntToDecimal(n)) == n
  {
    if n < 0 {
      assert IntToDecimal(n)[1..] == NatToDecimal(-n);
      ParseNatToDecimal(-n);
    } else {
      ParseNatToDecimal(n);
    }
  }

  /** `static_cast<int>` of a floating-point value: truncation toward zero. */
  function Truncate(x: real): (n: int)
    ensures 0.0 <= x ==> n as real <= x < n as real + 1.0
    ensures x < 0.0 ==> n as real - 1.0 < x <= n as real
  {
    if x >= 0.0 then x.Floor else -((-x).Floor)
  }

  /** One output channel: the colour channel scaled by 255 and truncated. */
  function Channel(c: real): (v: int)
    ensures 0.0 <= c ==> 0 <= v && v as real <= c * 255.0 < v as real + 1.0
  {
    Truncate(c * 255.0)
  }

  /** Channels in [0, 1] come out in [0, 255]; 1 gives 255 and 0 gives 0. */
  lemma ChannelRange(c: real)
    requires 0.0 <= c <= 1.0
    ensures 0 <= Channel(c) <= 255
    ensures c == 1.0 ==> Channel(c) == 255
    ensures c == 0.0 ==> Channel(c) == 0
  {
  }

  /** The `r g b` line of one pixel. */
  function PixelLine(p: Vec3): (line: string)
    ensures NoNewline(line)
  {
    IntToDecimal(Channel(p.x)) + " " + IntToDecimal(Channel(p.y)) + " " + IntToDecimal(Channel(p.z))
  }

  /** The two colours `main` produces come out as `255 0 0` (red) and
      `0 0 0` (black). */
  lemma RedAndBlackLines()
    ensures PixelLine(Vec3(1.0, 0.0, 0.0)) == "255 0 0"
    ensures PixelLine(Vec3(0.0, 0.0, 0.0)) == "0 0 0"
  {
    assert Channel(1.0) == 255 && Channel(0.0) == 0;
    assert NatToDecimal(2) == "2" && NatToDecimal(5) == "5";
    assert NatToDecimal(25) == "25";
    assert NatToDecimal(255) == "255";
    assert NatToDecimal(0) == "0";
  }

  /** The three header lines: magic number, dimensions, maximum channel value. */
  function Header(width: int, height: int): (lines: seq<string>)
    ensures |lines| == 3 && lines[0] == "P3" && lines[2] == "255"
    ensures lines[1] == IntToDecimal(width) + " " + IntToDecimal(height)
    ensures forall k :: 0 <= k < 3 ==> NoNewline(lines[k])
  {
    ["P3", IntToDecimal(width) + " " + IntToDecimal(height), "255"]
  }

  /** How many times a `for (k = 0; k < n; ++k)` loop runs. */
  function NonNeg(n: int): nat
  {
    if n < 0 then 0 else n
  }

  /** Where row `i` starts in the row-major pixel order: `i * width`,
      counted up one row at a time so that the index arithmetic stays linear. */
  function RowStart(i: nat, width: nat): nat
  {
    if i == 0 then 0 else RowStart(i - 1, width) + width
  }

  lemma {:induction false} RowStartIsProduct(i: nat, width: nat)
    ensures RowStart(i, width) == i * width
  {
    if i > 0 {
      RowStartIsProduct(i - 1, width);
      assert (i - 1) * width + width == i * width;
    }
  }

  lemma {:induction false} RowStartMono(i: nat, rows: nat, width: nat)
    requires i < rows
    ensures RowStart(i, width) + width <= RowStart(rows, width)
  {
    if i < rows - 1 {
      RowStartMono(i, rows - 1, width);
    }
  }

  /** The first `width` entries of each of the first `rows` rows, in
      row-major order: the order in which the nested loops visit them. */
  function Flatten<T>(grid: seq<seq<T>>, rows: nat, width: nat): (cells: seq<T>)
    requires rows <= |grid|
    requires forall r :: 0 <= r < rows ==> width <= |grid[r]|
    ensures |cells| == RowStart(rows, width)
  {
    if rows == 0 then [] else Flatten(grid, rows - 1, width) + grid[rows - 1][..width]
  }

  lemma AppendAt<T>(a: seq<T>, b: seq<T>, k: nat)
    requires k < |a| + |b|
    ensures k < |a| ==> (a + b)[k] == a[k]
    ensures |a| <= k ==> (a + b)[k] == b[k - |a|]
  {
  }

  /** Entry `RowStart(i, width) + j` of the flattened grid is entry (i, j). */
  lemma {:induction false} FlattenAt<T>(grid: seq<seq<T>>, rows: nat, width: nat, i: nat, j: nat)
    requires rows <= |grid|
    requires forall r :: 0 <= r < rows ==> width <= |grid[r]|
    requires i < rows && j < width
    ensures RowStart(i, width) + j < RowStart(rows, width)
    ensures Flatten(grid, rows, width)[RowStart(i, width) + j] == grid[i][j]
  {
    RowStartMono(i, rows, width);
    AppendAt(Flatten(grid, rows - 1, width), grid[rows - 1][..width], RowStart(i, width) + j);
    if i < rows - 1 {
      RowStartMono(i, rows - 1, width);
      FlattenAt(grid, rows - 1, width, i, j);
    }
  }

  /** One `r g b` line per pixel, in order. */
  function PixelLines(pixels: seq<Vec3>): (lines: seq<string>)
    ensures |lines| == |pixels|
  {
    if pixels == [] then [] else PixelLines(pixels[..|pixels| - 1]) + [PixelLine(pixels[|pixels| - 1])]
  }

  /** Line `k` is the line of pixel `k`. */
  lemma {:induction false} PixelLineAt(pixels: seq<Vec3>, k: nat)
    requires k < |pixels|
    ensures PixelLines(pixels)[k] == PixelLine(pixels[k])
  {
    if k < |pixels| - 1 {
      PixelLineAt(pixels[..|pixels| - 1], k);
    }
  }

  /** The grid holds at least `height` rows of at least `width` pixels, as
      the loops of `saveAsPPM` read them. */
  predicate CoversGrid(grid: seq<seq<Vec3>>, width: int, height: int)
  {
    NonNeg(height) <= |grid| && forall i :: 0 <= i < NonNeg(height) ==> NonNeg(width) <= |grid[i]|
  }

  /** The lines `saveAsPPM` writes, without their line terminators. */
  function PpmLines(grid: seq<seq<Vec3>>, width: int, height: int): (lines: seq<string>)
    requires CoversGrid(grid, width, height)
    ensures |lines| == 3 + RowStart(NonNeg(height), NonNeg(width))
    ensures lines[0] == "P3" && lines[2] == "255"
    ensures lines[1] == IntToDecimal(width) + " " + IntToDecimal(height)
  {
    Header(width, height) + PixelLines(Flatten(grid, NonNeg(height), NonNeg(width)))
  }

  /** Each line followed by the newline `std::endl` writes. */
  function Join(lines: seq<string>): string
  {
    if lines == [] then "" else Join(lines[..|lines| - 1]) + lines[|lines| - 1] + "\n"
  }

  /** The whole text of the image file. */
  function PpmText(grid: seq<seq<Vec3>>, width: int, height: int): string
    requires CoversGrid(grid, width, height)
  {
    Join(PpmLines(grid, width, height))
  }

  /** After the three header lines, line `3 + RowStart(i, width) + j`
      (that is, `3 + i * width + j`) of the file is pixel (i, j): the pixels
      are written row by row, top row first. */
  lemma {:induction false} PpmLineAt(grid: seq<seq<Vec3>>, width: int, height: int, i: int, j: int)
    requires CoversGrid(grid, width, height)
    requires 0 <= i < height && 0 <= j < width
    ensures 3 + RowStart(i, width) + j < |PpmLines(grid, width, height)|
         && PpmLines(grid, width, height)[3 + RowStart(i, width) + j] == PixelLine(grid[i][j])
  {
    var pixels := Flatten(grid, height, width);
    FlattenAt(grid, height, width, i, j);
    var k := RowStart(i, width) + j;
    assert NonNeg(height) == height && NonNeg(width) == width;
    assert PpmLines(grid, width, height) == Header(width, height) + PixelLines(pixels);
    PixelLineAt(pixels, k);
    AppendAt(Header(width, height), PixelLines(pixels), 3 + k);
  }

  lemma PixelLinesSnoc(pixels: seq<Vec3>, p: Vec3)
    ensures PixelLines(pixels + [p]) == PixelLines(pixels) + [PixelLine(p)]
  {
    assert (pixels + [p])[..|pixels|] == pixels;
  }

  lemma JoinSnoc(lines: seq<string>, line: string)
    ensures Join(lines + [line]) == Join(lines) + line + "\n"
  {
    assert (lines + [line])[..|lines|] == lines;
  }

  /** Joining distributes over concatenation of line sequences. */
  lemma {:induction false} JoinAppend(a: seq<string>, b: seq<string>)
    ensures Join(a + b) == Join(a) + Join(b)
  {
    if b == [] {
      assert a + b == a;
    } else {
      var front := b[..|b| - 1];
      assert a + b == (a + front) + [b[|b| - 1]];
      assert b == front + [b[|b| - 1]];
      JoinSnoc(a + front, b[|b| - 1]);
      JoinSnoc(front, b[|b| - 1]);
      JoinAppend(a, front);
    }
  }

  /** The lines of two runs of pixels are the lines of each, in order. */
  lemma {:induction false} PixelLinesAppend(a: seq<Vec3>, b: seq<Vec3>)
    ensures PixelLines(a + b) == PixelLines(a) + PixelLines(b)
  {
    if b == [] {
      assert a + b == a;
    } else {
      var front := b[..|b| - 1];
      assert a + b == (a + front) + [b[|b| - 1]];
      assert b == front + [b[|b| - 1]];
      PixelLinesSnoc(a + front, b[|b| - 1]);
      PixelLinesSnoc(front, b[|b| - 1]);
      PixelLinesAppend(a, front);
    }
  }

  lemma AppendAssoc<T>(a: seq<T>, b: seq<T>, c: seq<T>, d: seq<T>)
    ensures a + b + c + d == a + (b + c + d)
  {
  }

  /** The three header lines, each with its newline. */
  lemma JoinHeader(width: int, height: int)
    ensures Join(Header(width, height))
         == "P3" + "\n" + IntToDecimal(width) + " " + IntToDecimal(height) + "\n" + "255" + "\n"
  {
    var h0, h1, h2 := "P3", IntToDecimal(width) + " " + IntToDecimal(height), "255";
    assert Header(width, height) == [h0] + [h1] + [h2];
    assert [h0] == [] + [h0];
    JoinSnoc([], h0);
    assert [] + h0 == h0;
    JoinSnoc([h0], h1);
    AppendAssoc(h0 + "\n", IntToDecimal(width), " ", IntToDecimal(height));
    JoinSnoc([h0] + [h1], h2);
  }

  /** Appending pixel `j`'s line to the text written so far. */
  lemma AppendLine(text: string, row: seq<Vec3>, j: nat, line: string)
    requires j < |row| && line == PixelLine(row[j])
    ensures text + Join(PixelLines(row[..j])) + line + "\n" == text + Join(PixelLines(row[..j + 1]))
  {
    assert row[..j + 1] == row[..j] + [row[j]];
    PixelLinesSnoc(row[..j], row[j]);
    JoinSnoc(PixelLines(row[..j]), line);
    AppendAssoc(text, Join(PixelLines(row[..j])), line, "\n");
  }

  /** The first three statements of `saveAsPPM`: the header lines. */
  method WriteHeader(width: int, height: int) returns (text: string)
    ensures text == Join(Header(width, height))
  {
    text := "P3" + "\n";
    text := text + IntToDecimal(width) + " " + IntToDecimal(height) + "\n";
    text := text + "255" + "\n";
    JoinHeader(width, height);
  }

  /** The text the inner loop of `saveAsPPM` writes for one row: the lines
      of its first `width` pixels. */
  function RowText(row: seq<Vec3>, width: int): string
    requires NonNeg(width) <= |row|
  {
    Join(PixelLines(row[..NonNeg(width)]))
  }

  /** The text in the file once the header and the first `rows` rows are
      written. */
  function Written(grid: seq<seq<Vec3>>, width: int, height: int, rows: nat): string
    requires CoversGrid(grid, width, height) && rows <= NonNeg(height)
  {
    Join(Header(width, height) + PixelLines(Flatten(grid, rows, NonNeg(width))))
  }

  /** The inner loop of `saveAsPPM`: appends the lines of the first `width`
      pixels of one row. */
  method WriteRow(text: string, row: seq<Vec3>, width: int) returns (out: string)
    requires NonNeg(width) <= |row|
    ensures out == text + RowText(row, width)
  {
    out := text;
    var j := 0;
    while j < width
      invariant 0 <= j <= NonNeg(width)
      invariant out == text + Join(PixelLines(row[..j]))
    {
      var r := Channel(row[j].x);
      var g := Channel(row[j].y);
      var b := Channel(row[j].z);
      var line := IntToDecimal(r) + " " + IntToDecimal(g) + " " + IntToDecimal(b);
      AppendLine(text, row, j, line);
      out := out + line + "\n";
      j := j + 1;
    }
    assert j == NonNeg(width);
  }

  /** Appending row `i`'s text to the text of the rows before it gives the
      text of the first `i + 1` rows. */
  lemma AppendRow(grid: seq<seq<Vec3>>, width: int, height: int, i: nat)
    requires CoversGrid(grid, width, height) && i < NonNeg(height)
    ensures Written(grid, width, height, i) + RowText(grid[i], width) == Written(grid, width, height, i + 1)
  {
    AppendRowLines(grid, Header(width, height), i, NonNeg(width));
  }

  /** `AppendRow` for any lines written before the pixels. */
  lemma AppendRowLines(grid: seq<seq<Vec3>>, header: seq<string>, i: nat, w: nat)
    requires i < |grid|
    requires forall r :: 0 <= r <= i ==> w <= |grid[r]|
    ensures Join(header + PixelLines(Flatten(grid, i, w))) + Join(PixelLines(grid[i][..w]))
         == Join(header + PixelLines(Flatten(grid, i + 1, w)))
  {
    var done := header + PixelLines(Flatten(grid, i, w));
    var rowLines := PixelLines(grid[i][..w]);
    PixelLinesAppend(Flatten(grid, i, w), grid[i][..w]);
    assert header + PixelLines(Flatten(grid, i + 1, w)) == done + rowLines;
    JoinAppend(done, rowLines);
  }

  /** Before the loop only the header is written; after it, the whole file. */
  lemma WrittenEnds(grid: seq<seq<Vec3>>, width: int, height: int)
    requires CoversGrid(grid, width, height)
    ensures Written(grid, width, height, 0) == Join(Header(width, height))
    ensures Written(grid, width, height, NonNeg(height)) == PpmText(grid, width, height)
  {
    assert Header(width, height) + PixelLines(Flatten(grid, 0, NonNeg(width))) == Header(width, height);
  }

  /** application.cpp `saveAsPPM`, with the file stream replaced by the text
      it receives: the header, then one line per pixel, row by row. */
  method SaveAsPpm(pixelData: seq<seq<Vec3>>, width: int, height: int) returns (text: string)
    requires CoversGrid(pixelData, width, height)
    ensures text == PpmText(pixelData, width, height)
  {
    text := WriteHeader(width, height);
    WrittenEnds(pixelData, width, height);
    var i := 0;
    while i < height
      invariant 0 <= i <= NonNeg(height)
      invariant text == Written(pixelData, width, height, i)
    {
      text := WriteRow(text, pixelData[i], width);
      AppendRow(pixelData, width, height, i);
      i := i + 1;
    }
    assert i == NonNeg(height);
  }
}
