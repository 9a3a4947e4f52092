/** `GF2GIFCallback`: the callback that rasterises each character into a
    flat array of pixels, row after row, and pads it to a common height
    before it is encoded. The encoding, the colour model and the files are
    not modelled; what the end of a character hands to the encoder is the
    result of `HandleEoc`. */
module GF2GIF {
  import opened JavaInt
  import opened Commands
  import opened Decoder

  /** The two pixel values. */
  const BLACK: int := 1
  const WHITE: int := 0

  /** The box a boc states for its character. */
  datatype Box = Box(minM: int, maxM: int, minN: int, maxN: int)

  /** The prefix of every output file: the directory, a separator and the
      prefix when a directory is given, else the prefix alone. */
  function FilePrefix(prefix: string, targetDirectory: string, separator: char): (r: string)
    ensures |r| >= |prefix| && r[|r| - |prefix|..] == prefix
    ensures targetDirectory == "" <==> |r| == |prefix|
    ensures targetDirectory != "" ==>
      && |r| == |targetDirectory| + 1 + |prefix|
      && r[..|targetDirectory|] == targetDirectory && r[|targetDirectory|] == separator
  {
    if targetDirectory != "" then targetDirectory + [separator] + prefix else prefix
  }

  /** The lowest row number the padded image reaches. */
  function AdjustedMin(minHeight: int, minN: int): (a: int)
    ensures a <= minN && a <= minHeight && (a == minN || a == minHeight)
  {
    if minHeight > minN then minN else minHeight
  }

  /** The highest row number the padded image reaches. */
  function AdjustedMax(maxHeight: int, maxN: int): (a: int)
    ensures a >= maxN && a >= maxHeight && (a == maxN || a == maxHeight)
  {
    if maxHeight < maxN then maxN else maxHeight
  }

  /** With the defaults the convenience constructors pass, the adjusted
      rows are the character's own, so no character is padded. */
  lemma DefaultsKeepBox(minN: int, maxN: int)
    requires IsInt32(minN) && IsInt32(maxN)
    ensures AdjustedMin(INT_MAX, minN) == minN && AdjustedMax(INT_MIN, maxN) == maxN
  {
  }

  /** Where the character's rows start in the padded image: below the
      rows added above the character. */
  function Offset(adjustedMax: int, maxN: int, width: int): int {
    (adjustedMax - maxN) * width
  }

  /** The copy into the padded array stays inside it: the rows added
      above and the character's own rows never pass its end. */
  lemma CopyFits(width: int, box: Box, adjustedMin: int, adjustedMax: int)
    requires width >= 0 && box.minN <= box.maxN + 1
    requires adjustedMin <= box.minN && box.maxN <= adjustedMax
    ensures var height := box.maxN - box.minN + 1;
      var extendedHeight := adjustedMax - adjustedMin + 1;
      && 0 <= Offset(adjustedMax, box.maxN, width)
      && Offset(adjustedMax, box.maxN, width) + width * height <= width * extendedHeight
  {
    var height := box.maxN - box.minN + 1;
    var extendedHeight := adjustedMax - adjustedMin + 1;
    var above := adjustedMax - box.maxN;
    assert extendedHeight == above + height + (box.minN - adjustedMin);
    assert width * extendedHeight == width * above + width * height + width * (box.minN - adjustedMin);
    assert width * (box.minN - adjustedMin) >= 0;
    assert width * above >= 0;
  }

  /** Whether copying `count` pixels to `offset` onward leaves an array of
      `size` cells: the first index outside it throws. */
  predicate CopyThrows(count: int, offset: int, size: int) {
    count > 0 && (offset < 0 || offset + count > size)
  }

  class GF2GIFCallback {
    var m: int
    var n: int
    var paintSwitch: int
    var totalChars: int
    var width: int
    var height: int
    var box: Box
    const minHeight: int
    const maxHeight: int
    var adjustedMinHeight: int
    var adjustedMaxHeight: int
    /** Empty until the first boc allocates a character's array. */
    var pixels: array<int>
    var characterCode: int
    const filePrefix: string

    /** The pixel array has a cell per column and row, and the adjusted
        rows take in the character's. */
    ghost predicate Valid()
      reads this
    {
      && pixels.Length == width * height
      && adjustedMinHeight <= box.minN && box.maxN <= adjustedMaxHeight
    }

    /** The full constructor; the others pass `INT_MAX` and `INT_MIN` for
        the heights, and "char" and "" for the names. */
    constructor (minH: int, maxH: int, prefix: string, targetDirectory: string, separator: char)
      ensures Valid() && fresh(pixels) && pixels.Length == 0
      ensures paintSwitch == WHITE && m == 0 && n == 0 && totalChars == 0
      ensures minHeight == minH && maxHeight == maxH
      ensures filePrefix == FilePrefix(prefix, targetDirectory, separator)
    {
      paintSwitch := WHITE;
      m, n := 0, 0;
      totalChars := 0;
      width, height := 0, 0;
      box := Box(0, 0, 0, 0);
      minHeight, maxHeight := minH, maxH;
      adjustedMinHeight, adjustedMaxHeight := 0, 0;
      pixels := new int[0];
      characterCode := 0;
      if targetDirectory != "" {
        filePrefix := targetDirectory + [separator] + prefix;
      } else {
        filePrefix := prefix;
      }
    }

    /** `handlePaintCommand`: the cursor moves `p` columns; on a BLACK
        switch the cells of row `n` from the old cursor to the new one
        become BLACK, left to right, until the first index outside the
        array throws; without a throw the switch flips. */
    method HandlePaint(paint: Command) returns (thrown: bool)
      requires paint.Paint?
      modifies this`m, this`paintSwitch, pixels
      ensures var start := width * n + old(m);
        var end := start + paint.numPixels - 1;
        var black := old(paintSwitch) == BLACK;
        && m == old(m) + paint.numPixels
        && (thrown <==> black && start <= end && (start < 0 || end >= pixels.Length))
        && paintSwitch == (if thrown then old(paintSwitch) else 1 - old(paintSwitch))
        && forall k | 0 <= k < pixels.Length ::
             pixels[k] == if black && 0 <= start <= k <= end then BLACK else old(pixels[k])
    {
      var p := paint.numPixels;
      m := m + p;
      if paintSwitch == BLACK {
        var l := m - p;
        var r := m - 1;
        var cursor := l;
        while cursor <= r
          invariant l <= cursor && (if l <= r then cursor <= r + 1 else cursor == l)
          invariant cursor > l ==> 0 <= width * n + l && width * n + cursor - 1 < pixels.Length
          invariant forall k | 0 <= k < pixels.Length ::
            pixels[k] == if width * n + l <= k < width * n + cursor then BLACK else old(pixels[k])
          modifies pixels
          decreases r - cursor
        {
          var index := width * n + cursor;
          if index < 0 || index >= pixels.Length {
            return true;
          }
          pixels[index] := BLACK;
          cursor := cursor + 1;
        }
      }
      paintSwitch := 1 - paintSwitch;
      thrown := false;
    }

    /** `handleBOCCommand`: counts the character, takes its box and the
        adjusted rows, and allocates a WHITE array of the box's size; a
        negative size throws before the array is replaced. */
    method HandleBoc(boc: Command) returns (thrown: bool)
      requires boc.Boc?
      modifies this
      ensures var w := boc.maxM - boc.minM + 1;
        var h := boc.maxN - boc.minN + 1;
        && box == Box(boc.minM, boc.maxM, boc.minN, boc.maxN)
        && width == w && height == h
        && adjustedMinHeight == AdjustedMin(minHeight, boc.minN)
        && adjustedMaxHeight == AdjustedMax(maxHeight, boc.maxN)
        && (thrown <==> w * h < 0)
        && (thrown ==> pixels == old(pixels))
        && (!thrown ==> Valid() && fresh(pixels) && forall k | 0 <= k < pixels.Length :: pixels[k] == WHITE)
      ensures characterCode == boc.code && totalChars == old(totalChars) + 1
      ensures m == 0 && n == 0 && paintSwitch == WHITE
    {
      var w := boc.maxM - boc.minM + 1;
      var h := boc.maxN - boc.minN + 1;
      var size := w * h;
      characterCode, totalChars := boc.code, totalChars + 1;
      m, n, paintSwitch := 0, 0, WHITE;
      box, width, height := Box(boc.minM, boc.maxM, boc.minN, boc.maxN), w, h;
      adjustedMinHeight := AdjustedMin(minHeight, boc.minN);
      adjustedMaxHeight := AdjustedMax(maxHeight, boc.maxN);
      if size < 0 {
        return true;
      }
      var a := new int[size];
      var i := 0;
      while i < size
        invariant 0 <= i <= size
        invariant forall k | 0 <= k < i :: a[k] == WHITE
        modifies a
      {
        a[i] := WHITE;
        i := i + 1;
      }
      pixels := a;
      thrown := false;
    }

    /** The pixel part of `handleEOCCommand`: the character's own array
        when its rows are the adjusted ones, else a new WHITE array of the
        adjusted height with the character's pixels copied in below the
        added rows. A negative size or a copy outside the new array
        throws. */
    method HandleEoc() returns (extendedPixels: array<int>, extendedHeight: int, thrown: bool)
      requires Valid()
      ensures var padded := adjustedMinHeight != box.minN || adjustedMaxHeight != box.maxN;
        var eh := adjustedMaxHeight - adjustedMinHeight + 1;
        var offset := Offset(adjustedMaxHeight, box.maxN, width);
        && (thrown <==> padded && (width * eh < 0 || CopyThrows(width * height, offset, width * eh)))
        && (!thrown && !padded ==> extendedPixels == pixels && extendedHeight == height)
        && (!thrown && padded ==>
             && fresh(extendedPixels) && extendedHeight == eh
             && extendedPixels.Length == width * eh
             && forall k | 0 <= k < extendedPixels.Length ::
                  extendedPixels[k] == if offset <= k < offset + width * height then pixels[k - offset] else WHITE)
    {
      extendedPixels := pixels;
      extendedHeight := height;
      thrown := false;
      if adjustedMinHeight != box.minN || adjustedMaxHeight != box.maxN {
        extendedHeight := adjustedMaxHeight - adjustedMinHeight + 1;
        var size := width * extendedHeight;
        if size < 0 {
          return extendedPixels, extendedHeight, true;
        }
        var e := new int[size];
        var i := 0;
        while i < size
          invariant 0 <= i <= size
          invariant forall k | 0 <= k < i :: e[k] == WHITE
        {
          e[i] := WHITE;
          i := i + 1;
        }
        var offset := (adjustedMaxHeight - box.maxN) * width;
        var count := width * height;
        i := 0;
        while i < count
          invariant 0 <= i && (count >= 0 ==> i <= count)
          invariant i > 0 ==> 0 <= offset && offset + i <= size
          invariant forall k | 0 <= k < size ::
            e[k] == if offset <= k < offset + i then pixels[k - offset] else WHITE
        {
          if i + offset < 0 || i + offset >= size {
            return e, extendedHeight, true;
          }
          e[i + offset] := pixels[i];
          i := i + 1;
        }
        extendedPixels := e;
      }
    }

    /** `handleSkipCommand`: down `rows` rows, back to column 0, WHITE. */
    method HandleSkip(skip: Command)
      requires skip.Skip?
      modifies this`n, this`m, this`paintSwitch
      ensures n == old(n) + skip.rows && m == 0 && paintSwitch == WHITE
    {
      var p := skip.rows - 1;
      n := n + p + 1;
      m := 0;
      paintSwitch := WHITE;
    }

    /** `handleNewRowCommand`: down one row, to the column the opcode
        gives, BLACK. */
    method HandleNewRow(newRow: Command)
      requires newRow.NewRow?
      modifies this`n, this`m, this`paintSwitch
      ensures n == old(n) + 1 && m == newRow.op - NEW_ROW_0 && paintSwitch == BLACK
    {
      n := n + 1;
      m := newRow.op - NEW_ROW_0;
      paintSwitch := BLACK;
    }

    /** `getTotalChars`: the number of boc commands handled so far. */
    method GetTotalChars() returns (t: int)
      ensures t == totalChars
    {
      t := totalChars;
    }
  }

  /** Every new-row record the decoder produces carries the column its
      opcode gives, so this callback, which reads the opcode, and the
      gftype one, which reads the offset, put the cursor in the same
      column. */
  lemma DecodedNewRowOffset(data: seq<int>, p: nat)
    requires IsByteSeq(data)
    ensures var r := Decode(data, p);
      r.Decoded? && r.cmd.NewRow? ==> r.cmd.offset == r.cmd.op - NEW_ROW_0
  {
  }
}
