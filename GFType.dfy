/** `GFTypeCallback`: the callback that repeats gftype's checks. It keeps
    the chain of character pointers, the paint cursor, an 80 by 80 image
    of the current character and the stated, observed and overall bounds.
    What it would print is not modelled; its `error` and `nlError` reports
    become entries of `log`. */
module GFType {
  import opened JavaInt
  import opened Commands
  import opened Decoder

  const MAX_ROW: int := 79
  const MAX_COL: int := 79

  /** The two pixel values; Java's default `false` is BLACK. */
  const BLACK: bool := false
  const WHITE: bool := true

  /** What the callback reports. The last two are printed by
      `handleEOCCommand` without a label; the log gives them the eoc's
      location. */
  datatype Report =
    | PrevPointerMismatch(expected: int, found: int)
    | NegativeXxxLength
    | NonAsciiXxx
    | DuplicateLocator
    | LocationMismatch(expected: int)
    | BackpointerMismatch(expected: int, found: int)
    | MissingLocator(residue: int)
    | MaxMTooSmall(observed: int)
    | MinNTooLarge(n: int)

  datatype Entry = Entry(at: int, report: Report)

  function Min(a: int, b: int): (r: int)
    ensures r <= a && r <= b && (r == a || r == b)
  {
    if a <= b then a else b
  }

  function Max(a: int, b: int): (r: int)
    ensures r >= a && r >= b && (r == a || r == b)
  {
    if a >= b then a else b
  }

  /** The report of `handleBOCCommand`: only when the stored pointer for
      the residue is not the boc's back pointer. */
  function BocCheck(stored: int, p: int): (r: seq<Report>)
    ensures r == [] <==> stored == p
    ensures r != [] ==> r == [PrevPointerMismatch(stored, p)]
  {
    if stored != p then [PrevPointerMismatch(stored, p)] else []
  }

  /** The report of `handleCharLocCommand`: a duplicate when the stored
      pointer is 0, whatever `p` is; else a mismatch unless `p` is it. */
  function LocatorCheck(stored: int, p: int): (r: seq<Report>)
    ensures r == [DuplicateLocator] <==> stored == 0
    ensures r == [] <==> stored != 0 && p == stored
    ensures r != [] && stored != 0 ==> r == [LocationMismatch(stored)]
  {
    if stored == 0 then [DuplicateLocator]
    else if p != stored then [LocationMismatch(stored)]
    else []
  }

  /** A character of an xxx string that is not printable ASCII. */
  predicate NonAscii(b: int) {
    b < 32 || b > 126
  }

  /** The reports of `handleXXXCommand`, in the order it makes them. */
  function XxxChecks(len: int, bytes: seq<int>): (r: seq<Report>)
    ensures (NegativeXxxLength in r) <==> len < 0
    ensures (NonAsciiXxx in r) <==> exists i | 0 <= i < |bytes| :: NonAscii(bytes[i])
    ensures |r| <= 2 && (|r| == 2 ==> r == [NegativeXxxLength, NonAsciiXxx])
  {
    (if len < 0 then [NegativeXxxLength] else []) +
    (if exists i | 0 <= i < |bytes| :: NonAscii(bytes[i]) then [NonAsciiXxx] else [])
  }

  /** The residues whose pointer is still positive, in increasing order:
      the locators `handlePostPostCommand` reports missing. */
  function Missing(ptrs: seq<int>): (ks: seq<int>)
    ensures |ks| <= |ptrs|
  {
    if ptrs == [] then []
    else
      var k := |ptrs| - 1;
      Missing(ptrs[..k]) + (if ptrs[k] > 0 then [k] else [])
  }

  /** A residue is reported missing exactly when its pointer is positive,
      once, and in increasing order. */
  lemma {:induction false} MissingExact(ptrs: seq<int>)
    ensures forall k :: k in Missing(ptrs) <==> 0 <= k < |ptrs| && ptrs[k] > 0
    ensures forall i, j | 0 <= i < j < |Missing(ptrs)| :: Missing(ptrs)[i] < Missing(ptrs)[j]
  {
    if ptrs != [] {
      var k := |ptrs| - 1;
      var front := ptrs[..k];
      MissingExact(front);
      assert Missing(ptrs) == Missing(front) + (if ptrs[k] > 0 then [k] else []);
      assert forall x | 0 <= x < k :: front[x] == ptrs[x];
      forall x
        ensures x in Missing(ptrs) <==> 0 <= x < |ptrs| && ptrs[x] > 0
      {
        if x < k {
          assert x in Missing(ptrs) <==> x in Missing(front);
        }
      }
      var ks := Missing(ptrs);
      forall i, j | 0 <= i < j < |ks|
        ensures ks[i] < ks[j]
      {
        if j >= |Missing(front)| {
          assert ks[i] == Missing(front)[i] && Missing(front)[i] in Missing(front);
        }
      }
    }
  }

  /** Each residue of `ks` as a missing-locator entry labelled `loc`. */
  function MissingEntries(loc: int, ks: seq<int>): (es: seq<Entry>)
    ensures |es| == |ks|
    ensures forall i | 0 <= i < |ks| :: es[i] == Entry(loc, MissingLocator(ks[i]))
  {
    if ks == [] then [] else MissingEntries(loc, ks[..|ks| - 1]) + [Entry(loc, MissingLocator(ks[|ks| - 1]))]
  }

  /** Scanning one more residue adds its report, if any, at the end. */
  lemma MissingEntriesStep(at: int, ptrs: seq<int>, k: nat)
    requires k < |ptrs|
    ensures MissingEntries(at, Missing(ptrs[..k + 1])) ==
      MissingEntries(at, Missing(ptrs[..k])) + (if ptrs[k] > 0 then [Entry(at, MissingLocator(k))] else [])
  {
    var ks := Missing(ptrs[..k]);
    assert ptrs[..k + 1][..k] == ptrs[..k];
    assert Missing(ptrs[..k + 1]) == ks + (if ptrs[k] > 0 then [k] else []);
    if ptrs[k] > 0 {
      assert (ks + [k])[..|ks|] == ks;
    }
  }

  function Entries(at: int, rs: seq<Report>): (es: seq<Entry>)
    ensures |es| == |rs|
    ensures forall i | 0 <= i < |rs| :: es[i] == Entry(at, rs[i])
  {
    if rs == [] then [] else [Entry(at, rs[0])] + Entries(at, rs[1..])
  }

  /** The last column a paint of `p` from column `m` blackens: the one
      before the new cursor, but never past `maxSubcol`. */
  function PaintEnd(m: int, p: int, maxSubcol: int): (r: int)
    ensures r <= maxSubcol && r <= m + p - 1
    ensures r == maxSubcol || r == m + p - 1
  {
    Min(m + p - 1, maxSubcol)
  }

  /** The bounding boxes the callback keeps: the one the current boc
      states, the extent painted so far, the box of all characters so
      far, and the window of the image that is cleared and printed. */
  datatype Bounds = Bounds(
    minMStated: int, maxMStated: int, minNStated: int, maxNStated: int,
    maxMObserved: int, maxNObserved: int,
    minMOverall: int, maxMOverall: int, minNOverall: int, maxNOverall: int,
    maxSubcol: int, maxSubrow: int)

  /** The bounds after construction: an empty stated box and an overall
      box that any character's box will replace. */
  const InitialBounds: Bounds :=
    Bounds(0, 0, 0, 0, 0, 0, INT_MAX, INT_MIN, INT_MAX, INT_MIN, 0, 0)

  /** The image window fits the 80 by 80 array. */
  predicate InImage(b: Bounds) {
    b.maxSubcol <= MAX_COL && b.maxSubrow <= MAX_ROW
  }

  /** A paint that leaves the cursor at column `m` has seen columns up to
      `m - 1`. */
  function Painted(b: Bounds, m: int): (r: Bounds)
    ensures r.maxMObserved == Max(b.maxMObserved, m - 1)
    ensures r == b.(maxMObserved := r.maxMObserved)
  {
    if m > b.maxMObserved then b.(maxMObserved := m - 1) else b
  }

  /** A boc states the character's box and resets the painted extent. */
  function Stated(b: Bounds, boc: Command): (r: Bounds)
    requires boc.Boc?
    ensures r.minMStated == boc.minM && r.maxMStated == boc.maxM
    ensures r.minNStated == boc.minN && r.maxNStated == boc.maxN
    ensures r.maxMObserved == -1 && r.maxNObserved == b.maxNObserved
    ensures r.minMOverall == b.minMOverall && r.maxMOverall == b.maxMOverall
    ensures r.minNOverall == b.minNOverall && r.maxNOverall == b.maxNOverall
    ensures r.maxSubcol == b.maxSubcol && r.maxSubrow == b.maxSubrow
  {
    b.(minMStated := boc.minM, maxMStated := boc.maxM, minNStated := boc.minN,
       maxNStated := boc.maxN, maxMObserved := -1)
  }

  /** The window `clearImage` opens: the stated box, one column narrower,
      and never past the array. */
  function Cleared(b: Bounds): (r: Bounds)
    ensures InImage(r)
    ensures r.maxSubcol <= b.maxMStated - b.minMStated - 1 && r.maxSubrow <= b.maxNStated - b.minNStated
    ensures r.maxSubcol == MAX_COL || r.maxSubcol == b.maxMStated - b.minMStated - 1
    ensures r.maxSubrow == MAX_ROW || r.maxSubrow == b.maxNStated - b.minNStated
    ensures r == b.(maxSubcol := r.maxSubcol, maxSubrow := r.maxSubrow)
  {
    b.(maxSubcol := Min(b.maxMStated - b.minMStated - 1, MAX_COL),
       maxSubrow := Min(b.maxNStated - b.minNStated, MAX_ROW))
  }

  /** The bounds after an eoc at row `n`: the observed extent becomes
      absolute, printing narrows the window to it, and the overall box
      grows to take in the character. */
  function Ended(b: Bounds, n: int, pixels: bool): (r: Bounds)
    ensures InImage(b) ==> InImage(r)
    ensures pixels ==> r.maxSubcol <= b.maxMObserved && r.maxSubrow <= n
    ensures r.maxSubcol == if pixels then Min(b.maxSubcol, b.maxMObserved) else b.maxSubcol
    ensures r.maxSubrow == if pixels then Min(b.maxSubrow, n) else b.maxSubrow
    ensures r.maxNObserved == n && r.maxMObserved == b.minMStated + b.maxMObserved + 1
    ensures r.minMOverall <= b.minMOverall && r.minMOverall <= b.minMStated
    ensures r.maxMOverall >= b.maxMOverall && r.maxMOverall >= r.maxMObserved
    ensures r.minNOverall <= b.minNOverall && r.minNOverall <= b.maxNStated - n
    ensures r.maxNOverall >= b.maxNOverall && r.maxNOverall >= b.maxNStated
    ensures r.minMOverall == b.minMOverall || r.minMOverall == b.minMStated
    ensures r.maxMOverall == b.maxMOverall || r.maxMOverall == r.maxMObserved
    ensures r.minNOverall == b.minNOverall || r.minNOverall == b.maxNStated - n
    ensures r.maxNOverall == b.maxNOverall || r.maxNOverall == b.maxNStated
    ensures r.minMStated == b.minMStated && r.maxMStated == b.maxMStated
    ensures r.minNStated == b.minNStated && r.maxNStated == b.maxNStated
  {
    var w := if pixels then Min(b.maxSubcol, b.maxMObserved) else b.maxSubcol;
    var h := if pixels then Min(b.maxSubrow, n) else b.maxSubrow;
    var observedM := b.minMStated + b.maxMObserved + 1;
    var bottom := b.maxNStated - n;
    Bounds(b.minMStated, b.maxMStated, b.minNStated, b.maxNStated, observedM, n,
           Min(b.minMOverall, b.minMStated), Max(b.maxMOverall, observedM),
           Min(b.minNOverall, bottom), Max(b.maxNOverall, b.maxNStated), w, h)
  }

  /** The two warnings of `handleEOCCommand`, given the bounds it leaves
      and the bottom row it computes: the stated box should have reached
      the painted extent and the bottom row. */
  function EocReports(b: Bounds, bottom: int): (rs: seq<Report>)
    ensures (MaxMTooSmall(b.maxMObserved) in rs) <==> b.maxMObserved > b.maxMStated
    ensures (MinNTooLarge(bottom) in rs) <==> bottom > b.maxNStated
    ensures forall r | r in rs :: r == MaxMTooSmall(b.maxMObserved) || r == MinNTooLarge(bottom)
  {
    (if b.maxMObserved > b.maxMStated then [MaxMTooSmall(b.maxMObserved)] else []) +
    (if bottom > b.maxNStated then [MinNTooLarge(bottom)] else [])
  }

  class GFTypeCallback {
    /** Whether pixel output was asked for; the mnemonic switch only
        changes what is printed. */
    const wantsPixels: bool
    var m: int
    var n: int
    var paintSwitch: bool
    const imageArray: array2<bool>
    var totalChars: int
    const charPtr: array<int>
    var gfPrevPtr: int
    var bounds: Bounds
    var inPaintSequence: bool
    var log: seq<Entry>

    /** The image is 80 columns by 80 rows, indexed column first, there
        is one pointer per residue, and the window fits the image. */
    ghost predicate Valid()
      reads this
    {
      && imageArray.Length0 == MAX_COL + 1 && imageArray.Length1 == MAX_ROW + 1
      && charPtr.Length == 256
      && InImage(bounds)
    }

    constructor (pixels: bool)
      ensures Valid() && fresh(imageArray) && fresh(charPtr)
      ensures wantsPixels == pixels
      ensures forall i | 0 <= i < 256 :: charPtr[i] == -1
      ensures forall i, j | 0 <= i < 80 && 0 <= j < 80 :: imageArray[i, j] == BLACK
      ensures totalChars == 0 && gfPrevPtr == 0 && paintSwitch == WHITE && m == 0 && n == 0
      ensures bounds == InitialBounds && !inPaintSequence && log == []
    {
      wantsPixels := pixels;
      imageArray := new bool[MAX_COL + 1, MAX_ROW + 1]((i, j) => BLACK);
      charPtr := new int[256](i => -1);
      gfPrevPtr := 0;
      paintSwitch := WHITE;
      m, n := 0, 0;
      inPaintSequence := false;
      totalChars := 0;
      bounds := InitialBounds;
      log := [];
    }

    /** `startSpecialCommands`: the pointer the next boc or the postamble
        must carry. */
    method StartSpecialCommands(loc: int)
      modifies this`gfPrevPtr
      ensures gfPrevPtr == loc
    {
      gfPrevPtr := loc;
    }

    /** `handlePaintCommand`. With pixel output, a BLACK switch and a row
        inside the window, the columns from the old cursor to `PaintEnd`
        of row `n` become BLACK, left to right; when the first of them is
        outside the array the write throws before anything is written, and
        `thrown` says so. */
    method HandlePaint(paint: Command) returns (thrown: bool)
      requires Valid() && paint.Paint?
      modifies this, imageArray
      ensures Valid()
      ensures var p := paint.numPixels;
        var l := old(m);
        var r := PaintEnd(old(m), p, old(bounds).maxSubcol);
        var painting := wantsPixels && old(paintSwitch) == BLACK && old(n) <= old(bounds).maxSubrow;
        && bounds == Painted(old(bounds), old(m) + p)
        && (thrown <==> painting && l <= r && (l < 0 || old(n) < 0))
        && (thrown ==> m == l && paintSwitch == old(paintSwitch) && inPaintSequence == old(inPaintSequence))
        && (!thrown ==> m == old(m) + p && paintSwitch == !old(paintSwitch) && inPaintSequence)
        && forall i, j | 0 <= i < 80 && 0 <= j < 80 ::
             imageArray[i, j] == if painting && !thrown && j == n && l <= i <= r then BLACK else old(imageArray[i, j])
      ensures n == old(n) && log == old(log)
      ensures totalChars == old(totalChars) && gfPrevPtr == old(gfPrevPtr)
    {
      var p := paint.numPixels;
      m := m + p;
      bounds := Painted(bounds, m);
      if wantsPixels && paintSwitch == BLACK && n <= bounds.maxSubrow {
        var l := m - p;
        var r := m - 1;
        if r > bounds.maxSubcol {
          r := bounds.maxSubcol;
        }
        var cursor := l;
        var broken := false;
        while cursor <= r && !broken
          invariant l <= cursor && (if l <= r then cursor <= r + 1 else cursor == l)
          invariant broken ==> cursor == l && l <= r && (l < 0 || n < 0)
          invariant cursor > l ==> 0 <= l && 0 <= n
          invariant forall i, j | 0 <= i < 80 && 0 <= j < 80 ::
            imageArray[i, j] == if j == n && l <= i < cursor then BLACK else old(imageArray[i, j])
          modifies imageArray
          decreases r - cursor, !broken
        {
          if cursor < 0 || n < 0 {
            broken := true;
          } else {
            imageArray[cursor, n] := BLACK;
            cursor := cursor + 1;
          }
        }
        if broken {
          m := cursor;
          return true;
        }
        assert cursor == if l <= r then r + 1 else l;
      }
      paintSwitch := !paintSwitch;
      inPaintSequence := true;
      thrown := false;
    }

    /** `handleBOCCommand`: counts the character, checks and relinks the
        pointer for its residue, takes the stated box, clears the image
        when pixels are wanted and puts the cursor at the top left. */
    method HandleBoc(boc: Command)
      requires Valid() && boc.Boc?
      modifies this, imageArray, charPtr
      ensures Valid()
      ensures var c := Residue(boc.code);
        && charPtr[..] == old(charPtr[..])[c := old(gfPrevPtr)]
        && log == old(log) + Entries(boc.loc, BocCheck(old(charPtr[c]), boc.prevPtr))
      ensures totalChars == old(totalChars) + 1
      ensures bounds == if wantsPixels then Cleared(Stated(old(bounds), boc)) else Stated(old(bounds), boc)
      ensures forall i, j | 0 <= i < 80 && 0 <= j < 80 ::
        imageArray[i, j] ==
          if wantsPixels && i <= bounds.maxSubcol && j <= bounds.maxSubrow then WHITE else old(imageArray[i, j])
      ensures m == 0 && n == 0 && paintSwitch == WHITE && !inPaintSequence
      ensures gfPrevPtr == old(gfPrevPtr)
    {
      var c := Residue(boc.code);
      var reports := BocCheck(charPtr[c], boc.prevPtr);
      charPtr[c] := gfPrevPtr;
      totalChars := totalChars + 1;
      bounds := Stated(bounds, boc);
      log := log + Entries(boc.loc, reports);
      if wantsPixels {
        ClearImage();
      }
      m, n, paintSwitch, inPaintSequence := 0, 0, WHITE, false;
    }

    /** `clearImage`: opens the window on the stated box and makes exactly
        its cells WHITE, row by row. */
    method ClearImage()
      requires Valid()
      modifies this`bounds, imageArray
      ensures Valid()
      ensures bounds == Cleared(old(bounds))
      ensures forall i, j | 0 <= i < 80 && 0 <= j < 80 ::
        imageArray[i, j] == if i <= bounds.maxSubcol && j <= bounds.maxSubrow then WHITE else old(imageArray[i, j])
    {
      bounds := Cleared(bounds);
      var maxSubcol, maxSubrow := bounds.maxSubcol, bounds.maxSubrow;
      var row := 0;
      while row <= maxSubrow
        invariant if 0 <= maxSubrow then 0 <= row <= maxSubrow + 1 else row == 0
        invariant forall i, j | 0 <= i < 80 && 0 <= j < 80 ::
          imageArray[i, j] == if i <= maxSubcol && j < row then WHITE else old(imageArray[i, j])
        modifies imageArray
        decreases maxSubrow - row
      {
        var col := 0;
        while col <= maxSubcol
          invariant if 0 <= maxSubcol then 0 <= col <= maxSubcol + 1 else col == 0
          invariant forall i, j | 0 <= i < 80 && 0 <= j < 80 ::
            imageArray[i, j] ==
              if i <= maxSubcol && (j < row || (j == row && i < col)) then WHITE else old(imageArray[i, j])
          modifies imageArray
          decreases maxSubcol - col
        {
          imageArray[col, row] := WHITE;
          col := col + 1;
        }
        row := row + 1;
      }
    }

    /** `handleEOCCommand`: the bounds become those of `Ended`, the cursor
        row becomes the bottom row of the character, and the two warnings
        are logged. With pixel output, `printImage` steps the cursor column
        across the window and leaves it one past the window's last column
        when it printed any row. */
    method HandleEoc(eoc: Command)
      requires Valid() && eoc.Eoc?
      modifies this
      ensures Valid()
      ensures bounds == Ended(old(bounds), old(n), wantsPixels)
      ensures n == bounds.maxNStated - old(n)
      ensures m == if wantsPixels && bounds.maxSubcol >= 0 && bounds.maxSubrow >= 0 then bounds.maxSubcol + 1 else old(m)
      ensures log == old(log) + Entries(eoc.loc, EocReports(bounds, n))
      ensures !inPaintSequence && paintSwitch == old(paintSwitch)
      ensures totalChars == old(totalChars) && gfPrevPtr == old(gfPrevPtr)
    {
      var b := Ended(bounds, n, wantsPixels);
      if wantsPixels && b.maxSubcol >= 0 && b.maxSubrow >= 0 {
        m := b.maxSubcol + 1;
      }
      n := b.maxNStated - n;
      bounds := b;
      log := log + Entries(eoc.loc, EocReports(b, n));
      inPaintSequence := false;
    }

    /** `handleSkipCommand`: down `rows` rows, back to column 0, WHITE. */
    method HandleSkip(skip: Command)
      requires skip.Skip?
      modifies this`n, this`m, this`paintSwitch, this`inPaintSequence
      ensures n == old(n) + skip.rows && m == 0 && paintSwitch == WHITE && !inPaintSequence
    {
      var p := skip.rows - 1;
      n := n + p + 1;
      m := 0;
      paintSwitch := WHITE;
      inPaintSequence := false;
    }

    /** `handleNewRowCommand`: down one row, to column `offset`, BLACK. */
    method HandleNewRow(newRow: Command)
      requires newRow.NewRow?
      modifies this`n, this`m, this`paintSwitch, this`inPaintSequence
      ensures n == old(n) + 1 && m == newRow.offset && paintSwitch == BLACK && !inPaintSequence
    {
      n := n + 1;
      m := newRow.offset;
      paintSwitch := BLACK;
      inPaintSequence := false;
    }

    /** `handleXXXCommand`: a negative length is reported, and so, once,
        is any byte outside printable ASCII. */
    method HandleXxx(xxx: Command)
      requires xxx.Xxx?
      modifies this`log, this`inPaintSequence
      ensures log == old(log) + Entries(xxx.loc, XxxChecks(xxx.xLength, xxx.xBytes))
      ensures !inPaintSequence
    {
      var reports: seq<Report> := [];
      if xxx.xLength < 0 {
        reports := [NegativeXxxLength];
      }
      var bytes := xxx.xBytes;
      var badChar := false;
      var len := 0;
      while len < |bytes|
        invariant 0 <= len <= |bytes|
        invariant badChar <==> exists i | 0 <= i < len :: NonAscii(bytes[i])
      {
        if NonAscii(bytes[len]) {
          badChar := true;
        }
        len := len + 1;
      }
      if badChar {
        reports := reports + [NonAsciiXxx];
      }
      log := log + Entries(xxx.loc, reports);
      inPaintSequence := false;
    }

    /** The handlers that only end a paint sequence here: yyy, no-op,
        preamble and undefined commands (what they print is not modelled). */
    method HandleQuiet(c: Command)
      requires c.Yyy? || c.NoOp? || c.Pre?
      modifies this`inPaintSequence
      ensures !inPaintSequence
    {
      inPaintSequence := false;
    }

    /** `handleCharLocCommand`: checks the locator against the pointer
        kept for its residue, then zeroes that pointer, so that a second
        locator for the same residue is always a duplicate. */
    method HandleCharLoc(loc: Command)
      requires Valid() && loc.CharLoc? && 0 <= loc.residue < 256
      modifies this`log, this`inPaintSequence, charPtr
      ensures log == old(log) + Entries(loc.loc, LocatorCheck(old(charPtr[loc.residue]), loc.beginPtr))
      ensures charPtr[..] == old(charPtr[..])[loc.residue := 0]
      ensures !inPaintSequence
    {
      var c := loc.residue;
      var p := loc.beginPtr;
      if charPtr[c] == 0 {
        log := log + [Entry(loc.loc, DuplicateLocator)];
      } else if p != charPtr[c] {
        log := log + [Entry(loc.loc, LocationMismatch(charPtr[c]))];
      }
      charPtr[c] := 0;
      inPaintSequence := false;
    }

    /** `handlePostCommand`: the postamble's back pointer must be the
        pointer last given to `startSpecialCommands`. */
    method HandlePost(post: Command)
      requires post.Post?
      modifies this`log, this`inPaintSequence
      ensures log == old(log) +
        (if post.postSpecialPtr != gfPrevPtr
         then [Entry(post.loc, BackpointerMismatch(gfPrevPtr, post.postSpecialPtr))] else [])
      ensures !inPaintSequence
    {
      if post.postSpecialPtr != gfPrevPtr {
        log := log + [Entry(post.loc, BackpointerMismatch(gfPrevPtr, post.postSpecialPtr))];
      }
      inPaintSequence := false;
    }

    /** `handlePostPostCommand`: one report per residue whose pointer is
        still positive, in increasing order of residue. */
    method HandlePostPost(postpost: Command)
      requires Valid() && postpost.PostPost?
      modifies this`log, this`inPaintSequence
      ensures log == old(log) + MissingEntries(postpost.loc, Missing(charPtr[..]))
      ensures !inPaintSequence
    {
      ghost var ptrs := charPtr[..];
      var k := 0;
      while k < 256
        invariant 0 <= k <= |ptrs|
        invariant log == old(log) + MissingEntries(postpost.loc, Missing(ptrs[..k]))
      {
        MissingEntriesStep(postpost.loc, ptrs, k);
        if charPtr[k] > 0 {
          log := log + [Entry(postpost.loc, MissingLocator(k))];
        }
        k := k + 1;
      }
      assert ptrs[..256] == ptrs;
      inPaintSequence := false;
    }

    /** `getTotalChars`: the number of boc commands handled so far. */
    method GetTotalChars() returns (t: int)
      ensures t == totalChars
    {
      t := totalChars;
    }
  }

  /** Every character locator the decoder produces carries a residue in
      0..255, the range `handleCharLocCommand` indexes its table with. */
  lemma DecodedResidueIsByte(data: seq<int>, p: nat)
    requires IsByteSeq(data)
    ensures var r := Decode(data, p);
      r.Decoded? && r.cmd.CharLoc? ==> 0 <= r.cmd.residue < 256
  {
  }
}
