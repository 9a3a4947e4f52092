/** `GFFile`: a random-access byte file read as a cursor. The file is a
    constant sequence of bytes (0..255) and a mutable file pointer that may
    stand anywhere at or after 0, also past the end. The functions below say
    what each read returns and where it leaves the pointer; the class
    methods do the reads step by step and are proved to agree with them. */
module Decoder {
  import opened Commands
  import opened JavaInt
  import opened Dispatch

  predicate IsByteSeq(data: seq<int>) {
    forall i | 0 <= i < |data| :: 0 <= data[i] < 256
  }

  /** `RandomAccessFile.read()`: the byte under the pointer, or -1 at or
      past the end. */
  function ReadAt(data: seq<int>, p: nat): int {
    if p < |data| then data[p] else -1
  }

  /** `readByteAsInt`: like `ReadAt`, but 0 at or past the end. */
  function ByteAsIntAt(data: seq<int>, p: nat): int {
    if p < |data| then data[p] else 0
  }

  /** Where the pointer stands after `k` single-byte reads from `p`: a read
      at or past the end does not move it. */
  function Advance(data: seq<int>, p: nat, k: nat): nat {
    if p >= |data| then p else if p + k <= |data| then p + k else |data|
  }

  function Unsigned16(a: int, b: int): int {
    a * 256 + b
  }

  function Unsigned24(a: int, b: int, c: int): int {
    (a * 256 + b) * 256 + c
  }

  /** The two's-complement reading of `readFourBytesAsInt`, computed in
      Java's wrapping `int` arithmetic. It only wraps when a raw read at the
      end of the file gives -1 after a first byte of 128 or more. */
  function Signed32(a: int, b: int, c: int, d: int): (r: int)
    ensures IsInt32(r)
  {
    if a < 128 then Wrap32(((a * 256 + b) * 256 + c) * 256 + d)
    else Wrap32((((a - 256) * 256 + b) * 256 + c) * 256 + d)
  }

  function TwoBytesAt(data: seq<int>, p: nat): int {
    Unsigned16(ReadAt(data, p), ReadAt(data, p + 1))
  }

  function ThreeBytesAt(data: seq<int>, p: nat): int {
    Unsigned24(ReadAt(data, p), ReadAt(data, p + 1), ReadAt(data, p + 2))
  }

  function FourBytesAt(data: seq<int>, p: nat): (r: int)
    ensures IsInt32(r)
  {
    Signed32(ReadAt(data, p), ReadAt(data, p + 1), ReadAt(data, p + 2), ReadAt(data, p + 3))
  }

  /** `k` successive `readByteAsInt` results from `p`. */
  function BytesAt(data: seq<int>, p: nat, k: nat): (s: seq<int>)
    ensures |s| == k
    ensures forall i | 0 <= i < k :: s[i] == ByteAsIntAt(data, p + i)
  {
    seq(k, i requires 0 <= i < k => ByteAsIntAt(data, p + i))
  }

  /** `n` successive `readFourBytesAsInt` results from `p`. */
  function Int32Fields(data: seq<int>, p: nat, n: nat): (fs: seq<int>)
    ensures |fs| == n
  {
    if n == 0 then [] else Int32Fields(data, p, n - 1) + [FourBytesAt(data, Advance(data, p, 4 * (n - 1)))]
  }

  lemma {:induction false} Int32FieldsAt(data: seq<int>, p: nat, n: nat)
    ensures forall i | 0 <= i < n :: Int32Fields(data, p, n)[i] == FourBytesAt(data, Advance(data, p, 4 * i))
  {
    if n > 0 {
      Int32FieldsAt(data, p, n - 1);
    }
  }

  /** Moving the pointer `k` bytes and then four more is moving it
      `k + 4` bytes. */
  lemma AdvanceTwice(data: seq<int>, q: nat, k: nat)
    ensures Advance(data, Advance(data, q, k), 4) == Advance(data, q, k + 4)
  {
  }

  /** One `readCommand`: the decoded command and the pointer after it, or
      the `NegativeArraySizeException` that an xxx command with a negative
      length raises. */
  datatype Decoded = Decoded(cmd: Command, next: nat) | NegativeArraySize(loc: int)

  function Decode(data: seq<int>, p: nat): (r: Decoded)
    requires IsByteSeq(data)
    ensures r.Decoded? ==> p <= r.next
    ensures r.Decoded? && p < |data| ==> p < r.next <= |data|
    ensures p >= |data| ==> r == Decoded(Paint(p - 1, 0, 0), p)
    ensures p < |data| ==> (r.Decoded? ==> r.cmd.loc == p && r.cmd.op == data[p])
    ensures r.Decoded? ==> Tagged(r.cmd)
  {
    var o := ByteAsIntAt(data, p);
    var q := Advance(data, p, 1);
    var loc := q - 1;
    if o <= BOC1 then DecodeShape(data, o, loc, q)
    else if o < XXX1 then DecodeRows(data, o, loc, q)
    else if o <= NO_OP then DecodeSpecial(data, o, loc, q)
    else DecodeFileLevel(data, o, loc, q)
  }

  /** The record classes the parser itself relies on: paints, the post
      command and the postpost command. */
  predicate Tagged(c: Command) {
    && (c.op <= PAINT3 ==> c.Paint?)
    && (c.op == POST ==> c.Post?)
    && (c.op == POST_POST ==> c.PostPost?)
  }

  /** Every decoded record has the class that `handleCommand` casts its
      opcode to. */
  lemma DecodeDispatches(data: seq<int>, p: nat)
    requires IsByteSeq(data)
    ensures var r := Decode(data, p);
      r.Decoded? ==> HandlerFor(r.cmd) == Route(r.cmd.op)
  {
  }

  /** The common promise of the four opcode groups below: the command is
      stamped with its opcode and location, and the pointer moves forward
      without passing the end. */
  ghost predicate WellDecoded(data: seq<int>, o: int, loc: int, q: nat, r: Decoded) {
    r.Decoded? ==>
      && q <= r.next && (q <= |data| ==> r.next <= |data|)
      && r.cmd.loc == loc && r.cmd.op == o
      && Tagged(r.cmd)
  }

  /** Paint and boc opcodes, 0..68; `q` is the pointer after the opcode. */
  function DecodeShape(data: seq<int>, o: int, loc: int, q: nat): (r: Decoded)
    requires 0 <= o <= BOC1
    ensures r.Decoded? && WellDecoded(data, o, loc, q, r)
  {
    if o <= PAINT_63 then
      Decoded(Paint(loc, o, o - PAINT_0), q)
    else if o == PAINT1 then
      Decoded(Paint(loc, o, ByteAsIntAt(data, q)), Advance(data, q, 1))
    else if o == PAINT2 then
      Decoded(Paint(loc, o, TwoBytesAt(data, q)), Advance(data, q, 2))
    else if o == PAINT3 then
      Decoded(Paint(loc, o, ThreeBytesAt(data, q)), Advance(data, q, 3))
    else if o == BOC then
      var f := Int32Fields(data, q, 6);
      Decoded(Boc(loc, o, f[0], f[1], f[2], f[3], f[4], f[5]), Advance(data, q, 24))
    else
      var c := ByteAsIntAt(data, q);
      var delM := ByteAsIntAt(data, q + 1);
      var maxM := ByteAsIntAt(data, q + 2);
      var delN := ByteAsIntAt(data, q + 3);
      var maxN := ByteAsIntAt(data, q + 4);
      Decoded(Boc(loc, o, c, -1, maxM - delM, maxM, maxN - delN, maxN), Advance(data, q, 5))
  }

  /** Eoc, skip and new-row opcodes, 69..238. */
  function DecodeRows(data: seq<int>, o: int, loc: int, q: nat): (r: Decoded)
    requires EOC <= o < XXX1
    ensures r.Decoded? && WellDecoded(data, o, loc, q, r)
  {
    if o == EOC then
      Decoded(Eoc(loc, o), q)
    else if o == SKIP0 then
      Decoded(Skip(loc, o, 1), q)
    else if o == SKIP1 then
      Decoded(Skip(loc, o, ByteAsIntAt(data, q) + 1), Advance(data, q, 1))
    else if o == SKIP2 then
      Decoded(Skip(loc, o, TwoBytesAt(data, q) + 1), Advance(data, q, 2))
    else if o == SKIP3 then
      Decoded(Skip(loc, o, ThreeBytesAt(data, q) + 1), Advance(data, q, 3))
    else
      Decoded(NewRow(loc, o, o - NEW_ROW_0), q)
  }

  /** The special commands xxx and yyy, and no-op, 239..244. */
  function DecodeSpecial(data: seq<int>, o: int, loc: int, q: nat): (r: Decoded)
    requires IsByteSeq(data)
    requires XXX1 <= o <= NO_OP
    ensures WellDecoded(data, o, loc, q, r)
  {
    if o <= XXX4 then
      var width := o - XXX1 + 1;
      var k :=
        if o == XXX1 then ByteAsIntAt(data, q)
        else if o == XXX2 then TwoBytesAt(data, q)
        else if o == XXX3 then ThreeBytesAt(data, q)
        else FourBytesAt(data, q);
      var start := Advance(data, q, width);
      if k < 0 then NegativeArraySize(loc)
      else Decoded(Xxx(loc, o, k, BytesAt(data, start, k)), Advance(data, start, k))
    else if o == YYY then
      Decoded(Yyy(loc, o, BytesAt(data, q, 4)), Advance(data, q, 4))
    else
      Decoded(NoOp(loc, o), q)
  }

  /** Character locators, preamble, postamble, and the undefined opcodes
      250..255, which decode to a no-op record keeping their own opcode. */
  function DecodeFileLevel(data: seq<int>, o: int, loc: int, q: nat): (r: Decoded)
    requires IsByteSeq(data)
    requires NO_OP < o < 256
    ensures r.Decoded? && WellDecoded(data, o, loc, q, r)
  {
    if o == CHAR_LOC then
      var f := Int32Fields(data, Advance(data, q, 1), 4);
      Decoded(NewCharLoc(loc, o, ByteAsIntAt(data, q), f[0], f[1], f[2], f[3]), Advance(data, q, 17))
    else if o == CHAR_LOC0 then
      var f := Int32Fields(data, Advance(data, q, 2), 2);
      Decoded(NewCharLoc(loc, o, ByteAsIntAt(data, q), 65536 * ByteAsIntAt(data, q + 1), 0, f[0], f[1]),
              Advance(data, q, 10))
    else if o == PRE then
      var k := ByteAsIntAt(data, q + 1);
      Decoded(Pre(loc, o, ByteAsIntAt(data, q), BytesAt(data, q + 2, k)), Advance(data, q, 2 + k))
    else if o == POST then
      Decoded(PostRecord(loc, Int32Fields(data, q, 9)), Advance(data, q, 36))
    else if o == POST_POST then
      Decoded(PostPost(loc, o, FourBytesAt(data, q)), Advance(data, q, 4))
    else
      Decoded(NoOp(loc, o), q)
  }

  /** The postamble record from its nine four-byte fields. */
  function PostRecord(loc: int, f: seq<int>): (c: Command)
    requires |f| == 9
    ensures c.Post? && c.loc == loc && c.op == POST
  {
    Post(loc, POST, f[0], f[1], f[2], f[3], f[4], f[5], f[6], f[7], f[8])
  }

  /** The number of bytes an opcode's parameters take, given the length
      that an xxx or pre command reads before its string. */
  function PayloadSize(o: int, k: int): int {
    if o == PAINT1 || o == SKIP1 then 1
    else if o == PAINT2 || o == SKIP2 then 2
    else if o == PAINT3 || o == SKIP3 then 3
    else if o == BOC then 24
    else if o == BOC1 then 5
    else if XXX1 <= o <= XXX4 then (o - XXX1 + 1) + k
    else if o == YYY then 4
    else if o == CHAR_LOC then 17
    else if o == CHAR_LOC0 then 10
    else if o == PRE then 2 + k
    else if o == POST then 36
    else if o == POST_POST then 4
    else 0
  }

  /** The string length that an xxx or pre command at `p` reads (0 for the
      other opcodes). */
  function LengthPrefix(data: seq<int>, p: nat): int
    requires p < |data|
  {
    var o := data[p];
    if o == XXX1 then ByteAsIntAt(data, p + 1)
    else if o == XXX2 then TwoBytesAt(data, p + 1)
    else if o == XXX3 then ThreeBytesAt(data, p + 1)
    else if o == XXX4 then FourBytesAt(data, p + 1)
    else if o == PRE then ByteAsIntAt(data, p + 2)
    else 0
  }

  /** `readCommand` consumes the opcode byte and exactly its parameters,
      or everything up to the end of the file when that comes first. */
  lemma DecodeConsumesPayload(data: seq<int>, p: nat)
    requires IsByteSeq(data) && p < |data|
    requires Decode(data, p).Decoded?
    ensures PayloadSize(data[p], LengthPrefix(data, p)) >= 0
    ensures var size := 1 + PayloadSize(data[p], LengthPrefix(data, p));
      Decode(data, p).next == if p + size <= |data| then p + size else |data|
  {
  }

  /** Past the end every raw read gives -1, so a four-byte field read
      after a pointer that stopped at the end is the field at the nominal
      position. */
  lemma FourBytesAtAdvance(data: seq<int>, q: nat, k: nat)
    ensures FourBytesAt(data, Advance(data, q, k)) == FourBytesAt(data, q + k)
  {
  }

  /** The same for a run of `readByteAsInt` results, which are 0 past the end. */
  lemma BytesAtAdvance(data: seq<int>, q: nat, k: nat, n: nat)
    ensures BytesAt(data, Advance(data, q, k), n) == BytesAt(data, q + k, n)
  {
  }

  /** The n four-byte fields from `q` are the fields at q, q + 4, q + 8, ... */
  lemma {:induction false} Int32FieldsLayout(data: seq<int>, q: nat, n: nat)
    ensures forall i | 0 <= i < n :: Int32Fields(data, q, n)[i] == FourBytesAt(data, q + 4 * i)
  {
    Int32FieldsAt(data, q, n);
    forall i | 0 <= i < n
      ensures Int32Fields(data, q, n)[i] == FourBytesAt(data, q + 4 * i)
    {
      FourBytesAtAdvance(data, q, 4 * i);
    }
  }

  /** The paint parameters: paint_0..paint_63 paint as many pixels as
      their opcode says, and paint1..paint3 read that count from the next
      one, two or three bytes. */
  lemma DecodePaintFields(data: seq<int>, p: nat)
    requires IsByteSeq(data) && p < |data| && data[p] <= PAINT3
    ensures var o, r := data[p], Decode(data, p);
      && r.Decoded? && r.cmd.Paint?
      && r.cmd.numPixels == if o <= PAINT_63 then o
                            else if o == PAINT1 then ByteAsIntAt(data, p + 1)
                            else if o == PAINT2 then TwoBytesAt(data, p + 1)
                            else ThreeBytesAt(data, p + 1)
  {
  }

  /** The boc parameters. The long form holds six four-byte fields in the
      order code, prevPtr, minM, maxM, minN, maxN; the short form holds
      five bytes code, delM, maxM, delN, maxN, has no previous character,
      and gives the minima as maxM - delM and maxN - delN. */
  lemma {:induction false} DecodeBocFields(data: seq<int>, p: nat)
    requires IsByteSeq(data) && p < |data| && (data[p] == BOC || data[p] == BOC1)
    ensures var r := Decode(data, p);
      && r.Decoded? && r.cmd.Boc?
      && (data[p] == BOC ==>
            && r.cmd.code == FourBytesAt(data, p + 1)
            && r.cmd.prevPtr == FourBytesAt(data, p + 5)
            && r.cmd.minM == FourBytesAt(data, p + 9)
            && r.cmd.maxM == FourBytesAt(data, p + 13)
            && r.cmd.minN == FourBytesAt(data, p + 17)
            && r.cmd.maxN == FourBytesAt(data, p + 21))
      && (data[p] == BOC1 ==>
            && r.cmd.code == ByteAsIntAt(data, p + 1)
            && r.cmd.prevPtr == -1
            && r.cmd.maxM == ByteAsIntAt(data, p + 3)
            && r.cmd.minM == r.cmd.maxM - ByteAsIntAt(data, p + 2)
            && r.cmd.maxN == ByteAsIntAt(data, p + 5)
            && r.cmd.minN == r.cmd.maxN - ByteAsIntAt(data, p + 4))
  {
    Int32FieldsLayout(data, p + 1, 6);
  }

  /** The row parameters: skip0 skips one row, skip1..skip3 one more than
      the one-, two- or three-byte count that follows, and new_row_k
      starts k columns in. */
  lemma DecodeRowFields(data: seq<int>, p: nat)
    requires IsByteSeq(data) && p < |data| && SKIP0 <= data[p] <= NEW_ROW_164
    ensures var o, r := data[p], Decode(data, p);
      && r.Decoded?
      && (o <= SKIP3 ==>
            r.cmd.Skip? && r.cmd.rows == if o == SKIP0 then 1
                                         else if o == SKIP1 then ByteAsIntAt(data, p + 1) + 1
                                         else if o == SKIP2 then TwoBytesAt(data, p + 1) + 1
                                         else ThreeBytesAt(data, p + 1) + 1)
      && (NEW_ROW_0 <= o ==> r.cmd.NewRow? && r.cmd.offset == o - NEW_ROW_0 && 0 <= r.cmd.offset <= 164)
  {
  }

  /** The special commands: xxx1..xxx4 read a one- to four-byte length and
      then that many bytes, and fail with `NegativeArraySizeException`
      exactly when the length is negative; yyy carries the four bytes
      after its opcode. */
  lemma {:induction false} DecodeSpecialFields(data: seq<int>, p: nat)
    requires IsByteSeq(data) && p < |data| && XXX1 <= data[p] <= YYY
    ensures var o, r, k := data[p], Decode(data, p), LengthPrefix(data, p);
      && (o <= XXX4 ==>
            && (r.NegativeArraySize? <==> k < 0)
            && (r.Decoded? ==>
                  && r.cmd.Xxx? && r.cmd.xLength == k
                  && r.cmd.xBytes == BytesAt(data, p + 1 + (o - XXX1 + 1), k)))
      && (o == YYY ==> r.Decoded? && r.cmd.Yyy? && r.cmd.yBytes == BytesAt(data, p + 1, 4))
  {
    if data[p] <= XXX4 && LengthPrefix(data, p) >= 0 {
      BytesAtAdvance(data, p + 1, data[p] - XXX1 + 1, LengthPrefix(data, p));
    }
  }

  /** The locator parameters. char_loc holds the residue byte and four
      four-byte fields dx, dy, width and pointer; char_loc0 holds the
      residue byte, a one-byte dm giving dx = 65536 * dm, then width and
      pointer. Either way the record's dy is 0 (see `NewCharLoc`). */
  lemma {:induction false} DecodeLocatorFields(data: seq<int>, p: nat)
    requires IsByteSeq(data) && p < |data| && (data[p] == CHAR_LOC || data[p] == CHAR_LOC0)
    ensures var r := Decode(data, p);
      && r.Decoded? && r.cmd.CharLoc?
      && r.cmd.residue == ByteAsIntAt(data, p + 1) && r.cmd.dy == 0
      && (data[p] == CHAR_LOC ==>
            && r.cmd.dx == FourBytesAt(data, p + 2)
            && r.cmd.width == FourBytesAt(data, p + 10)
            && r.cmd.beginPtr == FourBytesAt(data, p + 14))
      && (data[p] == CHAR_LOC0 ==>
            && r.cmd.dx == 65536 * ByteAsIntAt(data, p + 2)
            && r.cmd.width == FourBytesAt(data, p + 3)
            && r.cmd.beginPtr == FourBytesAt(data, p + 7))
  {
    if data[p] == CHAR_LOC {
      FourBytesAtAdvance(data, p + 1, 1);
      Int32FieldsLayout(data, Advance(data, p + 1, 1), 4);
      FourBytesAtAdvance(data, p + 1, 9);
      FourBytesAtAdvance(data, p + 1, 13);
    } else {
      FourBytesAtAdvance(data, p + 1, 2);
      Int32FieldsLayout(data, Advance(data, p + 1, 2), 2);
      FourBytesAtAdvance(data, p + 1, 6);
    }
  }

  /** The preamble and postamble parameters: pre holds the id byte, a
      length byte and that many comment bytes; post holds nine four-byte
      fields, the special pointer first; post_post holds the four-byte
      pointer to the post command. */
  lemma {:induction false} DecodeFileFields(data: seq<int>, p: nat)
    requires IsByteSeq(data) && p < |data| && PRE <= data[p] <= POST_POST
    ensures var o, r := data[p], Decode(data, p);
      && r.Decoded?
      && (o == PRE ==>
            && r.cmd.Pre? && r.cmd.idByte == ByteAsIntAt(data, p + 1)
            && r.cmd.commentBytes == BytesAt(data, p + 3, ByteAsIntAt(data, p + 2)))
      && (o == POST ==>
            && r.cmd.Post?
            && r.cmd.postSpecialPtr == FourBytesAt(data, p + 1)
            && r.cmd.designSize == FourBytesAt(data, p + 5)
            && r.cmd.checkSum == FourBytesAt(data, p + 9)
            && r.cmd.hppp == FourBytesAt(data, p + 13)
            && r.cmd.vppp == FourBytesAt(data, p + 17)
            && r.cmd.minM == FourBytesAt(data, p + 21)
            && r.cmd.maxM == FourBytesAt(data, p + 25)
            && r.cmd.minN == FourBytesAt(data, p + 29)
            && r.cmd.maxN == FourBytesAt(data, p + 33))
      && (o == POST_POST ==> r.cmd.PostPost? && r.cmd.postLoc == FourBytesAt(data, p + 1))
  {
    if data[p] == POST {
      Int32FieldsLayout(data, p + 1, 9);
    }
  }

  /** A four-byte field cut short by the end of the file: after a first
      byte of 128, three reads of -1 give an exact value below -2^31,
      which Java's `int` arithmetic wraps to a large positive pointer. */
  lemma TruncatedFieldWraps()
    ensures (((128 - 256) * 256 - 1) * 256 - 1) * 256 - 1 == -2147549441
    ensures Decode([POST_POST, 128], 0) == Decoded(PostPost(0, POST_POST, 2147417855), 2)
  {
    assert FourBytesAt([POST_POST, 128], 1) == Wrap32(-2147549441);
  }

  /** The big-endian bytes of a 32-bit value: the inverse of `Signed32`. */
  function Int32Bytes(v: int): (bs: seq<int>)
    requires IsInt32(v)
    ensures |bs| == 4 && IsByteSeq(bs)
  {
    var u := if v < 0 then v + 0x1_0000_0000 else v;
    var u1 := u / 256;
    var u2 := u1 / 256;
    [u2 / 256, u2 % 256, u1 % 256, u % 256]
  }

  /** Four bytes read as `readFourBytesAsInt` does give a 32-bit value,
      negative exactly when the first byte is 128 or more. */
  lemma Signed32Range(a: int, b: int, c: int, d: int)
    requires 0 <= a < 256 && 0 <= b < 256 && 0 <= c < 256 && 0 <= d < 256
    ensures IsInt32(Signed32(a, b, c, d))
    ensures Signed32(a, b, c, d) >= 0 <==> a < 128
  {
    var low := (b * 256 + c) * 256 + d;
    assert 0 <= low < 0x100_0000 by {
      assert 0 <= b * 256 + c < 0x1_0000;
    }
    assert Signed32(a, b, c, d) == (if a < 128 then a else a - 256) * 0x100_0000 + low;
  }

  lemma {:induction false} Signed32RoundTrip(v: int)
    requires IsInt32(v)
    ensures var bs := Int32Bytes(v); Signed32(bs[0], bs[1], bs[2], bs[3]) == v
  {
    var u := if v < 0 then v + 0x1_0000_0000 else v;
    var u1 := u / 256;
    var u2 := u1 / 256;
    var bs := Int32Bytes(v);
    assert u == u1 * 256 + bs[3];
    assert u1 == u2 * 256 + bs[2];
    assert u2 == bs[0] * 256 + bs[1];
    assert u == ((bs[0] * 256 + bs[1]) * 256 + bs[2]) * 256 + bs[3];
    assert bs[0] < 128 <==> v >= 0;
  }

  lemma {:induction false} Int32BytesRoundTrip(a: int, b: int, c: int, d: int)
    requires 0 <= a < 256 && 0 <= b < 256 && 0 <= c < 256 && 0 <= d < 256
    ensures IsInt32(Signed32(a, b, c, d))
    ensures Int32Bytes(Signed32(a, b, c, d)) == [a, b, c, d]
  {
    Signed32Range(a, b, c, d);
    var u2 := a * 256 + b;
    var u1 := u2 * 256 + c;
    var u := u1 * 256 + d;
    var v := Signed32(a, b, c, d);
    assert (if v < 0 then v + 0x1_0000_0000 else v) == u;
    assert u / 256 == u1 && u % 256 == d;
    assert u1 / 256 == u2 && u1 % 256 == c;
    assert u2 / 256 == a && u2 % 256 == b;
  }

  /** The pad-byte scan of `getPostCommand`: the last index at or before
      `p` whose byte is not 223, or -1 when there is none. */
  function ScanBack(data: seq<int>, p: int): (j: int)
    requires -1 <= p < |data|
    ensures -1 <= j <= p
    ensures forall i | j < i <= p :: data[i] == GF_POST_SIG
    ensures j >= 0 ==> data[j] != GF_POST_SIG
    decreases p + 1
  {
    if p < 0 then -1 else if data[p] == GF_POST_SIG then ScanBack(data, p - 1) else p
  }

  /** What `getPostCommand` returns: the postamble; the all-zero
      `PostCommand` when a seek to a negative position failed (the
      `IOException` is caught and printed); one of its two format errors; or
      the decoder's `NegativeArraySizeException`. */
  datatype PostLookup = Found(post: Command) | ZeroPost | BadIdByte(b: int) | NotPost(postLoc: int) | Crashed

  /** `getPostCommand` started with the pointer at `savePos`: its result and
      where it leaves the pointer (restored only on success). A found
      postamble is exactly what decoding at its own location gives, the
      file ends in the identification byte and pad bytes, and the pointer
      in the four bytes before that byte is the postamble's location. */
  function LocatePost(data: seq<int>, savePos: nat): (r: (PostLookup, nat))
    requires IsByteSeq(data)
    ensures r.0.Found? ==> r.1 == savePos
    ensures r.0.Found? ==>
      var c := r.0.post;
      && c.Post? && c.op == POST && 0 <= c.loc < |data|
      && Decode(data, c.loc).Decoded? && Decode(data, c.loc).cmd == c
      && var j := ScanBack(data, |data| - 1);
         && 4 <= j && data[j] == GF_ID_BYTE
         && (forall i | j < i < |data| :: data[i] == GF_POST_SIG)
         && FourBytesAt(data, j - 4) == c.loc
  {
    if |data| == 0 then (ZeroPost, savePos)
    else
      var j := ScanBack(data, |data| - 1);
      if j < 0 then (ZeroPost, 1)
      else if data[j] != GF_ID_BYTE then (BadIdByte(data[j]), j + 1)
      else if j - 4 < 0 then (ZeroPost, j + 1)
      else
        var postLoc := FourBytesAt(data, j - 4);
        if postLoc < 0 then (ZeroPost, j)
        else match Decode(data, postLoc)
          case NegativeArraySize(_) => (Crashed, postLoc)
          case Decoded(c, next) =>
            if c.Post? then (Found(c), savePos) else (NotPost(postLoc), next)
  }

  /** Conversely, a file that ends in a postpost pointer, the
      identification byte and pad bytes, whose pointer leads to a post
      command, gives that command back. */
  lemma {:induction false} LocatePostComplete(data: seq<int>, savePos: nat, j: nat)
    requires IsByteSeq(data)
    requires 4 <= j < |data| && data[j] == GF_ID_BYTE
    requires forall i | j < i < |data| :: data[i] == GF_POST_SIG
    requires 0 <= FourBytesAt(data, j - 4)
    requires Decode(data, FourBytesAt(data, j - 4)).Decoded?
    requires Decode(data, FourBytesAt(data, j - 4)).cmd.Post?
    ensures LocatePost(data, savePos) == (Found(Decode(data, FourBytesAt(data, j - 4)).cmd), savePos)
  {
    ScanBackFinds(data, |data| - 1, j);
  }

  lemma {:induction false} ScanBackFinds(data: seq<int>, p: int, j: nat)
    requires j <= p < |data| && data[j] != GF_POST_SIG
    requires forall i | j < i <= p :: data[i] == GF_POST_SIG
    ensures ScanBack(data, p) == j
    decreases p - j
  {
    if p > j {
      ScanBackFinds(data, p - 1, j);
    }
  }

  /** The file and its pointer. `data` never changes; every read moves
      `pos` forward, and `Eof` and `GetPostCommand` seek and put it back. */
  class GFFile {
    const data: seq<int>
    var pos: nat

    ghost predicate Valid() {
      IsByteSeq(data)
    }

    constructor (bytes: seq<int>)
      requires IsByteSeq(bytes)
      ensures Valid() && data == bytes && pos == 0
    {
      data := bytes;
      pos := 0;
    }

    /** `RandomAccessFile.read()`. */
    method Read() returns (b: int)
      modifies this
      ensures b == ReadAt(data, old(pos)) && pos == Advance(data, old(pos), 1)
    {
      b := ReadAt(data, pos);
      pos := Advance(data, pos, 1);
    }

    /** `RandomAccessFile.seek`, for the non-negative positions it accepts. */
    method Seek(p: nat)
      modifies this
      ensures pos == p
    {
      pos := p;
    }

    /** `eof`: reads one byte and steps back over it when there was one. */
    method Eof() returns (atEnd: bool)
      requires Valid()
      modifies this
      ensures pos == old(pos)
      ensures atEnd <==> pos >= |data|
    {
      var b := Read();
      if b == -1 {
        atEnd := true;
      } else {
        Seek(pos - 1);
        atEnd := false;
      }
    }

    method ReadByteAsInt() returns (v: int)
      requires Valid()
      modifies this
      ensures v == ByteAsIntAt(data, old(pos)) && pos == Advance(data, old(pos), 1)
      ensures old(pos) < |data| ==> 0 <= v < 256
    {
      v := 0;
      var atEnd := Eof();
      if !atEnd {
        v := Read();
      }
    }

    method ReadTwoBytesAsInt() returns (v: int)
      modifies this
      ensures v == TwoBytesAt(data, old(pos)) && pos == Advance(data, old(pos), 2)
    {
      var a := Read();
      var b := Read();
      v := a * 256 + b;
    }

    method ReadThreeBytesAsInt() returns (v: int)
      modifies this
      ensures v == ThreeBytesAt(data, old(pos)) && pos == Advance(data, old(pos), 3)
    {
      var a := Read();
      var b := Read();
      var c := Read();
      v := ((a * 256) + b) * 256 + c;
    }

    method ReadFourBytesAsInt() returns (v: int)
      modifies this
      ensures v == FourBytesAt(data, old(pos)) && pos == Advance(data, old(pos), 4)
    {
      var a := Read();
      var b := Read();
      var c := Read();
      var d := Read();
      if a < 128 {
        v := Wrap32(((a * 256 + b) * 256 + c) * 256 + d);
      } else {
        v := Wrap32((((a - 256) * 256 + b) * 256 + c) * 256 + d);
      }
    }

    /** The loop that fills the `xbytes` and `prebytes` arrays. */
    method ReadByteArray(k: nat) returns (a: array<int>)
      requires Valid()
      modifies this
      ensures fresh(a) && a[..] == BytesAt(data, old(pos), k)
      ensures pos == Advance(data, old(pos), k)
    {
      a := new int[k];
      var i := 0;
      while i < k
        invariant 0 <= i <= k
        invariant pos == Advance(data, old(pos), i)
        invariant forall j | 0 <= j < i :: a[j] == ByteAsIntAt(data, old(pos) + j)
      {
        a[i] := ReadByteAsInt();
        i := i + 1;
      }
    }

    /** `readCommand`: one opcode byte and exactly the parameters it calls
        for, as `Decode` states. */
    method ReadCommand() returns (r: Decoded)
      requires Valid()
      modifies this
      ensures r == Decode(data, old(pos))
      ensures r.Decoded? ==> pos == r.next
    {
      var o := ReadByteAsInt();
      var loc := pos - 1;
      if o <= BOC1 {
        r := ReadShape(o, loc);
      } else if o < XXX1 {
        r := ReadRows(o, loc);
      } else if o <= NO_OP {
        r := ReadSpecial(o, loc);
      } else {
        r := ReadFileLevel(o, loc);
      }
    }

    method ReadShape(o: int, loc: int) returns (r: Decoded)
      requires Valid() && 0 <= o <= BOC1
      modifies this
      ensures r == DecodeShape(data, o, loc, old(pos)) && pos == r.next
    {
      if o <= PAINT_63 {
        r := Decoded(Paint(loc, o, o - PAINT_0), pos);
      } else if o == PAINT1 {
        var d := ReadByteAsInt();
        r := Decoded(Paint(loc, o, d), pos);
      } else if o == PAINT2 {
        var d := ReadTwoBytesAsInt();
        r := Decoded(Paint(loc, o, d), pos);
      } else if o == PAINT3 {
        var d := ReadThreeBytesAsInt();
        r := Decoded(Paint(loc, o, d), pos);
      } else if o == BOC {
        r := ReadBoc(loc);
      } else {
        var c := ReadByteAsInt();
        var delM := ReadByteAsInt();
        var maxM := ReadByteAsInt();
        var delN := ReadByteAsInt();
        var maxN := ReadByteAsInt();
        r := Decoded(Boc(loc, o, c, -1, maxM - delM, maxM, maxN - delN, maxN), pos);
      }
    }

    method ReadBoc(loc: int) returns (r: Decoded)
      requires Valid()
      modifies this
      ensures r == DecodeShape(data, BOC, loc, old(pos)) && pos == r.next
    {
      var f := ReadInt32s(6);
      r := Decoded(Boc(loc, BOC, f[0], f[1], f[2], f[3], f[4], f[5]), pos);
    }

    /** `n` successive `readFourBytesAsInt` calls, as the records with
        several four-byte fields make them. */
    method ReadInt32s(n: nat) returns (fs: seq<int>)
      modifies this
      ensures fs == Int32Fields(data, old(pos), n) && pos == Advance(data, old(pos), 4 * n)
    {
      fs := [];
      while |fs| < n
        invariant |fs| <= n
        invariant fs == Int32Fields(data, old(pos), |fs|) && pos == Advance(data, old(pos), 4 * |fs|)
      {
        AdvanceTwice(data, old(pos), 4 * |fs|);
        var v := ReadFourBytesAsInt();
        fs := fs + [v];
      }
    }

    method ReadRows(o: int, loc: int) returns (r: Decoded)
      requires Valid() && EOC <= o < XXX1
      modifies this
      ensures r == DecodeRows(data, o, loc, old(pos)) && pos == r.next
    {
      if o == EOC {
        r := Decoded(Eoc(loc, o), pos);
      } else if o == SKIP0 {
        r := Decoded(Skip(loc, o, 1), pos);
      } else if o == SKIP1 {
        var d := ReadByteAsInt();
        r := Decoded(Skip(loc, o, d + 1), pos);
      } else if o == SKIP2 {
        var d := ReadTwoBytesAsInt();
        r := Decoded(Skip(loc, o, d + 1), pos);
      } else if o == SKIP3 {
        var d := ReadThreeBytesAsInt();
        r := Decoded(Skip(loc, o, d + 1), pos);
      } else {
        r := Decoded(NewRow(loc, o, o - NEW_ROW_0), pos);
      }
    }

    method ReadSpecial(o: int, loc: int) returns (r: Decoded)
      requires Valid() && XXX1 <= o <= NO_OP
      modifies this
      ensures r == DecodeSpecial(data, o, loc, old(pos))
      ensures r.Decoded? ==> pos == r.next
    {
      if o <= XXX4 {
        var k := 0;
        if o == XXX1 {
          k := ReadByteAsInt();
        } else if o == XXX2 {
          k := ReadTwoBytesAsInt();
        } else if o == XXX3 {
          k := ReadThreeBytesAsInt();
        } else {
          k := ReadFourBytesAsInt();
        }
        if k < 0 {
          return NegativeArraySize(loc);
        }
        var xbytes := ReadByteArray(k);
        r := Decoded(Xxx(loc, o, k, xbytes[..]), pos);
      } else if o == YYY {
        var ybytes := ReadByteArray(4);
        r := Decoded(Yyy(loc, o, ybytes[..]), pos);
      } else {
        r := Decoded(NoOp(loc, o), pos);
      }
    }

    method ReadFileLevel(o: int, loc: int) returns (r: Decoded)
      requires Valid() && NO_OP < o < 256
      modifies this
      ensures r == DecodeFileLevel(data, o, loc, old(pos)) && pos == r.next
    {
      if o == CHAR_LOC || o == CHAR_LOC0 {
        r := ReadCharLoc(o, loc);
      } else if o == PRE {
        var id := ReadByteAsInt();
        var k := ReadByteAsInt();
        var prebytes := ReadByteArray(k);
        r := Decoded(Pre(loc, o, id, prebytes[..]), pos);
      } else if o == POST {
        r := ReadPost(loc);
      } else if o == POST_POST {
        var postLoc := ReadFourBytesAsInt();
        r := Decoded(PostPost(loc, o, postLoc), pos);
      } else {
        r := Decoded(NoOp(loc, o), pos);
      }
    }

    method ReadCharLoc(o: int, loc: int) returns (r: Decoded)
      requires Valid() && (o == CHAR_LOC || o == CHAR_LOC0)
      modifies this
      ensures r == DecodeFileLevel(data, o, loc, old(pos)) && pos == r.next
    {
      var c := ReadByteAsInt();
      if o == CHAR_LOC {
        var f := ReadInt32s(4);
        r := Decoded(NewCharLoc(loc, o, c, f[0], f[1], f[2], f[3]), pos);
      } else {
        var dm := ReadByteAsInt();
        var f := ReadInt32s(2);
        r := Decoded(NewCharLoc(loc, o, c, 65536 * dm, 0, f[0], f[1]), pos);
      }
    }

    method ReadPost(loc: int) returns (r: Decoded)
      requires Valid()
      modifies this
      ensures r == DecodeFileLevel(data, POST, loc, old(pos)) && pos == r.next
    {
      var f := ReadInt32s(9);
      r := Decoded(PostRecord(loc, f), pos);
    }

    /** `getPostCommand` (module 19 of gftype): step back over the pad
        bytes from the last byte, check the identification byte, read the
        postamble pointer in the four bytes before it, decode there, and
        restore the pointer. */
    method GetPostCommand() returns (r: PostLookup)
      requires Valid()
      modifies this
      ensures r == LocatePost(data, old(pos)).0
      ensures !r.Crashed? ==> pos == LocatePost(data, old(pos)).1
    {
      var savePos := pos;
      if |data| == 0 {
        return ZeroPost;
      }
      var p := |data| - 1;
      Seek(p);
      var b := ReadByteAsInt();
      while b == GF_POST_SIG
        invariant 0 <= p < |data| && b == data[p] && pos == p + 1
        invariant ScanBack(data, p) == ScanBack(data, |data| - 1)
        decreases p
      {
        if p - 1 < 0 {
          return ZeroPost;
        }
        p := p - 1;
        Seek(p);
        b := ReadByteAsInt();
      }
      if b != GF_ID_BYTE {
        return BadIdByte(b);
      }
      if p - 4 < 0 {
        return ZeroPost;
      }
      p := p - 4;
      Seek(p);
      var postLoc := ReadFourBytesAsInt();
      if postLoc < 0 {
        return ZeroPost;
      }
      Seek(postLoc);
      var d := ReadCommand();
      if d.NegativeArraySize? {
        return Crashed;
      }
      if !d.cmd.Post? {
        return NotPost(postLoc);
      }
      Seek(savePos);
      r := Found(d.cmd);
    }
  }
}
