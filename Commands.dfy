/** The GF command vocabulary: the opcode constants of `Command` and one
    datatype standing for `Command` and all of its record subclasses. Every
    record carries the byte offset of its opcode (`loc`) and the opcode
    itself (`op`); the Java getters are the datatype's destructors. */
module Commands {

  const PAINT_0: int := 0
  const PAINT_63: int := 63
  const PAINT1: int := 64
  const PAINT2: int := 65
  const PAINT3: int := 66
  const BOC: int := 67
  const BOC1: int := 68
  const EOC: int := 69
  const SKIP0: int := 70
  const SKIP1: int := 71
  const SKIP2: int := 72
  const SKIP3: int := 73
  const NEW_ROW_0: int := 74
  const NEW_ROW_164: int := 238
  const XXX1: int := 239
  const XXX2: int := 240
  const XXX3: int := 241
  const XXX4: int := 242
  const YYY: int := 243
  const NO_OP: int := 244
  const CHAR_LOC: int := 245
  const CHAR_LOC0: int := 246
  const PRE: int := 247
  const POST: int := 248
  const POST_POST: int := 249

  /** The GF format identification byte. */
  const GF_ID_BYTE: int := 131
  /** The pad byte that fills the file after the identification byte. */
  const GF_POST_SIG: int := 223

  datatype Command =
    | Paint(loc: int, op: int, numPixels: int)
    | Boc(loc: int, op: int, code: int, prevPtr: int,
          minM: int, maxM: int, minN: int, maxN: int)
    | Eoc(loc: int, op: int)
    | Skip(loc: int, op: int, rows: int)
    | NewRow(loc: int, op: int, offset: int)
    | Xxx(loc: int, op: int, xLength: int, xBytes: seq<int>)
    | Yyy(loc: int, op: int, yBytes: seq<int>)
    | NoOp(loc: int, op: int)
    | CharLoc(loc: int, op: int, residue: int, dx: int, dy: int, width: int, beginPtr: int)
    | Pre(loc: int, op: int, idByte: int, commentBytes: seq<int>)
    | Post(loc: int, op: int, postSpecialPtr: int, designSize: int, checkSum: int,
           hppp: int, vppp: int, minM: int, maxM: int, minN: int, maxN: int)
    | PostPost(loc: int, op: int, postLoc: int)

  /** The `CharLocCommand` constructor. Its sixth parameter is named `dw`,
      so `this.dy = dy` assigns the field to itself and `dy` keeps Java's
      default 0 whatever the caller passes. */
  function NewCharLoc(l: int, o: int, c: int, dx: int, dw: int, w: int, p: int): (r: Command)
    ensures r.CharLoc? && r.dy == 0
    ensures r.loc == l && r.op == o
    ensures r.residue == c && r.dx == dx && r.width == w && r.beginPtr == p
  {
    CharLoc(l, o, c, dx, 0, w, p)
  }

  /** The all-zero `PostCommand` that `getPostCommand` starts from and
      returns when a seek fails. */
  const ZeroPost: Command := Post(0, 0, 0, 0, 0, 0, 0, 0, 0, 0, 0)
}
