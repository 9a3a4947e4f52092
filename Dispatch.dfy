/** `GFParserCallback`: the observer interface the parser drives, reduced to
    the choice of handler. `Route` is `handleCommand`'s if/else chain over
    the opcode; `HandlerFor` is the independent reading by record class,
    and the two agree on every command the decoder produces. */
module Dispatch {
  import opened Commands

  /** One constant per abstract `handle...Command` method. */
  datatype Handler =
    | OnPaint | OnBoc | OnEoc | OnSkip | OnNewRow | OnXxx | OnYyy
    | OnCharLoc | OnPre | OnPost | OnPostPost | OnUndefined

  /** `handleCommand`: exactly one handler per opcode, by range. There is
      no branch for NO_OP, so 244 falls through to the undefined handler
      together with 250..255. */
  function Route(o: int): (h: Handler)
    ensures h == OnUndefined <==> o < PAINT_0 || o == NO_OP || o > POST_POST
    ensures h == OnPaint <==> PAINT_0 <= o <= PAINT3
    ensures h == OnBoc <==> o == BOC || o == BOC1
    ensures h == OnEoc <==> o == EOC
    ensures h == OnSkip <==> SKIP0 <= o <= SKIP3
    ensures h == OnNewRow <==> NEW_ROW_0 <= o <= NEW_ROW_164
    ensures h == OnXxx <==> XXX1 <= o <= XXX4
    ensures h == OnYyy <==> o == YYY
    ensures h == OnCharLoc <==> o == CHAR_LOC || o == CHAR_LOC0
    ensures h == OnPre <==> o == PRE
    ensures h == OnPost <==> o == POST
    ensures h == OnPostPost <==> o == POST_POST
  {
    if PAINT_0 <= o <= PAINT3 then OnPaint
    else if o == BOC || o == BOC1 then OnBoc
    else if o == EOC then OnEoc
    else if SKIP0 <= o <= SKIP3 then OnSkip
    else if NEW_ROW_0 <= o <= NEW_ROW_164 then OnNewRow
    else if XXX1 <= o <= XXX4 then OnXxx
    else if o == YYY then OnYyy
    else if o == CHAR_LOC || o == CHAR_LOC0 then OnCharLoc
    else if o == PRE then OnPre
    else if o == POST then OnPost
    else if o == POST_POST then OnPostPost
    else OnUndefined
  }

  /** The handler whose parameter type is the record's class; a no-op
      record has no handler of its own and goes to the undefined one. */
  function HandlerFor(c: Command): Handler {
    match c
    case Paint(_, _, _) => OnPaint
    case Boc(_, _, _, _, _, _, _, _) => OnBoc
    case Eoc(_, _) => OnEoc
    case Skip(_, _, _) => OnSkip
    case NewRow(_, _, _) => OnNewRow
    case Xxx(_, _, _, _) => OnXxx
    case Yyy(_, _, _) => OnYyy
    case NoOp(_, _) => OnUndefined
    case CharLoc(_, _, _, _, _, _, _) => OnCharLoc
    case Pre(_, _, _, _) => OnPre
    case Post(_, _, _, _, _, _, _, _, _, _, _) => OnPost
    case PostPost(_, _, _) => OnPostPost
  }
}
