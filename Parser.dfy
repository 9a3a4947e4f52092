/** `GFParser`: the phases of a GF file (preamble, characters, postamble,
    signature trailer) as functions of the bytes and the file pointer.
    Each function gives the callback events the phase produces, how it
    ends, and where it leaves the pointer; the class `GFParser` below runs
    the same phases with loops over a `GFFile` and is proved to agree. */
module Parser {
  import opened Commands
  import opened Dispatch
  import opened Decoder

  /** The reasons the parser calls `badGF`. Every callback shown throws
      there, so each one ends the parse. */
  datatype Fatal =
    | NotPreamble(loc: int, op: int)
    | BadIdentification(id: int)
    | NotBoc(loc: int, op: int)
    | FileEndedPrematurely
    | CharEndedUnexpectedly
    | BadSignature(at: int)

  /** The messages the parser passes to the callback's `error`, which
      only reports them. */
  datatype Message =
    | PreambleInChar
    | PostambleInChar
    | BocBeforeEoc
    | UndefinedCommand(op: int)
    | ShouldBePostPost
    | PostPointerMismatch(expected: int, found: int)
    | IdByteMismatch(found: int)
    | NotEnoughSignatureBytes

  /** What the callback sees: `startSpecialCommands`, a `handle...Command`
      call, or an `error`. */
  datatype Event =
    | StartSpecial(at: int)
    | Call(handler: Handler, cmd: Command)
    | Logged(loc: int, msg: Message)

  /** How a parse ends. `CastFailed` is the `ClassCastException` that the
      postamble raises on a terminator that is not postpost, caught there;
      `Crash` is the decoder's uncaught `NegativeArraySizeException`;
      `Diverged` is a paint sequence that runs into the end of the file,
      where the decoder yields paint_0 forever without moving. */
  datatype Outcome =
    | Completed
    | Aborted(why: Fatal)
    | CastFailed(loc: int)
    | Crash(loc: int)
    | Diverged

  datatype Flow<T> = Continue(value: T) | Stop(outcome: Outcome)

  /** One phase: the events in order, how it ends, and the pointer after. */
  datatype Step<T> = Step(events: seq<Event>, flow: Flow<T>, pos: nat)

  function Prepend<T>(evs: seq<Event>, s: Step<T>): Step<T> {
    Step(evs + s.events, s.flow, s.pos)
  }

  lemma ConcatAssoc(a: seq<Event>, b: seq<Event>, c: seq<Event>)
    ensures (a + b) + c == a + (b + c)
  {
  }

  lemma PrependAssoc<T>(a: seq<Event>, b: seq<Event>, s: Step<T>)
    ensures Prepend(a, Prepend(b, s)) == Prepend(a + b, s)
  {
    assert a + (b + s.events) == (a + b) + s.events;
  }

  /** Every handler call goes to the handler `handleCommand` would pick
      for the command's opcode, and the record has that handler's class. */
  ghost predicate Routed(evs: seq<Event>) {
    forall i | 0 <= i < |evs| :: evs[i].Call? ==>
      evs[i].handler == Route(evs[i].cmd.op) && HandlerFor(evs[i].cmd) == evs[i].handler
  }

  lemma RoutedAppend(a: seq<Event>, b: seq<Event>)
    requires Routed(a) && Routed(b)
    ensures Routed(a + b)
  {
    assert forall i | |a| <= i < |a + b| :: (a + b)[i] == b[i - |a|];
  }

  /** The three errors that end a character. */
  predicate IsCharError(e: Event) {
    e.Logged? && e.msg in {PreambleInChar, PostambleInChar, BocBeforeEoc}
  }

  /** The phase ended on `CharEndedUnexpectedly`. */
  predicate EndedInChar<T>(f: Flow<T>) {
    f.Stop? && f.outcome == Aborted(CharEndedUnexpectedly)
  }

  /** No event before the last is one of the three errors that end a
      character, and the phase `ended` in a character exactly when the
      last event is one. */
  ghost predicate CharErrorsFinal(evs: seq<Event>, ended: bool) {
    && (forall i | 0 <= i < |evs| - 1 :: !IsCharError(evs[i]))
    && (ended <==> |evs| > 0 && IsCharError(evs[|evs| - 1]))
  }

  ghost predicate NoCharError(evs: seq<Event>) {
    forall i | 0 <= i < |evs| :: !IsCharError(evs[i])
  }

  lemma CharErrorsAppend(a: seq<Event>, b: seq<Event>, ended: bool)
    requires NoCharError(a) && CharErrorsFinal(b, ended)
    ensures CharErrorsFinal(a + b, ended)
  {
    var all := a + b;
    forall i | 0 <= i < |all| - 1
      ensures !IsCharError(all[i])
    {
      if i >= |a| {
        assert all[i] == b[i - |a|];
      }
    }
    if |b| > 0 {
      assert all[|all| - 1] == b[|b| - 1];
    }
  }

  lemma NoCharErrorAppend(a: seq<Event>, b: seq<Event>)
    requires NoCharError(a) && NoCharError(b)
    ensures NoCharError(a + b)
  {
    assert forall i | |a| <= i < |a + b| :: (a + b)[i] == b[i - |a|];
  }

  // ---------------------------------------------------------------------
  // The phases

  /** The commands `passNoOpCommands` forwards. */
  predicate IsSpecial(o: int) {
    o == YYY || (XXX1 <= o <= XXX4) || o == NO_OP
  }

  /** `passNoOpCommands`: forwards every xxx, yyy and no-op command through
      `handleCommand` and returns the first other command. */
  function PassNoOps(data: seq<int>, p: nat): (r: Step<Command>)
    requires IsByteSeq(data) && p <= |data|
    ensures p <= r.pos <= |data|
    ensures r.flow.Continue? ==> Tagged(r.flow.value)
    ensures r.flow.Continue? && r.pos == p ==> p == |data| && r.flow.value.op == PAINT_0
    decreases |data| - p
  {
    match Decode(data, p)
    case NegativeArraySize(l) => Step([], Stop(Crash(l)), p)
    case Decoded(c, q) =>
      if IsSpecial(c.op) then Prepend([Call(Route(c.op), c)], PassNoOps(data, q))
      else Step([], Continue(c), q)
  }

  /** `readPaintSequence`: hands `first` and every following command with
      opcode at most 66 to `handlePaintCommand`, and returns the first
      command past them. At the end of the file the decoder keeps yielding
      paint_0 without moving, so the Java loop never ends. */
  function PaintRun(data: seq<int>, first: Command, p: nat): (r: Step<Command>)
    requires IsByteSeq(data) && p <= |data|
    ensures p <= r.pos <= |data|
    ensures r.flow.Continue? ==> r.flow.value.op > PAINT3
    decreases |data| - p
  {
    var head := [Call(OnPaint, first)];
    if p >= |data| then Step(head, Stop(Diverged), p)
    else match Decode(data, p)
      case NegativeArraySize(l) => Step(head, Stop(Crash(l)), p)
      case Decoded(c, q) =>
        if c.op <= PAINT3 then Prepend(head, PaintRun(data, c, q))
        else Step(head, Continue(c), q)
  }

  /** How `doChar` treats a command that is not a paint (modules 51 and
      52 of gftype). */
  datatype InChar = Reject(msg: Message) | Undefined | EndOfChar | Forward

  function ClassifyInChar(o: int): (v: InChar)
    ensures v.Reject? <==> o in {PRE, POST, POST_POST, BOC, BOC1}
    ensures v.Reject? ==> IsCharError(Logged(0, v.msg))
    ensures v == EndOfChar <==> o == EOC
    ensures v == Undefined <==> o == CHAR_LOC || o == CHAR_LOC0 || o > POST_POST
  {
    if o == PRE then Reject(PreambleInChar)
    else if o == POST || o == POST_POST then Reject(PostambleInChar)
    else if o == BOC || o == BOC1 then Reject(BocBeforeEoc)
    else if o == CHAR_LOC || o == CHAR_LOC0 || o > POST_POST then Undefined
    else if o == EOC then EndOfChar
    else Forward
  }

  /** One round of `doChar`'s loop: read a command, give up if that read
      reached the end of the file, run a paint sequence, then reject,
      report or forward the command that follows. `Continue(true)` means
      an eoc was forwarded and the loop ends. */
  function CharRound(data: seq<int>, p: nat): (r: Step<bool>)
    requires IsByteSeq(data) && p <= |data|
    ensures p <= r.pos <= |data|
    ensures r.flow.Continue? ==> p < r.pos
  {
    var run := CharCommand(data, p);
    match run.flow
    case Stop(out) => Step(run.events, Stop(out), run.pos)
    case Continue(d) =>
      var call := Call(Route(d.op), d);
      match ClassifyInChar(d.op)
      case Reject(msg) =>
        Step(run.events + [Logged(d.loc, msg)], Stop(Aborted(CharEndedUnexpectedly)), run.pos)
      case EndOfChar => Step(run.events + [call], Continue(true), run.pos)
      case Undefined =>
        Step(run.events + [Logged(d.loc, UndefinedCommand(d.op)), call], Continue(false), run.pos)
      case Forward => Step(run.events + [call], Continue(false), run.pos)
  }

  /** The command a round of `doChar` acts on: the next command, or,
      when that is a paint, the first command past its paint sequence.
      Fatal when the read reached the end of the file. */
  function CharCommand(data: seq<int>, p: nat): (r: Step<Command>)
    requires IsByteSeq(data) && p <= |data|
    ensures p <= r.pos <= |data|
    ensures r.flow.Continue? ==> p < r.pos
  {
    match Decode(data, p)
    case NegativeArraySize(l) => Step([], Stop(Crash(l)), p)
    case Decoded(c, q) =>
      if q >= |data| then Step([], Stop(Aborted(FileEndedPrematurely)), q)
      else if c.op <= PAINT3 then PaintRun(data, c, q)
      else Step([], Continue(c), q)
  }

  /** `doChar`, from the pointer just after a boc: rounds until one has
      forwarded an eoc. */
  function CharBody(data: seq<int>, p: nat): (r: Step<()>)
    requires IsByteSeq(data) && p <= |data|
    ensures p <= r.pos <= |data|
    decreases |data| - p
  {
    var s := CharRound(data, p);
    match s.flow
    case Stop(out) => Step(s.events, Stop(out), s.pos)
    case Continue(done) =>
      if done then Step(s.events, Continue(()), s.pos)
      else Prepend(s.events, CharBody(data, s.pos))
  }

  /** How a round of `processAllCharacters` ends when nothing is fatal:
      at the post command, or after a complete character. */
  datatype RoundEnd = FoundPost(post: Command) | CharDone

  /** One round of `processAllCharacters`: report the pointer to
      `startSpecialCommands`, pass the special commands, and stop at a
      post; anything else but a boc is fatal, and a boc is handed to
      `handleBOCCommand` and followed by its character body, whose failure
      is fatal. */
  function CharacterRound(data: seq<int>, p: nat): (r: Step<RoundEnd>)
    requires IsByteSeq(data) && p <= |data|
    ensures p <= r.pos <= |data|
    ensures r.flow == Continue(CharDone) ==> p < r.pos
    ensures r.flow.Continue? && r.flow.value.FoundPost? ==>
      r.flow.value.post.Post? && r.flow.value.post.op == POST
  {
    var s := PassNoOps(data, p);
    var head := [StartSpecial(p)] + s.events;
    match s.flow
    case Stop(out) => Step(head, Stop(out), s.pos)
    case Continue(c) =>
      if c.op == POST then Step(head, Continue(FoundPost(c)), s.pos)
      else if c.op != BOC && c.op != BOC1 then Step(head, Stop(Aborted(NotBoc(c.loc, c.op))), s.pos)
      else
        var body := CharBody(data, s.pos);
        var evs := head + [Call(OnBoc, c)] + body.events;
        match body.flow
        case Stop(out) => Step(evs, Stop(out), body.pos)
        case Continue(_) => Step(evs, Continue(CharDone), body.pos)
  }

  /** `processAllCharacters`: rounds until one meets the post command,
      which is returned. */
  function Characters(data: seq<int>, p: nat): (r: Step<Command>)
    requires IsByteSeq(data) && p <= |data|
    ensures p <= r.pos <= |data|
    ensures r.flow.Continue? ==> r.flow.value.Post? && r.flow.value.op == POST
    decreases |data| - p
  {
    var s := CharacterRound(data, p);
    match s.flow
    case Stop(out) => Step(s.events, Stop(out), s.pos)
    case Continue(end) =>
      match end
      case FoundPost(c) => Step(s.events, Continue(c), s.pos)
      case CharDone => Prepend(s.events, Characters(data, s.pos))
  }

  /** `processPreamble`: the first command must be a preamble carrying
      the identification byte 131; only then is it handed on. */
  function Preamble(data: seq<int>, p: nat): (r: Step<()>)
    requires IsByteSeq(data) && p <= |data|
    ensures p <= r.pos <= |data|
    ensures r.flow.Continue? <==> |r.events| == 1
    ensures r.flow.Continue? ==>
      && r.events[0].Call? && r.events[0].handler == OnPre
      && r.events[0].cmd.Pre? && r.events[0].cmd.idByte == GF_ID_BYTE
      && r.events[0].cmd.loc == p && r.events[0].cmd.op == PRE && p < |data| && data[p] == PRE
    ensures p < |data| && data[p] == PRE && ByteAsIntAt(data, p + 1) == GF_ID_BYTE ==> r.flow.Continue?
    ensures r.flow.Stop? ==> r.events == [] && (r.flow.outcome.Crash? || r.flow.outcome.Aborted?)
    ensures Routed(r.events) && NoCharError(r.events)
  {
    match Decode(data, p)
    case NegativeArraySize(l) => Step([], Stop(Crash(l)), p)
    case Decoded(c, q) =>
      if c.op != PRE then Step([], Stop(Aborted(NotPreamble(c.loc, c.op))), q)
      else if c.idByte != GF_ID_BYTE then Step([], Stop(Aborted(BadIdentification(c.idByte))), q)
      else Step([Call(OnPre, c)], Continue(()), q)
  }

  /** The locator loop of `processPostamble`: character locators go to
      `handleCharLocCommand`, no-ops are dropped without a call, and the
      first other command ends the loop. */
  function CharLocs(data: seq<int>, p: nat): (r: Step<Command>)
    requires IsByteSeq(data) && p <= |data|
    ensures p <= r.pos <= |data|
    ensures r.flow.Continue? ==> Tagged(r.flow.value)
    decreases |data| - p
  {
    match Decode(data, p)
    case NegativeArraySize(l) => Step([], Stop(Crash(l)), p)
    case Decoded(c, q) =>
      if c.op == CHAR_LOC || c.op == CHAR_LOC0 then Prepend([Call(OnCharLoc, c)], CharLocs(data, q))
      else if c.op == NO_OP then CharLocs(data, q)
      else Step([], Continue(c), q)
  }

  /** The pad-byte loop of the trailer, entered with `m` the byte just
      read at `pos - 1` (or 0 at the end of the file): read on while the
      last byte was 223 and the file has not ended. */
  function SigScan(data: seq<int>, m: int, pos: nat): (r: (int, nat))
    requires pos <= |data|
    ensures pos <= r.1 <= |data|
    ensures r.1 < |data| ==> r.0 != GF_POST_SIG
    decreases |data| - pos
  {
    if m == GF_POST_SIG && pos < |data| then SigScan(data, data[pos], pos + 1)
    else (m, pos)
  }

  /** The signature trailer from `k`, the pointer just after the
      identification byte: fatal if the pad-byte loop stops before the end
      of the file, else a report when fewer than four bytes follow `k`. */
  function Signature(data: seq<int>, k: nat, at: int): (r: Step<()>)
    requires IsByteSeq(data) && k <= |data|
    ensures r.flow.Continue? ==> r.pos == |data|
  {
    var scan := SigScan(data, ByteAsIntAt(data, k), Advance(data, k, 1));
    var pos := scan.1;
    if pos < |data| then Step([], Stop(Aborted(BadSignature(pos - 1))), pos)
    else if pos < k + 4 then Step([Logged(at, NotEnoughSignatureBytes)], Continue(()), pos)
    else Step([], Continue(()), pos)
  }

  /** `processPostamble` from its post command: the locator loop, then
      the postpost checks and the trailer. A terminator other than
      postpost is reported, and the cast that follows fails. */
  function Postamble(data: seq<int>, post: Command, p: nat): (r: Step<()>)
    requires IsByteSeq(data) && p <= |data|
    ensures |r.events| > 0 && r.events[0] == Call(OnPost, post)
    ensures r.flow.Continue? ==> r.pos == |data|
  {
    var locs := CharLocs(data, p);
    var head := [Call(OnPost, post)] + locs.events;
    match locs.flow
    case Stop(out) => Step(head, Stop(out), locs.pos)
    case Continue(c) =>
      if c.op != POST_POST then
        Step(head + [Logged(c.loc, ShouldBePostPost)], Stop(CastFailed(c.loc)), locs.pos)
      else Prepend(head, PostPostChecks(data, post.loc, c, locs.pos))
  }

  /** After `handlePostPostCommand`: the back pointer must be the post
      command's location, the next byte the identification byte (both
      only reported), then the trailer. */
  function PostPostChecks(data: seq<int>, postLoc: int, c: Command, q: nat): (r: Step<()>)
    requires IsByteSeq(data) && q <= |data|
    requires c.PostPost?
    ensures |r.events| > 0 && r.events[0] == Call(OnPostPost, c)
    ensures r.flow.Continue? ==> r.pos == |data|
  {
    var pointer := if c.postLoc != postLoc
      then [Logged(c.loc, PostPointerMismatch(postLoc, c.postLoc))] else [];
    var id := ByteAsIntAt(data, q);
    var idError := if id != GF_ID_BYTE then [Logged(c.loc, IdByteMismatch(id))] else [];
    Prepend([Call(OnPostPost, c)] + pointer + idError, Signature(data, Advance(data, q, 1), c.loc))
  }

  /** `parse` from pointer `p`: preamble, characters, postamble,
      stopping at the first phase that does not continue. */
  function ParseFile(data: seq<int>, p: nat): (r: Step<()>)
    requires IsByteSeq(data) && p <= |data|
    ensures r.flow.Continue? ==> |r.events| > 0 && r.events[0].Call? && r.events[0].cmd.Pre?
  {
    var pre := Preamble(data, p);
    match pre.flow
    case Stop(out) => pre
    case Continue(_) =>
      var chars := Characters(data, pre.pos);
      match chars.flow
      case Stop(out) => Step(pre.events + chars.events, Stop(out), chars.pos)
      case Continue(post) => Prepend(pre.events + chars.events, Postamble(data, post, chars.pos))
  }

  /** The outcome `parse` ends with. */
  function ParseOutcome(data: seq<int>, p: nat): Outcome
    requires IsByteSeq(data) && p <= |data|
  {
    match ParseFile(data, p).flow
    case Continue(_) => Completed
    case Stop(out) => out
  }

  // ---------------------------------------------------------------------
  // What the phases promise

  /** The pointer after `i` successive `readCommand` calls from `p`; a
      crash leaves it where it was. */
  function PosAfter(data: seq<int>, p: nat, i: nat): nat
    requires IsByteSeq(data)
    decreases i
  {
    if i == 0 then p
    else match Decode(data, p)
      case NegativeArraySize(_) => p
      case Decoded(_, q) => PosAfter(data, q, i - 1)
  }

  /** The `i`-th command read from `p`, counting from 0; after a crash
      every further read is that crash. */
  function NthDecode(data: seq<int>, p: nat, i: nat): Decoded
    requires IsByteSeq(data)
    decreases i
  {
    var d := Decode(data, p);
    if i == 0 then d
    else match d
      case NegativeArraySize(_) => d
      case Decoded(_, q) => NthDecode(data, q, i - 1)
  }

  /** The i-th event is a handler call carrying the i-th command read
      from `p`. */
  ghost predicate CarriesReads(data: seq<int>, p: nat, evs: seq<Event>)
    requires IsByteSeq(data)
  {
    forall i | 0 <= i < |evs| ::
      NthDecode(data, p, i).Decoded? && evs[i].Call? && evs[i].cmd == NthDecode(data, p, i).cmd
  }

  /** A call for the command read at `p`, followed by calls carrying the
      reads from where that command ends, carries the reads from `p`. */
  lemma CarriesReadsShift(data: seq<int>, p: nat, c: Command, q: nat, e: Event, rest: seq<Event>)
    requires IsByteSeq(data) && Decode(data, p) == Decoded(c, q)
    requires e.Call? && e.cmd == c && CarriesReads(data, q, rest)
    ensures CarriesReads(data, p, [e] + rest)
    ensures NthDecode(data, p, |rest| + 1) == NthDecode(data, q, |rest|)
    ensures PosAfter(data, p, |rest| + 1) == PosAfter(data, q, |rest|)
  {
    assert forall i | 1 <= i < |[e] + rest| :: ([e] + rest)[i] == rest[i - 1];
  }

  /** `passNoOpCommands` hands on every command it reads, in file order:
      the i-th call carries the i-th command read from `p`, and the command
      it returns, or the crash that stops it, is the read after the last
      call. */
  lemma {:induction false} PassNoOpsInOrder(data: seq<int>, p: nat)
    requires IsByteSeq(data) && p <= |data|
    ensures var r := PassNoOps(data, p);
      && CarriesReads(data, p, r.events)
      && (r.flow.Continue? ==> NthDecode(data, p, |r.events|) == Decoded(r.flow.value, r.pos))
      && (r.flow.Stop? ==>
           r.flow.outcome.Crash? && NthDecode(data, p, |r.events|) == NegativeArraySize(r.flow.outcome.loc))
    decreases |data| - p
  {
    var d := Decode(data, p);
    if d.Decoded? && IsSpecial(d.cmd.op) {
      PassNoOpsInOrder(data, d.next);
      var rest := PassNoOps(data, d.next);
      CarriesReadsShift(data, p, d.cmd, d.next, Call(Route(d.cmd.op), d.cmd), rest.events);
    }
  }

  /** `passNoOpCommands` forwards only xxx, yyy and no-op commands, each to
      its routed handler, and returns a command of any other kind; only the
      decoder's crash stops it. */
  lemma {:induction false} PassNoOpsForwardsSpecials(data: seq<int>, p: nat)
    requires IsByteSeq(data) && p <= |data|
    ensures var r := PassNoOps(data, p);
      && (forall i | 0 <= i < |r.events| :: r.events[i].Call? && IsSpecial(r.events[i].cmd.op))
      && Routed(r.events)
      && (r.flow.Stop? ==> r.flow.outcome.Crash?)
      && (r.flow.Continue? ==> !IsSpecial(r.flow.value.op))
      && (r.flow.Continue? ==> HandlerFor(r.flow.value) == Route(r.flow.value.op))
    decreases |data| - p
  {
    DecodeDispatches(data, p);
    match Decode(data, p)
    case NegativeArraySize(_) =>
    case Decoded(c, q) =>
      if IsSpecial(c.op) {
        PassNoOpsForwardsSpecials(data, q);
        var head := [Call(Route(c.op), c)];
        var rest := PassNoOps(data, q);
        RoutedAppend(head, rest.events);
        assert forall i | 1 <= i < |head + rest.events| :: (head + rest.events)[i] == rest.events[i - 1];
      }
  }

  /** `readPaintSequence` hands only paint records to the paint handler,
      starting with the one it was given; it returns a command with an
      opcode above 66, and it runs on for ever exactly when it reaches the
      end of the file with nothing but paints. */
  lemma {:induction false} PaintRunPaints(data: seq<int>, first: Command, p: nat)
    requires IsByteSeq(data) && p <= |data|
    requires first.Paint? && 0 <= first.op <= PAINT3
    ensures var r := PaintRun(data, first, p);
      && |r.events| >= 1 && r.events[0] == Call(OnPaint, first)
      && (forall i | 0 <= i < |r.events| ::
           r.events[i].Call? && r.events[i].handler == OnPaint && r.events[i].cmd.Paint?)
      && Routed(r.events)
      && (r.flow.Continue? ==> HandlerFor(r.flow.value) == Route(r.flow.value.op))
      && (r.flow.Stop? ==> r.flow.outcome.Crash? || r.flow.outcome == Diverged)
      && (r.flow == Stop(Diverged) ==> r.pos == |data|)
    decreases |data| - p
  {
    var head := [Call(OnPaint, first)];
    if p < |data| {
      DecodeDispatches(data, p);
      match Decode(data, p)
      case NegativeArraySize(_) =>
      case Decoded(c, q) =>
        if c.op <= PAINT3 {
          PaintRunPaints(data, c, q);
          var rest := PaintRun(data, c, q);
          RoutedAppend(head, rest.events);
          assert forall i | 1 <= i < |head + rest.events| :: (head + rest.events)[i] == rest.events[i - 1];
        }
    }
  }

  /** `readPaintSequence` hands on, after `first`, every command it reads
      from `p`, in file order, while their opcodes are at most 66: the
      (i+1)-th call carries the i-th command read. It returns the read
      after the last call, and it runs on for ever exactly when that read
      would start at the end of the file. */
  lemma {:induction false} PaintRunInOrder(data: seq<int>, first: Command, p: nat)
    requires IsByteSeq(data) && p <= |data|
    ensures var r := PaintRun(data, first, p);
      && |r.events| >= 1 && r.events[0] == Call(OnPaint, first)
      && CarriesReads(data, p, r.events[1..])
      && (forall i | 1 <= i < |r.events| :: r.events[i].cmd.op <= PAINT3)
      && (PosAfter(data, p, |r.events| - 1) == |data| <==> r.flow == Stop(Diverged))
      && (r.flow.Continue? ==> NthDecode(data, p, |r.events| - 1) == Decoded(r.flow.value, r.pos))
      && (r.flow.Stop? && r.flow.outcome.Crash? ==>
           NthDecode(data, p, |r.events| - 1) == NegativeArraySize(r.flow.outcome.loc))
    decreases |data| - p
  {
    if p < |data| {
      var d := Decode(data, p);
      if d.Decoded? && d.cmd.op <= PAINT3 {
        PaintRunInOrder(data, d.cmd, d.next);
        var rest := PaintRun(data, d.cmd, d.next);
        assert rest.events == [rest.events[0]] + rest.events[1..];
        CarriesReadsShift(data, p, d.cmd, d.next, rest.events[0], rest.events[1..]);
        assert PaintRun(data, first, p).events[1..] == rest.events;
      }
    }
  }

  /** The command a round of `doChar` acts on is never a paint and has
      the class its opcode routes to; the paints before it are all handed
      to the paint handler; only the end of the file, a divergent paint
      sequence or a crash stop the round here. */
  lemma CharCommandEvents(data: seq<int>, p: nat)
    requires IsByteSeq(data) && p <= |data|
    ensures var r := CharCommand(data, p);
      && Routed(r.events) && NoCharError(r.events)
      && (r.flow.Stop? ==>
           r.flow.outcome in {Aborted(FileEndedPrematurely), Diverged} || r.flow.outcome.Crash?)
      && (r.flow.Continue? ==>
           r.flow.value.op > PAINT3 && HandlerFor(r.flow.value) == Route(r.flow.value.op))
  {
    DecodeDispatches(data, p);
    match Decode(data, p)
    case NegativeArraySize(_) =>
    case Decoded(c, q) =>
      if q < |data| && c.op <= PAINT3 {
        PaintRunPaints(data, c, q);
      }
  }

  /** A round of `doChar` routes every call, ends the character exactly
      when its last event is a character error, and otherwise stops only on
      a premature end of file, a divergent paint sequence or a crash. */
  lemma CharRoundEvents(data: seq<int>, p: nat)
    requires IsByteSeq(data) && p <= |data|
    ensures var r := CharRound(data, p);
      && Routed(r.events)
      && CharErrorsFinal(r.events, EndedInChar(r.flow))
      && (r.flow.Stop? ==>
           r.flow.outcome in {Aborted(FileEndedPrematurely), Aborted(CharEndedUnexpectedly), Diverged}
           || r.flow.outcome.Crash?)
      && (r.flow.Continue? ==> |r.events| > 0 && r.events[|r.events| - 1].Call?)
      && (r.flow == Continue(true) <==> r.flow.Continue? && r.events[|r.events| - 1].cmd.Eoc?)
  {
    var run := CharCommand(data, p);
    CharCommandEvents(data, p);
    match run.flow
    case Stop(_) =>
    case Continue(d) =>
      var call := Call(Route(d.op), d);
      var tail := match ClassifyInChar(d.op)
        case Reject(msg) => [Logged(d.loc, msg)]
        case Undefined => [Logged(d.loc, UndefinedCommand(d.op)), call]
        case _ => [call];
      var r := CharRound(data, p);
      assert r.events == run.events + tail;
      assert r.events[|r.events| - 1] == tail[|tail| - 1];
      RoutedAppend(run.events, tail);
      CharErrorsAppend(run.events, tail, ClassifyInChar(d.op).Reject?);
  }

  /** `doChar` routes every call; a character error is always its last
      event and always ends it with `CharEndedUnexpectedly`; a body that
      completes ends with the call for its eoc. */
  lemma {:induction false} CharBodyEvents(data: seq<int>, p: nat)
    requires IsByteSeq(data) && p <= |data|
    ensures var r := CharBody(data, p);
      && Routed(r.events)
      && CharErrorsFinal(r.events, EndedInChar(r.flow))
      && (r.flow.Stop? ==>
           r.flow.outcome in {Aborted(FileEndedPrematurely), Aborted(CharEndedUnexpectedly), Diverged}
           || r.flow.outcome.Crash?)
      && (r.flow.Continue? ==>
           |r.events| > 0 && r.events[|r.events| - 1].Call? && r.events[|r.events| - 1].cmd.Eoc?)
    decreases |data| - p
  {
    var s := CharRound(data, p);
    CharRoundEvents(data, p);
    if s.flow == Continue(false) {
      var rest := CharBody(data, s.pos);
      CharBodyEvents(data, s.pos);
      RoutedAppend(s.events, rest.events);
      CharErrorsAppend(s.events, rest.events, EndedInChar(rest.flow));
      if |rest.events| > 0 {
        assert (s.events + rest.events)[|s.events + rest.events| - 1] == rest.events[|rest.events| - 1];
      }
    }
  }

  lemma CharacterRoundEvents(data: seq<int>, p: nat)
    requires IsByteSeq(data) && p <= |data|
    ensures var r := CharacterRound(data, p);
      && |r.events| > 0 && r.events[0] == StartSpecial(p)
      && Routed(r.events)
      && CharErrorsFinal(r.events, EndedInChar(r.flow))
      && (r.flow.Stop? ==>
           r.flow.outcome.Crash? || r.flow.outcome == Diverged ||
           (r.flow.outcome.Aborted? && (r.flow.outcome.why.NotBoc? ||
              r.flow.outcome.why in {FileEndedPrematurely, CharEndedUnexpectedly})))
  {
    var s := PassNoOps(data, p);
    PassNoOpsForwardsSpecials(data, p);
    var head := [StartSpecial(p)] + s.events;
    RoutedAppend([StartSpecial(p)], s.events);
    assert NoCharError(head);
    match s.flow
    case Stop(_) =>
    case Continue(c) =>
      if c.op == BOC || c.op == BOC1 {
        var body := CharBody(data, s.pos);
        CharBodyEvents(data, s.pos);
        RoutedAppend(head, [Call(OnBoc, c)]);
        RoutedAppend(head + [Call(OnBoc, c)], body.events);
        assert NoCharError(head + [Call(OnBoc, c)]);
        CharErrorsAppend(head + [Call(OnBoc, c)], body.events, EndedInChar(body.flow));
      }
  }

  /** `processAllCharacters` starts by reporting its pointer, routes
      every call, keeps character errors final and fatal, and returns the
      post command when nothing stopped it. */
  lemma {:induction false} CharactersEvents(data: seq<int>, p: nat)
    requires IsByteSeq(data) && p <= |data|
    ensures var r := Characters(data, p);
      && |r.events| > 0 && r.events[0] == StartSpecial(p)
      && Routed(r.events)
      && CharErrorsFinal(r.events, EndedInChar(r.flow))
      && (r.flow.Stop? ==>
           r.flow.outcome.Crash? || r.flow.outcome == Diverged ||
           (r.flow.outcome.Aborted? && (r.flow.outcome.why.NotBoc? ||
              r.flow.outcome.why in {FileEndedPrematurely, CharEndedUnexpectedly})))
    decreases |data| - p
  {
    var s := CharacterRound(data, p);
    CharacterRoundEvents(data, p);
    if s.flow == Continue(CharDone) {
      CharactersEvents(data, s.pos);
      CharactersStep(data, p, s, Characters(data, s.pos));
    }
  }

  lemma CharactersStep(data: seq<int>, p: nat, s: Step<RoundEnd>, rest: Step<Command>)
    requires IsByteSeq(data) && p <= |data|
    requires s == CharacterRound(data, p) && s.flow == Continue(CharDone)
    requires rest == Characters(data, s.pos)
    requires |s.events| > 0 && s.events[0] == StartSpecial(p)
    requires Routed(s.events) && CharErrorsFinal(s.events, false)
    requires Routed(rest.events) && CharErrorsFinal(rest.events, EndedInChar(rest.flow))
    ensures Characters(data, p) == Prepend(s.events, rest)
    ensures Routed(s.events + rest.events)
    ensures CharErrorsFinal(s.events + rest.events, EndedInChar(rest.flow))
  {
    RoutedAppend(s.events, rest.events);
    CharErrorsAppend(s.events, rest.events, EndedInChar(rest.flow));
  }

  /** The locator loop hands only character locators to their handler and
      never a no-op; the command that ends it is neither. */
  lemma {:induction false} CharLocsEvents(data: seq<int>, p: nat)
    requires IsByteSeq(data) && p <= |data|
    ensures var r := CharLocs(data, p);
      && (forall i | 0 <= i < |r.events| ::
           r.events[i].Call? && r.events[i].handler == OnCharLoc && r.events[i].cmd.CharLoc?)
      && Routed(r.events)
      && (r.flow.Stop? ==> r.flow.outcome.Crash?)
      && (r.flow.Continue? ==>
           r.flow.value.op != CHAR_LOC && r.flow.value.op != CHAR_LOC0 && r.flow.value.op != NO_OP)
    decreases |data| - p
  {
    DecodeDispatches(data, p);
    match Decode(data, p)
    case NegativeArraySize(_) =>
    case Decoded(c, q) =>
      if c.op == CHAR_LOC || c.op == CHAR_LOC0 {
        CharLocsEvents(data, q);
        var rest := CharLocs(data, q);
        var all := [Call(OnCharLoc, c)] + rest.events;
        assert CharLocs(data, p) == Step(all, rest.flow, rest.pos);
        forall i | 0 <= i < |all|
          ensures all[i].Call? && all[i].handler == OnCharLoc && all[i].cmd.CharLoc?
          ensures Route(all[i].cmd.op) == OnCharLoc && HandlerFor(all[i].cmd) == OnCharLoc
        {
          if i > 0 {
            assert all[i] == rest.events[i - 1];
          }
        }
      } else if c.op == NO_OP {
        CharLocsEvents(data, q);
      }
  }

  /** The locator calls for the first `n` commands read from `p`: one per
      character locator, in file order, and none for anything else. */
  ghost function LocatorCalls(data: seq<int>, p: nat, n: nat): seq<Event>
    requires IsByteSeq(data)
    decreases n
  {
    if n == 0 then []
    else match Decode(data, p)
      case NegativeArraySize(_) => []
      case Decoded(c, q) =>
        (if c.op == CHAR_LOC || c.op == CHAR_LOC0 then [Call(OnCharLoc, c)] else [])
        + LocatorCalls(data, q, n - 1)
  }

  /** The locator loop from `p` made `n` reads before the one that ended
      it: each a locator or a no-op, every locator called in file order;
      the read that ended it is the command returned, of neither kind, or
      the crash. */
  ghost predicate LocatorRun(data: seq<int>, p: nat, n: nat, r: Step<Command>)
    requires IsByteSeq(data)
  {
    && (forall i | 0 <= i < n ::
         NthDecode(data, p, i).Decoded? && NthDecode(data, p, i).cmd.op in {CHAR_LOC, CHAR_LOC0, NO_OP})
    && r.events == LocatorCalls(data, p, n)
    && (r.flow.Continue? ==>
         NthDecode(data, p, n) == Decoded(r.flow.value, r.pos)
         && r.flow.value.op !in {CHAR_LOC, CHAR_LOC0, NO_OP})
    && (r.flow.Stop? ==> r.flow.outcome.Crash? && NthDecode(data, p, n) == NegativeArraySize(r.flow.outcome.loc))
  }

  /** The locator loop calls the handler for every locator it reads, in
      file order, skips the no-ops, and returns the first command that is
      neither. */
  lemma {:induction false} CharLocsInOrder(data: seq<int>, p: nat)
    requires IsByteSeq(data) && p <= |data|
    ensures exists n: nat :: LocatorRun(data, p, n, CharLocs(data, p))
    decreases |data| - p
  {
    var r := CharLocs(data, p);
    match Decode(data, p)
    case NegativeArraySize(_) =>
      assert LocatorRun(data, p, 0, r);
    case Decoded(c, q) =>
      if c.op == CHAR_LOC || c.op == CHAR_LOC0 || c.op == NO_OP {
        CharLocsInOrder(data, q);
        var rest := CharLocs(data, q);
        var n: nat :| LocatorRun(data, q, n, rest);
        LocatorRunShift(data, p, c, q, n, rest);
        assert r == rest || r == Prepend([Call(OnCharLoc, c)], rest);
      } else {
        assert LocatorRun(data, p, 0, r);
      }
  }

  /** A locator or no-op read at `p`, followed by a run of `n` reads from
      where it ends, makes a run of `n + 1` reads from `p`, with a call for
      it when it is a locator. */
  lemma LocatorRunShift(data: seq<int>, p: nat, c: Command, q: nat, n: nat, rest: Step<Command>)
    requires IsByteSeq(data) && Decode(data, p) == Decoded(c, q)
    requires c.op in {CHAR_LOC, CHAR_LOC0, NO_OP} && LocatorRun(data, q, n, rest)
    ensures c.op != NO_OP ==> LocatorRun(data, p, n + 1, Prepend([Call(OnCharLoc, c)], rest))
    ensures c.op == NO_OP ==> LocatorRun(data, p, n + 1, rest)
  {
    assert forall i | 1 <= i < n + 1 :: NthDecode(data, p, i) == NthDecode(data, q, i - 1);
  }

  /** Where the pad-byte loop stops: before the end of the file only just
      after a byte other than 223, having read nothing but 223s before it;
      at the end of the file only after reading 223s up to the last byte. */
  lemma {:induction false} SigScanStops(data: seq<int>, m: int, pos: nat)
    requires pos <= |data|
    requires pos < |data| ==> 1 <= pos && m == data[pos - 1]
    ensures var r := SigScan(data, m, pos);
      && (r.1 < |data| ==>
           1 <= r.1 && data[r.1 - 1] != GF_POST_SIG &&
           forall i | pos - 1 <= i < r.1 - 1 :: data[i] == GF_POST_SIG)
      && (r.1 == |data| && pos < |data| ==>
           forall i | pos - 1 <= i < |data| - 1 :: data[i] == GF_POST_SIG)
    decreases |data| - pos
  {
    if m == GF_POST_SIG && pos < |data| {
      SigScanStops(data, data[pos], pos + 1);
    }
  }

  /** The trailer from `k` is fatal exactly when a byte other than 223
      comes before the file's last byte, and then it names the first such
      byte; otherwise the pointer ends at the end of the file and there is
      one report exactly when fewer than four bytes follow `k`. */
  lemma SignatureVerdict(data: seq<int>, k: nat, at: int)
    requires IsByteSeq(data) && k <= |data|
    ensures var r := Signature(data, k, at);
      && (r.flow.Stop? <==> exists j | k <= j < |data| - 1 :: data[j] != GF_POST_SIG)
      && (r.flow.Stop? ==> exists j | k <= j < |data| - 1 ::
           && r.flow.outcome == Aborted(BadSignature(j)) && r.pos == j + 1 && r.events == []
           && data[j] != GF_POST_SIG && (forall i | k <= i < j :: data[i] == GF_POST_SIG))
      && (r.flow.Continue? ==>
           r.events == (if |data| < k + 4 then [Logged(at, NotEnoughSignatureBytes)] else []))
  {
    SigScanStops(data, ByteAsIntAt(data, k), Advance(data, k, 1));
    var pos := SigScan(data, ByteAsIntAt(data, k), Advance(data, k, 1)).1;
    if pos < |data| {
      assert data[pos - 1] != GF_POST_SIG;
    }
  }

  /** The file's last byte never influences the trailer's verdict. */
  lemma SignatureIgnoresLastByte(data: seq<int>, k: nat, at: int, b: int)
    requires IsByteSeq(data) && 0 < |data| && k <= |data| && 0 <= b < 256
    ensures Signature(data[..|data| - 1] + [b], k, at) == Signature(data, k, at)
  {
    var other := data[..|data| - 1] + [b];
    assert IsByteSeq(other);
    assert forall j | 0 <= j < |data| - 1 :: other[j] == data[j];
    SignatureVerdict(data, k, at);
    SignatureVerdict(other, k, at);
  }

  /** No handler call carries a no-op record. */
  ghost predicate NoNoOpCall(evs: seq<Event>) {
    forall i | 0 <= i < |evs| :: evs[i].Call? ==> !evs[i].cmd.NoOp?
  }

  lemma NoNoOpCallAppend(a: seq<Event>, b: seq<Event>)
    requires NoNoOpCall(a) && NoNoOpCall(b)
    ensures NoNoOpCall(a + b)
  {
    assert forall i | |a| <= i < |a + b| :: (a + b)[i] == b[i - |a|];
  }

  /** Reports only: no handler call and none of the character errors. */
  predicate Reports(evs: seq<Event>) {
    forall i | 0 <= i < |evs| :: evs[i].Logged? && !IsCharError(evs[i])
  }

  /** After the postpost command only reports follow, and the only thing
      that can stop it is the signature trailer. */
  lemma PostPostChecksEvents(data: seq<int>, postLoc: int, c: Command, q: nat)
    requires IsByteSeq(data) && q <= |data|
    requires c.PostPost? && c.op == POST_POST
    ensures var r := PostPostChecks(data, postLoc, c, q);
      && Routed(r.events) && NoNoOpCall(r.events) && NoCharError(r.events)
      && (r.flow.Stop? ==> r.flow.outcome.Aborted? && r.flow.outcome.why.BadSignature?)
  {
    var sig := Signature(data, Advance(data, q, 1), c.loc);
    var pointer := if c.postLoc != postLoc
      then [Logged(c.loc, PostPointerMismatch(postLoc, c.postLoc))] else [];
    var id := ByteAsIntAt(data, q);
    var idError := if id != GF_ID_BYTE then [Logged(c.loc, IdByteMismatch(id))] else [];
    var call := [Call(OnPostPost, c)];
    var quiet := pointer + idError + sig.events;
    assert Reports(quiet);
    ConcatAssoc(call, pointer + idError, sig.events);
    ConcatAssoc(call, pointer, idError);
    assert PostPostChecks(data, postLoc, c, q).events == call + quiet;
    RoutedAppend(call, quiet);
    NoNoOpCallAppend(call, quiet);
    NoCharErrorAppend(call, quiet);
  }

  /** The trailer reports nothing but a short trailer. */
  lemma SignatureReports(data: seq<int>, k: nat, at: int)
    requires IsByteSeq(data) && k <= |data|
    ensures Signature(data, k, at).events in {[], [Logged(at, NotEnoughSignatureBytes)]}
  {
  }

  /** What the postpost checks report: a back pointer other than the post
      command's location, and an identification byte other than 131, each
      exactly when it is wrong; besides the postpost call, the only other
      event is the report of a short trailer. */
  lemma PostPostReports(data: seq<int>, postLoc: int, c: Command, q: nat)
    requires IsByteSeq(data) && q <= |data|
    requires c.PostPost? && c.op == POST_POST
    ensures var r := PostPostChecks(data, postLoc, c, q);
      && (Logged(c.loc, PostPointerMismatch(postLoc, c.postLoc)) in r.events <==> c.postLoc != postLoc)
      && (Logged(c.loc, IdByteMismatch(ByteAsIntAt(data, q))) in r.events <==>
           ByteAsIntAt(data, q) != GF_ID_BYTE)
      && (forall e | e in r.events && e != Call(OnPostPost, c) :: e.Logged? &&
           (e.msg.PostPointerMismatch? || e.msg.IdByteMismatch? || e.msg == NotEnoughSignatureBytes))
  {
    SignatureReports(data, Advance(data, q, 1), c.loc);
  }

  /** `processPostamble` routes every call and never hands on a no-op;
      it reports but never aborts on anything but the signature, and it
      raises no character error. */
  lemma PostambleEvents(data: seq<int>, post: Command, p: nat)
    requires IsByteSeq(data) && p <= |data|
    requires post.Post? && post.op == POST
    ensures var r := Postamble(data, post, p);
      && Routed(r.events) && NoNoOpCall(r.events) && NoCharError(r.events)
      && (r.flow.Stop? ==>
           r.flow.outcome.Crash? || r.flow.outcome.CastFailed? ||
           (r.flow.outcome.Aborted? && r.flow.outcome.why.BadSignature?))
  {
    var locs := CharLocs(data, p);
    CharLocsEvents(data, p);
    var head := [Call(OnPost, post)] + locs.events;
    forall i | 0 <= i < |head|
      ensures head[i].Call? && !head[i].cmd.NoOp? && Route(head[i].cmd.op) == head[i].handler
      ensures HandlerFor(head[i].cmd) == head[i].handler
    {
      if i > 0 {
        assert head[i] == locs.events[i - 1];
      }
    }
    assert Routed(head) && NoNoOpCall(head) && NoCharError(head);
    match locs.flow
    case Stop(_) =>
    case Continue(c) =>
      if c.op == POST_POST {
        var tail := PostPostChecks(data, post.loc, c, locs.pos);
        PostPostChecksEvents(data, post.loc, c, locs.pos);
        assert Postamble(data, post, p) == Prepend(head, tail);
        RoutedAppend(head, tail.events);
        NoNoOpCallAppend(head, tail.events);
        NoCharErrorAppend(head, tail.events);
      } else {
        var tail := [Logged(c.loc, ShouldBePostPost)];
        assert Postamble(data, post, p).events == head + tail;
        RoutedAppend(head, tail);
        NoNoOpCallAppend(head, tail);
        NoCharErrorAppend(head, tail);
      }
  }

  /** The cast in `processPostamble` fails exactly when its last event is
      the report that the terminator should be postpost, made at the
      terminator's location; a postamble that goes through has called the
      postpost handler. */
  lemma PostambleVerdict(data: seq<int>, post: Command, p: nat)
    requires IsByteSeq(data) && p <= |data|
    requires post.Post? && post.op == POST
    ensures var r := Postamble(data, post, p);
      && ((r.flow.Stop? && r.flow.outcome.CastFailed?) <==>
           r.events[|r.events| - 1].Logged? && r.events[|r.events| - 1].msg == ShouldBePostPost)
      && (r.flow.Stop? && r.flow.outcome.CastFailed? ==>
           r.events[|r.events| - 1] == Logged(r.flow.outcome.loc, ShouldBePostPost))
      && (r.flow.Continue? ==>
           exists i | 0 <= i < |r.events| :: r.events[i].Call? && r.events[i].handler == OnPostPost)
  {
    var locs := CharLocs(data, p);
    CharLocsEvents(data, p);
    var head := [Call(OnPost, post)] + locs.events;
    if |locs.events| > 0 {
      assert head[|head| - 1] == locs.events[|locs.events| - 1];
    }
    match locs.flow
    case Stop(_) =>
      assert Postamble(data, post, p).events == head;
    case Continue(c) =>
      if c.op == POST_POST {
        var tail := PostPostChecks(data, post.loc, c, locs.pos);
        PostPostReports(data, post.loc, c, locs.pos);
        assert Postamble(data, post, p) == Prepend(head, tail);
        var all := head + tail.events;
        assert all[|head|] == tail.events[0];
        assert all[|all| - 1] == tail.events[|tail.events| - 1];
        assert tail.events[|tail.events| - 1] in tail.events;
      }
  }

  /** Over a whole parse, every handler call agrees with `handleCommand`'s
      routing, and a character error is always the last event and always
      aborts the parse with "char ended unexpectedly". */
  lemma ParseEvents(data: seq<int>, p: nat)
    requires IsByteSeq(data) && p <= |data|
    ensures var r := ParseFile(data, p);
      Routed(r.events) && CharErrorsFinal(r.events, EndedInChar(r.flow))
  {
    var pre := Preamble(data, p);
    if pre.flow.Continue? {
      var chars := Characters(data, pre.pos);
      CharactersEvents(data, pre.pos);
      RoutedAppend(pre.events, chars.events);
      if chars.flow.Continue? {
        var rest := Postamble(data, chars.flow.value, chars.pos);
        PostambleEvents(data, chars.flow.value, chars.pos);
        assert ParseFile(data, p) == Prepend(pre.events + chars.events, rest);
        RoutedAppend(pre.events + chars.events, rest.events);
        NoCharErrorAppend(pre.events, chars.events);
        CharErrorsAppend(pre.events + chars.events, rest.events, false);
      } else {
        assert ParseFile(data, p).events == pre.events + chars.events;
        CharErrorsAppend(pre.events, chars.events, EndedInChar(chars.flow));
      }
    }
  }

  /** A parse that completes has read the whole file, has handed on the
      preamble first and has called the postpost handler; no phase stops
      with the outcome `Completed`. */
  lemma ParseCompletes(data: seq<int>, p: nat)
    requires IsByteSeq(data) && p <= |data|
    ensures var r := ParseFile(data, p);
      && (ParseOutcome(data, p) == Completed <==> r.flow.Continue?)
      && (ParseOutcome(data, p) == Completed ==>
           && r.pos == |data|
           && r.events[0].Call? && r.events[0].handler == OnPre
           && exists i | 0 <= i < |r.events| :: r.events[i].Call? && r.events[i].handler == OnPostPost)
  {
    var pre := Preamble(data, p);
    if pre.flow.Continue? {
      CharactersEvents(data, pre.pos);
      var chars := Characters(data, pre.pos);
      if chars.flow.Continue? {
        var post := Postamble(data, chars.flow.value, chars.pos);
        PostambleEvents(data, chars.flow.value, chars.pos);
        if post.flow.Continue? {
          PostambleVerdict(data, chars.flow.value, chars.pos);
          var front := pre.events + chars.events;
          var j :| 0 <= j < |post.events| && post.events[j].Call? && post.events[j].handler == OnPostPost;
          assert ParseFile(data, p) == Prepend(front, post);
          assert (front + post.events)[|front| + j] == post.events[j];
          assert (front + post.events)[0] == pre.events[0];
        }
      }
    }
  }

  /** The parser over one file. The callback is the `trace` of events it
      receives. Every method leaves the pointer where its function says,
      except after a crash, where nothing further happens. */
  class GFParser {
    const file: GFFile
    var trace: seq<Event>

    constructor (g: GFFile)
      ensures file == g && trace == []
    {
      file := g;
      trace := [];
    }

    ghost predicate Ready()
      reads this, file
    {
      file.Valid() && file.pos <= |file.data|
    }

    /** `parse`: the preamble, the characters and the postamble, each
        phase only when the one before went through. */
    method Parse() returns (outcome: Outcome)
      requires Ready()
      modifies this, file
      ensures trace == old(trace) + ParseFile(file.data, old(file.pos)).events
      ensures outcome == ParseOutcome(file.data, old(file.pos))
    {
      ghost var p := file.pos;
      var pre := ProcessPreamble();
      if pre.Stop? {
        return pre.outcome;
      }
      ghost var q := file.pos;
      var chars := ProcessAllCharacters();
      ghost var evs := Preamble(file.data, p).events + Characters(file.data, q).events;
      ConcatAssoc(old(trace), Preamble(file.data, p).events, Characters(file.data, q).events);
      if chars.Stop? {
        return chars.outcome;
      }
      ghost var r := file.pos;
      var post := ProcessPostamble(chars.value);
      ConcatAssoc(old(trace), evs, Postamble(file.data, chars.value, r).events);
      outcome := if post.Stop? then post.outcome else Completed;
    }

    method ProcessPreamble() returns (f: Flow<()>)
      requires Ready()
      modifies this, file
      ensures var s := Preamble(file.data, old(file.pos));
        trace == old(trace) + s.events && f == s.flow && (f.Continue? ==> Ready() && file.pos == s.pos)
    {
      var d := file.ReadCommand();
      if d.NegativeArraySize? {
        return Stop(Crash(d.loc));
      }
      var c := d.cmd;
      if c.op != PRE {
        return Stop(Aborted(NotPreamble(c.loc, c.op)));
      }
      if c.idByte != GF_ID_BYTE {
        return Stop(Aborted(BadIdentification(c.idByte)));
      }
      trace := trace + [Call(OnPre, c)];
      f := Continue(());
    }

    method PassNoOpCommands() returns (f: Flow<Command>)
      requires Ready()
      modifies this, file
      ensures var s := PassNoOps(file.data, old(file.pos));
        trace == old(trace) + s.events && f == s.flow && (f.Continue? ==> Ready() && file.pos == s.pos)
    {
      ghost var p0 := file.pos;
      ghost var done: seq<Event> := [];
      ghost var p := file.pos;
      var d := file.ReadCommand();
      while d.Decoded? && IsSpecial(d.cmd.op)
        invariant file.Valid() && p <= |file.data| && d == Decode(file.data, p)
        invariant d.Decoded? ==> file.pos == d.next
        invariant trace == old(trace) + done
        invariant PassNoOps(file.data, p0) == Prepend(done, PassNoOps(file.data, p))
        decreases |file.data| - p
      {
        var call := Call(Route(d.cmd.op), d.cmd);
        PrependAssoc(done, [call], PassNoOps(file.data, file.pos));
        ConcatAssoc(old(trace), done, [call]);
        trace := trace + [call];
        done := done + [call];
        p := file.pos;
        d := file.ReadCommand();
      }
      if d.NegativeArraySize? {
        return Stop(Crash(d.loc));
      }
      f := Continue(d.cmd);
    }

    /** The model stops where the Java loop would go on for ever: at the
        end of the file, after handing on the paint it has. */
    method ReadPaintSequence(first: Command) returns (f: Flow<Command>)
      requires Ready() && first.Paint? && 0 <= first.op <= PAINT3
      modifies this, file
      ensures var s := PaintRun(file.data, first, old(file.pos));
        trace == old(trace) + s.events && f == s.flow && (!f.Stop? || !f.outcome.Crash? ==> Ready() && file.pos == s.pos)
    {
      ghost var p0 := file.pos;
      ghost var done: seq<Event> := [];
      var c := first;
      while true
        invariant file.Valid() && file.pos <= |file.data| && c.Paint? && 0 <= c.op <= PAINT3
        invariant trace == old(trace) + done
        invariant PaintRun(file.data, first, p0) == Prepend(done, PaintRun(file.data, c, file.pos))
        decreases |file.data| - file.pos
      {
        ghost var p := file.pos;
        var call := Call(OnPaint, c);
        ConcatAssoc(old(trace), done, [call]);
        trace := trace + [call];
        if file.pos >= |file.data| {
          return Stop(Diverged);
        }
        var d := file.ReadCommand();
        if d.NegativeArraySize? {
          return Stop(Crash(d.loc));
        }
        if d.cmd.op > PAINT3 {
          return Continue(d.cmd);
        }
        PrependAssoc(done, [call], PaintRun(file.data, d.cmd, file.pos));
        done := done + [call];
        c := d.cmd;
      }
    }

    /** The read, the end-of-file check and the paint sequence that open
        a pass of `doChar`'s loop. */
    method ReadCharCommand() returns (f: Flow<Command>)
      requires Ready()
      modifies this, file
      ensures var s := CharCommand(file.data, old(file.pos));
        trace == old(trace) + s.events && f == s.flow && (!f.Stop? || !f.outcome.Crash? ==> Ready() && file.pos == s.pos)
    {
      var d := file.ReadCommand();
      if d.NegativeArraySize? {
        assert trace == old(trace) + [];
        return Stop(Crash(d.loc));
      }
      var atEnd := file.Eof();
      if atEnd {
        assert trace == old(trace) + [];
        return Stop(Aborted(FileEndedPrematurely));
      }
      if d.cmd.op <= PAINT3 {
        f := ReadPaintSequence(d.cmd);
      } else {
        assert trace == old(trace) + [];
        f := Continue(d.cmd);
      }
    }

    /** One pass of `doChar`'s loop: the command after any paint sequence
        is rejected, reported as undefined, or forwarded. */
    method CharRoundStep() returns (f: Flow<bool>)
      requires Ready()
      modifies this, file
      ensures var s := CharRound(file.data, old(file.pos));
        trace == old(trace) + s.events && f == s.flow && (!f.Stop? || !f.outcome.Crash? ==> Ready() && file.pos == s.pos)
    {
      var run := ReadCharCommand();
      if run.Stop? {
        return Stop(run.outcome);
      }
      var c := run.value;
      var o := c.op;
      var a := c.loc;
      var call := Call(Route(o), c);
      match ClassifyInChar(o)
      case Reject(msg) =>
        trace := trace + [Logged(a, msg)];
        f := Stop(Aborted(CharEndedUnexpectedly));
      case EndOfChar =>
        trace := trace + [call];
        f := Continue(true);
      case Undefined =>
        trace := trace + [Logged(a, UndefinedCommand(o)), call];
        f := Continue(false);
      case Forward =>
        trace := trace + [call];
        f := Continue(false);
    }

    /** `doChar`, with the `badGF` its failure leads to folded in. */
    method DoChar() returns (f: Flow<()>)
      requires Ready()
      modifies this, file
      ensures var s := CharBody(file.data, old(file.pos));
        trace == old(trace) + s.events && f == s.flow && (!f.Stop? || !f.outcome.Crash? ==> Ready() && file.pos == s.pos)
    {
      ghost var p0 := file.pos;
      ghost var done: seq<Event> := [];
      var foundEOC := false;
      while !foundEOC
        invariant Ready()
        invariant trace == old(trace) + done
        invariant !foundEOC ==> CharBody(file.data, p0) == Prepend(done, CharBody(file.data, file.pos))
        invariant foundEOC ==> CharBody(file.data, p0) == Step(done, Continue(()), file.pos)
        decreases !foundEOC, |file.data| - file.pos
      {
        ghost var p := file.pos;
        var r := CharRoundStep();
        ghost var round := CharRound(file.data, p);
        ConcatAssoc(old(trace), done, round.events);
        if r.Stop? {
          done := done + round.events;
          return Stop(r.outcome);
        }
        PrependAssoc(done, round.events, CharBody(file.data, file.pos));
        done := done + round.events;
        foundEOC := r.value;
      }
      f := Continue(());
    }

    /** `processAllCharacters`: character rounds until the post command. */
    method ProcessAllCharacters() returns (f: Flow<Command>)
      requires Ready()
      modifies this, file
      ensures var s := Characters(file.data, old(file.pos));
        trace == old(trace) + s.events && f == s.flow && (f.Continue? ==> Ready() && file.pos == s.pos)
    {
      ghost var p0 := file.pos;
      ghost var done: seq<Event> := [];
      var more := true;
      f := Stop(Diverged);
      while more
        invariant Ready()
        invariant trace == old(trace) + done
        invariant more ==> Characters(file.data, p0) == Prepend(done, Characters(file.data, file.pos))
        invariant !more ==> Characters(file.data, p0) == Step(done, f, file.pos)
        decreases more, |file.data| - file.pos
      {
        ghost var p := file.pos;
        var r := CharacterRoundStep();
        ghost var round := CharacterRound(file.data, p);
        ConcatAssoc(old(trace), done, round.events);
        if r.Stop? {
          done := done + round.events;
          return Stop(r.outcome);
        }
        if r.value.FoundPost? {
          f := Continue(r.value.post);
          more := false;
        } else {
          PrependAssoc(done, round.events, Characters(file.data, file.pos));
        }
        done := done + round.events;
      }
    }

    /** One round of `processAllCharacters`' loop. */
    method CharacterRoundStep() returns (f: Flow<RoundEnd>)
      requires Ready()
      modifies this, file
      ensures var s := CharacterRound(file.data, old(file.pos));
        trace == old(trace) + s.events && f == s.flow && (f.Continue? ==> Ready() && file.pos == s.pos)
    {
      var head := [StartSpecial(file.pos)];
      trace := trace + head;
      ghost var p := file.pos;
      var s := PassNoOpCommands();
      ghost var passed := PassNoOps(file.data, p);
      ConcatAssoc(old(trace), head, passed.events);
      if s.Stop? {
        return Stop(s.outcome);
      }
      var c := s.value;
      if c.op == POST {
        return Continue(FoundPost(c));
      }
      if c.op != BOC && c.op != BOC1 {
        return Stop(Aborted(NotBoc(c.loc, c.op)));
      }
      trace := trace + [Call(OnBoc, c)];
      ghost var q := file.pos;
      var ok := DoChar();
      ghost var body := CharBody(file.data, q);
      ConcatAssoc(old(trace), head + passed.events, [Call(OnBoc, c)]);
      ConcatAssoc(old(trace), head + passed.events + [Call(OnBoc, c)], body.events);
      if ok.Stop? {
        return Stop(ok.outcome);
      }
      f := Continue(CharDone);
    }

    method ProcessPostamble(post: Command) returns (f: Flow<()>)
      requires Ready() && post.Post? && post.op == POST
      modifies this, file
      ensures var s := Postamble(file.data, post, old(file.pos));
        trace == old(trace) + s.events && f == s.flow
    {
      var head := [Call(OnPost, post)];
      trace := trace + head;
      ghost var p := file.pos;
      var locs := PassCharLocs();
      ghost var passed := head + CharLocs(file.data, p).events;
      ConcatAssoc(old(trace), head, CharLocs(file.data, p).events);
      if locs.Stop? {
        return Stop(locs.outcome);
      }
      var c := locs.value;
      if c.op != POST_POST {
        trace := trace + [Logged(c.loc, ShouldBePostPost)];
        ConcatAssoc(old(trace), passed, [Logged(c.loc, ShouldBePostPost)]);
        return Stop(CastFailed(c.loc));
      }
      ghost var q := file.pos;
      f := CheckPostPost(post.loc, c);
      ConcatAssoc(old(trace), passed, PostPostChecks(file.data, post.loc, c, q).events);
    }

    /** The locator loop of `processPostamble` (module 65 of gftype). */
    method PassCharLocs() returns (f: Flow<Command>)
      requires Ready()
      modifies this, file
      ensures var s := CharLocs(file.data, old(file.pos));
        trace == old(trace) + s.events && f == s.flow && (f.Continue? ==> Ready() && file.pos == s.pos)
    {
      ghost var p0 := file.pos;
      ghost var done: seq<Event> := [];
      ghost var p := file.pos;
      var d := file.ReadCommand();
      while d.Decoded? && (d.cmd.op == CHAR_LOC || d.cmd.op == CHAR_LOC0 || d.cmd.op == NO_OP)
        invariant file.Valid() && p <= |file.data| && d == Decode(file.data, p)
        invariant d.Decoded? ==> file.pos == d.next
        invariant trace == old(trace) + done
        invariant CharLocs(file.data, p0) == Prepend(done, CharLocs(file.data, p))
        decreases |file.data| - p
      {
        if d.cmd.op != NO_OP {
          var call := Call(OnCharLoc, d.cmd);
          PrependAssoc(done, [call], CharLocs(file.data, file.pos));
          ConcatAssoc(old(trace), done, [call]);
          trace := trace + [call];
          done := done + [call];
        }
        p := file.pos;
        d := file.ReadCommand();
      }
      if d.NegativeArraySize? {
        return Stop(Crash(d.loc));
      }
      f := Continue(d.cmd);
    }

    /** Module 64 of gftype: the back pointer and the identification byte
        are checked and only reported; then the signature trailer. */
    method CheckPostPost(postLoc: int, c: Command) returns (f: Flow<()>)
      requires Ready() && c.PostPost? && c.op == POST_POST
      modifies this, file
      ensures var s := PostPostChecks(file.data, postLoc, c, old(file.pos));
        trace == old(trace) + s.events && f == s.flow && file.pos == s.pos
    {
      ghost var q := file.pos;
      var head := [Call(OnPostPost, c)];
      if c.postLoc != postLoc {
        head := head + [Logged(c.loc, PostPointerMismatch(postLoc, c.postLoc))];
      }
      var id := file.ReadByteAsInt();
      if id != GF_ID_BYTE {
        head := head + [Logged(c.loc, IdByteMismatch(id))];
      }
      trace := trace + head;
      ghost var t := trace;
      f := CheckSignature(c.loc);
      assert trace == old(trace) + (head + Signature(file.data, Advance(file.data, q, 1), c.loc).events);
    }

    /** The signature trailer, from the pointer just after the
        identification byte; `at` locates its report. */
    method CheckSignature(at: int) returns (f: Flow<()>)
      requires Ready()
      modifies this, file
      ensures var s := Signature(file.data, old(file.pos), at);
        trace == old(trace) + s.events && f == s.flow && file.pos == s.pos
    {
      var k := file.pos;
      var m := file.ReadByteAsInt();
      ghost var scan := SigScan(file.data, m, file.pos);
      var atEnd := file.Eof();
      while m == GF_POST_SIG && !atEnd
        invariant file.Valid() && file.pos <= |file.data| && atEnd == (file.pos >= |file.data|)
        invariant file.pos < |file.data| ==> 1 <= file.pos && m == file.data[file.pos - 1]
        invariant SigScan(file.data, m, file.pos) == scan
        invariant trace == old(trace)
        decreases |file.data| - file.pos
      {
        m := file.ReadByteAsInt();
        atEnd := file.Eof();
      }
      assert scan == (m, file.pos);
      if !atEnd {
        assert trace == old(trace) + [];
        return Stop(Aborted(BadSignature(file.pos - 1)));
      }
      var report := if file.pos < k + 4 then [Logged(at, NotEnoughSignatureBytes)] else [];
      trace := trace + report;
      f := Continue(());
    }
  }
}
