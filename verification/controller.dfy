/**
  The move-input controller of the chess plugin: the board's input handler,
  the promotion dialog's callback and the random engine reply. Chess rules
  stay with the external rules engine, which appears here only as an oracle.
*/
module MoveInput {
  import opened Wrappers
  import opened GameStatus

  /** A square in algebraic notation, such as "e7". */
  type Square = string

  /** A move as the rules engine lists it and accepts it. */
  datatype Move = Move(from: Square, to: Square, promotion: Option<char>)

  /**
    The rules engine, seen only through the three questions the plugin asks:
    the legal moves of the side to move, the position after a move (`None`
    where the engine throws because the move is illegal), and the flags that
    describe the position.
  */
  datatype Rules<!Pos> = Rules(
    moves: Pos -> seq<Move>,
    play: (Pos, Move) -> Option<Pos>,
    flags: Pos -> Flags)

  /** The legal moves that start on `sq`: what the engine lists when asked for one square. */
  function MovesFrom(ms: seq<Move>, sq: Square): (r: seq<Move>)
    ensures |r| <= |ms|
    ensures forall m :: m in r <==> m in ms && m.from == sq
  {
    if ms == [] then []
    else (if ms[0].from == sq then [ms[0]] else []) + MovesFrom(ms[1..], sq)
  }

  /** A move that ends on `to` and carries a promotion piece. */
  predicate PromotesOn(m: Move, to: Square) {
    m.promotion.Some? && m.to == to
  }

  predicate HasPromotionOn(ms: seq<Move>, to: Square) {
    exists j :: 0 <= j < |ms| && PromotesOn(ms[j], to)
  }

  /** The search of the catch block: is any listed move a promotion onto `to`? */
  method FindPromotion(ms: seq<Move>, to: Square) returns (found: bool)
    ensures found <==> HasPromotionOn(ms, to)
  {
    var k := 0;
    while k < |ms|
      invariant 0 <= k <= |ms|
      invariant forall j :: 0 <= j < k ==> !PromotesOn(ms[j], to)
    {
      if ms[k].promotion.Some? && ms[k].to == to {
        return true;
      }
      k := k + 1;
    }
    return false;
  }

  /** What a move request ends in. */
  datatype Outcome<Pos> = Applied(next: Pos) | PromotionRequired | Rejected

  /**
    A `validateMoveInput` request from `from` to `to`: applied when the engine
    accepts it; otherwise a promotion question when some legal move from `from`
    promotes on `to`; otherwise rejected.
  */
  function Attempt<Pos>(rules: Rules<Pos>, pos: Pos, from: Square, to: Square, promotion: Option<char>)
    : (o: Outcome<Pos>)
    ensures o.Applied? <==> rules.play(pos, Move(from, to, promotion)).Some?
    ensures o.Applied? ==> rules.play(pos, Move(from, to, promotion)) == Some(o.next)
    ensures o.PromotionRequired? <==>
              rules.play(pos, Move(from, to, promotion)).None?
              && exists m :: m in rules.moves(pos) && m.from == from && PromotesOn(m, to)
  {
    var ms := MovesFrom(rules.moves(pos), from);
    match rules.play(pos, Move(from, to, promotion))
    case Some(p) => Applied(p)
    case None =>
      if HasPromotionOn(ms, to) then PromotionRequired
      else
        assert forall m :: m in rules.moves(pos) && m.from == from ==> m in ms;
        Rejected
  }

  /** The events the board sends to the input handler. */
  datatype InputEvent =
    | MovingOverSquare(square: Square)
    | MoveInputStarted(squareFrom: Square)
    | ValidateMoveInput(squareFrom: Square, squareTo: Square, promotion: Option<char>)
    | MoveInputCanceled
    | MoveInputFinished(legalMove: bool)

  /** A piece code of the promotion dialog, such as "wq": colour, then kind. */
  datatype Piece = Piece(color: char, kind: char)

  datatype DialogResult = PieceSelected(piece: Piece) | DialogCanceled

  /** The move the dialog's callback plays for a selected piece. */
  function PromotionMove(from: Square, to: Square, piece: Piece): (m: Move) {
    Move(from, to, Some(piece.kind))
  }

  /** The engine's reply for choice `i`: the chosen move's squares, without its promotion piece. */
  function Reply(ms: seq<Move>, i: nat): (r: Option<Move>)
    requires ms != [] ==> i < |ms|
    ensures r.None? <==> ms == []
    ensures r.Some? ==> r.value.from == ms[i].from && r.value.to == ms[i].to && r.value.promotion.None?
  {
    if ms == [] then None else Some(Move(ms[i].from, ms[i].to, None))
  }

  /** The squares a pending promotion dialog was opened for. */
  datatype Pending = Pending(from: Square, to: Square)

  /**
    One board with its game. `position` is the rules engine's game; the other
    fields are what the handler and its callbacks leave behind: whether the
    board accepts input, the legal-move markers shown, the open promotion
    dialog, the human moves whose board animation has not yet settled, the
    engine replies waiting on their timer, and the status last written.
  */
  class Controller<Pos> {
    const rules: Rules<Pos>
    var position: Pos
    var inputEnabled: bool
    var markers: seq<Move>
    var dialog: Option<Pending>
    var settling: nat
    var timers: seq<Move>
    var status: Status

    /** A fresh game: the status is written once and the board accepts input for white. */
    constructor (rules: Rules<Pos>, start: Pos)
      ensures this.rules == rules && position == start
      ensures status == Classify(rules.flags(start))
      ensures inputEnabled && markers == [] && dialog == None && settling == 0 && timers == []
    {
      this.rules := rules;
      position := start;
      status := Classify(rules.flags(start));
      inputEnabled := true;
      markers := [];
      dialog := None;
      settling := 0;
      timers := [];
    }

    /**
      The input handler, one event at a time. The board calls it only while
      move input is enabled: `disableMoveInput` unregisters it and
      `enableMoveInput` registers it again.
    */
    method HandleInput(ev: InputEvent) returns (r: Option<bool>)
      requires inputEnabled
      modifies this
      ensures ev.MovingOverSquare? ==> r == None && unchanged(this)
      ensures ev.MoveInputStarted? ==>
                r == Some(|MovesFrom(rules.moves(position), ev.squareFrom)| > 0)
                && markers == MovesFrom(rules.moves(position), ev.squareFrom)
                && position == old(position) && inputEnabled == old(inputEnabled)
                && dialog == old(dialog) && settling == old(settling)
                && timers == old(timers) && status == old(status)
      ensures ev.ValidateMoveInput? ==>
                var o := Attempt(rules, old(position), ev.squareFrom, ev.squareTo, ev.promotion);
                markers == []
                && inputEnabled == old(inputEnabled) && timers == old(timers) && status == old(status)
                && (o.Applied? ==>
                      r == None && position == o.next && settling == old(settling) + 1 && dialog == old(dialog))
                && (o.PromotionRequired? ==>
                      r == Some(true) && position == old(position) && settling == old(settling)
                      && dialog == Some(Pending(ev.squareFrom, ev.squareTo)))
                && (o.Rejected? ==>
                      r == None && position == old(position) && settling == old(settling) && dialog == old(dialog))
      ensures ev.MoveInputCanceled? ==>
                r == None && markers == []
                && position == old(position) && inputEnabled == old(inputEnabled)
                && dialog == old(dialog) && settling == old(settling)
                && timers == old(timers) && status == old(status)
      ensures ev.MoveInputFinished? ==>
                r == None && inputEnabled == !ev.legalMove
                && markers == old(markers) && position == old(position)
                && dialog == old(dialog) && settling == old(settling)
                && timers == old(timers) && status == old(status)
    {
      if ev.MovingOverSquare? {
        return None;
      }
      if !ev.MoveInputFinished? {
        markers := [];
      }
      match ev
      case MoveInputStarted(from) =>
        var ms := MovesFrom(rules.moves(position), from);
        markers := ms;
        r := Some(|ms| > 0);
      case ValidateMoveInput(from, to, promotion) =>
        match rules.play(position, Move(from, to, promotion)) {
          case Some(next) =>
            position := next;
            settling := settling + 1;
          case None =>
            var found := FindPromotion(MovesFrom(rules.moves(position), from), to);
            if found {
              dialog := Some(Pending(from, to));
              return Some(true);
            }
        }
        r := None;
      case MoveInputCanceled =>
        r := None;
      case MoveInputFinished(legalMove) =>
        if legalMove {
          inputEnabled := false;
        }
        r := None;
      case MovingOverSquare(_) =>
        r := None;
    }

    /**
      The engine reply: the status is recomputed for the current position at
      once, and the chosen move (choice `i` among the legal moves) is queued on
      a timer; with no legal move nothing is queued.
    */
    method MakeEngineMove(i: nat)
      requires rules.moves(position) != [] ==> i < |rules.moves(position)|
      modifies this
      ensures position == old(position) && inputEnabled == old(inputEnabled) && markers == old(markers)
      ensures status == Classify(rules.flags(position))
      ensures var reply := Reply(rules.moves(position), i);
              timers == old(timers) + (if reply.Some? then [reply.value] else [])
      ensures dialog == old(dialog) && settling == old(settling)
    {
      var ms := rules.moves(position);
      if |ms| > 0 {
        timers := timers + [Move(ms[i].from, ms[i].to, None)];
      }
      status := Classify(rules.flags(position));
    }

    /** The board has finished showing a human move: the engine replies. */
    method BoardSettled(i: nat)
      requires settling > 0
      requires rules.moves(position) != [] ==> i < |rules.moves(position)|
      modifies this
      ensures settling == old(settling) - 1
      ensures position == old(position) && inputEnabled == old(inputEnabled) && markers == old(markers)
      ensures status == Classify(rules.flags(position))
      ensures var reply := Reply(rules.moves(position), i);
              timers == old(timers) + (if reply.Some? then [reply.value] else [])
      ensures dialog == old(dialog)
    {
      settling := settling - 1;
      MakeEngineMove(i);
    }

    /**
      The oldest reply timer fires: its move is played if the engine accepts
      it, and nothing happens otherwise. The status is not written again.
    */
    method ReplyTimerFired()
      requires timers != []
      modifies this
      ensures timers == old(timers)[1..]
      ensures position == (match rules.play(old(position), old(timers)[0])
                           case Some(p) => p
                           case None => old(position))
      ensures status == old(status) && inputEnabled == old(inputEnabled) && markers == old(markers)
      ensures dialog == old(dialog) && settling == old(settling)
    {
      var m := timers[0];
      timers := timers[1..];
      match rules.play(position, m)
      case Some(p) =>
        position := p;
      case None =>
    }

    /**
      The promotion dialog's callback. A selected piece plays exactly the
      pending move with that piece and makes the engine reply (choice `i`);
      if the engine refuses the move, the callback stops there. Cancelling
      leaves the game as it was and gives the board back to white.
    */
    method PromotionDialogClosed(res: DialogResult, i: nat)
      requires dialog.Some?
      requires res.PieceSelected? ==>
                 match rules.play(position, PromotionMove(dialog.value.from, dialog.value.to, res.piece))
                 case Some(p) => rules.moves(p) != [] ==> i < |rules.moves(p)|
                 case None => true
      modifies this
      ensures dialog == None && markers == old(markers) && settling == old(settling)
      ensures res.DialogCanceled? ==>
                position == old(position) && inputEnabled && timers == old(timers) && status == old(status)
      ensures res.PieceSelected? ==>
                var m := PromotionMove(old(dialog).value.from, old(dialog).value.to, res.piece);
                inputEnabled == old(inputEnabled)
                && match rules.play(old(position), m)
                   case Some(p) =>
                     position == p && status == Classify(rules.flags(p))
                     && var reply := Reply(rules.moves(p), i);
                        timers == old(timers) + (if reply.Some? then [reply.value] else [])
                   case None =>
                     position == old(position) && timers == old(timers) && status == old(status)
    {
      var pending := dialog.value;
      dialog := None;
      match res
      case PieceSelected(piece) =>
        match rules.play(position, PromotionMove(pending.from, pending.to, piece)) {
          case Some(p) =>
            position := p;
            MakeEngineMove(i);
          case None =>
        }
      case DialogCanceled =>
        inputEnabled := true;
    }
  }
}
