/**
  The status line of the chess plugin: the first matching branch of an
  if/else cascade over the rules engine's flags and the side to move.
*/
module GameStatus {

  /** The side to move, as the rules engine reports it (`'w'` or `'b'`). */
  datatype Color = White | Black

  /** What the rules engine reports about the current position. */
  datatype Flags = Flags(
    checkmate: bool,
    stalemate: bool,
    threefoldRepetition: bool,
    insufficientMaterial: bool,
    draw: bool,
    turn: Color)

  /** The eight outcomes of the cascade. */
  datatype Status =
    | WhiteCheckmated
    | BlackCheckmated
    | WhiteStalemated
    | BlackStalemated
    | ThreefoldRepetition
    | InsufficientMaterial
    | FiftyMoveRule
    | Ongoing

  /** The cascade of `updateStatus`: the first condition that holds decides. */
  function Classify(f: Flags): (st: Status)
    ensures st == WhiteCheckmated <==> f.checkmate && f.turn == White
    ensures st == BlackCheckmated <==> f.checkmate && f.turn == Black
    ensures st == WhiteStalemated <==> !f.checkmate && f.stalemate && f.turn == White
    ensures st == BlackStalemated <==> !f.checkmate && f.stalemate && f.turn == Black
    ensures st == ThreefoldRepetition <==> !f.checkmate && !f.stalemate && f.threefoldRepetition
    ensures st == InsufficientMaterial <==>
              !f.checkmate && !f.stalemate && !f.threefoldRepetition && f.insufficientMaterial
    ensures st == FiftyMoveRule <==>
              !f.checkmate && !f.stalemate && !f.threefoldRepetition && !f.insufficientMaterial && f.draw
    ensures st == Ongoing <==>
              !f.checkmate && !f.stalemate && !f.threefoldRepetition && !f.insufficientMaterial && !f.draw
  {
    // The engine reports only two sides, so the two checkmate (and the two
    // stalemate) tests together cover every mate (every stalemate).
    assert f.turn == White || f.turn == Black;
    if f.checkmate && f.turn == White then WhiteCheckmated
    else if f.checkmate && f.turn == Black then BlackCheckmated
    else if f.stalemate && f.turn == White then WhiteStalemated
    else if f.stalemate && f.turn == Black then BlackStalemated
    else if f.threefoldRepetition then ThreefoldRepetition
    else if f.insufficientMaterial then InsufficientMaterial
    else if f.draw then FiftyMoveRule
    else Ongoing
  }

  /** The text written into the status paragraph for each outcome. */
  function Message(st: Status): (msg: string) {
    match st
    case WhiteCheckmated => "Game over: white is in checkmate. Black wins!"
    case BlackCheckmated => "Game over: black is in checkmate. White wins!"
    case WhiteStalemated => "Game is drawn. White is stalemated."
    case BlackStalemated => "Game is drawn. Black is stalemated."
    case ThreefoldRepetition => "Game is drawn by threefold repetition rule."
    case InsufficientMaterial => "Game is drawn by insufficient material."
    case FiftyMoveRule => "Game is drawn by fifty-move rule."
    case Ongoing => "Game is ongoing."
  }

  /** The message `updateStatus` shows for the given flags. */
  function StatusText(f: Flags): (msg: string)
    ensures f.checkmate ==>
              msg == (if f.turn == White then "Game over: white is in checkmate. Black wins!"
                      else "Game over: black is in checkmate. White wins!")
    ensures !f.checkmate && f.stalemate ==>
              msg == (if f.turn == White then "Game is drawn. White is stalemated."
                      else "Game is drawn. Black is stalemated.")
    ensures !f.checkmate && !f.stalemate && f.threefoldRepetition ==>
              msg == "Game is drawn by threefold repetition rule."
    ensures !f.checkmate && !f.stalemate && !f.threefoldRepetition && f.insufficientMaterial ==>
              msg == "Game is drawn by insufficient material."
    ensures !f.checkmate && !f.stalemate && !f.threefoldRepetition && !f.insufficientMaterial && f.draw ==>
              msg == "Game is drawn by fifty-move rule."
    ensures !(f.checkmate || f.stalemate || f.threefoldRepetition || f.insufficientMaterial || f.draw) ==>
              msg == "Game is ongoing."
  {
    Message(Classify(f))
  }

  /** The eight texts are pairwise distinct, so the text names the outcome. */
  lemma MessageInjective(a: Status, b: Status)
    ensures Message(a) == Message(b) ==> a == b
  {
  }
}
