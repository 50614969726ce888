/** Error values for the guards that throw in the engine, and the usual
    Result/Option wrappers in place of exceptions and null. */
module Errors {

  /** One constructor per guard that throws. */
  datatype Error =
    | BadDimensions        // BoardModel constructor: width or height not positive
    | BadMineCount         // BoardModel.setMines: negative or more than the board holds
    | NotAFunction         // Event.attach: the listener is not callable
    | MissingCollaborator  // Board constructor: model or view absent
    | NegativeMines        // Board.refresh: negative mine count
    | UnknownLevel         // Game.prepareBoard: no preset with that name
    | MissingElement       // Game.prepareBoard, BoardView: a page element it needs is absent

  datatype Result<+T> = Ok(value: T) | Err(error: Error)

  datatype Option<+T> = None | Some(value: T)
}
