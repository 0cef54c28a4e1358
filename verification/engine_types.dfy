/** The records the engine wrapper produces (types/Engine.ts). */
module EngineTypes {
  import opened Wrappers
  import opened Text

  /**
   * An engine score. `kind` is the score type as text: the engine parser only ever writes
   * "cp" or "mate", but the classifier accepts any tag. `value` is what `parseInt` made of
   * the score digits, so it may be `NaN`.
   */
  datatype Evaluation = Evaluation(kind: string, value: ParsedInt)

  /**
   * One ranked line of the engine's answer: `id` is the principal-variation index
   * (`multipv`), `moveUCI` the first move of the variation, `moveSAN` characters 2..4 of
   * it, and `promotion` the piece letter taken from the `bestmove` message.
   */
  datatype EngineLine = EngineLine(
    id: int,
    depth: int,
    evaluation: Evaluation,
    moveUCI: string,
    moveSAN: string,
    promotion: Option<string>)
}
