/** The repository carries the simulation twice. Their turn rules are written
    differently (the scene tests vector components, the model lists the four
    reversals) but agree on the four directions the user interface can send.
 */
module Variants {
  import Board
  import Scene
  import Model

  /** The model's head movements are the scene's four button vectors. */
  lemma DeltasAreSceneVectors(d: Model.Direction)
    ensures Scene.IsUnit(Model.Delta(d))
    ensures Model.Delta(d) == match d
      case Up => Scene.Up
      case Down => Scene.Down
      case Left => Scene.Left
      case Right => Scene.Right
  {
  }

  /** Turning in the scene and turning in the model give the same direction. */
  lemma TurnRulesAgree(current: Model.Direction, requested: Model.Direction)
    ensures Scene.Turned(Model.Delta(current), Model.Delta(requested)) == Model.Delta(Model.Turned(current, requested))
  {
  }
}
