/** Static configuration used by the dialog registry (src/utils/Constants.ts). */
module Constants {
  /** Vertical distance between a dialog's bottom edge and the next cascaded dialog. */
  const GAP: int := 10

  /** Position of the first dialog of an empty registry. */
  const DEFAULT_X: int := 0
  const DEFAULT_Y: int := 10
}
