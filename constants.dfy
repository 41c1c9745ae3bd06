/** Coordinate names and depth limits shared by the modelled code. */
module Constants {
  /** Coordinate names of the model output. */
  const Y_COORD: string := "YC"
  const X_COORD: string := "XC"
  const T_COORD: string := "time"
  /** Coordinate created for the pairwise I-metric. */
  const P_COORD: string := "pair"
  /** Default isobath depth in metres. */
  const MAX_DEPTH: int := 2000
}
