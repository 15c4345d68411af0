/** The status-to-colour table the detail panel's status badge is painted from. */
module ProjectUtils {

  datatype ColorMode = Light | Dark

  /** A badge's background token and text colour. */
  datatype StatusColors = StatusColors(bg: string, color: string)

  /** Colours for a status string in a colour mode; any status the table does not name gets grey. */
  function GetStatusColors(status: string, mode: ColorMode): (r: StatusColors)
    ensures r.color == "white"
    ensures r.bg == "secondaryGreen.solid" <==> status == "completed"
    ensures r.bg == "accent.solid" <==> status == "in-progress"
    ensures r.bg == "gray.400" <==> status == "planning" && mode == Dark
    ensures r.bg in {"secondaryGreen.solid", "accent.solid", "gray.500", "gray.400"}
  {
    match status
    case "completed" =>
      StatusColors(if mode == Light then "secondaryGreen.solid" else "secondaryGreen.solid", "white")
    case "in-progress" =>
      StatusColors(if mode == Light then "accent.solid" else "accent.solid", "white")
    case "planning" =>
      StatusColors(if mode == Light then "gray.500" else "gray.400", "white")
    case _ =>
      StatusColors("gray.500", "white")
  }

  /** The colour mode changes the badge only for a project in planning. */
  lemma ModeMattersOnlyForPlanning(status: string)
    ensures GetStatusColors(status, Light) != GetStatusColors(status, Dark) <==> status == "planning"
  {
  }

  /** In light mode a status the table does not name looks exactly like one in planning. */
  lemma UnknownStatusLooksLikePlanning(status: string, mode: ColorMode)
    requires status !in {"completed", "in-progress", "planning"}
    ensures GetStatusColors(status, mode) == GetStatusColors("planning", Light)
  {
  }
}
