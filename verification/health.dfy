/**
 The health endpoint's status rule: the server is healthy when all four optional
 components were loaded, and degraded, with a warning, otherwise.
 */
module Health {
  import opened Wrappers

  /** Whether each optional component is available (`x is not None`). */
  datatype Components = Components(
    analysisServer: bool,
    intelligenceCoordinator: bool,
    graphragIntegrator: bool,
    ideAssistant: bool)

  /** The health response, less its timestamp. `warnings` is `None` when the
      response carries no `warnings` key. */
  datatype HealthReport = HealthReport(
    status: string,
    version: string,
    components: Components,
    warnings: Option<seq<string>>)

  const Healthy: string := "healthy"
  const Degraded: string := "degraded"
  const Version: string := "1.0.0"
  const MissingComponentsWarning: string := "Some components not available"

  /** The component flags in the order the response lists them. */
  function Flags(c: Components): (flags: seq<bool>)
    ensures |flags| == 4
  {
    [c.analysisServer, c.intelligenceCoordinator, c.graphragIntegrator, c.ideAssistant]
  }

  /** Python's `all(...)` over a sequence of booleans. */
  function All(flags: seq<bool>): (r: bool)
    ensures r <==> forall i :: 0 <= i < |flags| ==> flags[i]
    decreases |flags|
  {
    if |flags| == 0 then true else flags[0] && All(flags[1..])
  }

  /** The health response for a given set of available components. */
  function HealthCheck(c: Components): (h: HealthReport)
    ensures h.version == Version && h.components == c
    ensures h.status == Healthy && h.warnings == None <==>
              c.analysisServer && c.intelligenceCoordinator && c.graphragIntegrator && c.ideAssistant
    ensures !(c.analysisServer && c.intelligenceCoordinator && c.graphragIntegrator && c.ideAssistant) ==>
              h.status == Degraded && h.warnings == Some([MissingComponentsWarning])
  {
    var flags := Flags(c);
    assert flags[0] == c.analysisServer && flags[1] == c.intelligenceCoordinator;
    assert flags[2] == c.graphragIntegrator && flags[3] == c.ideAssistant;
    var h := HealthReport(Healthy, Version, c, None);
    if All(flags) then h
    else h.(status := Degraded, warnings := Some([MissingComponentsWarning]))
  }
}
