/** Turning parser markers into protocol diagnostics: the `SEV_MAP` lookup with its
    Error default and the one-diagnostic-per-marker loop of `doValidate`. */
module Markers {
  import opened Facade
  import opened Editor

  /** `SEV_MAP`: the severities the parser reports by name. */
  const SEV_MAP: map<string, Severity> :=
    map["info" := Information, "warning" := Warning, "error" := Error]

  /** `SEV_MAP[name] ?? DiagnosticSeverity.Error`: a name the table does not know is an Error. */
  function SeverityOf(name: string): (sev: Severity)
    ensures sev == Information <==> name == "info"
    ensures sev == Warning <==> name == "warning"
    ensures sev == Error <==> name != "info" && name != "warning"
    ensures sev != Hint
  {
    if name in SEV_MAP then SEV_MAP[name] else Error
  }

  /** The diagnostic pushed for one marker: its span converted to positions of `text`. */
  function ToDiagnostic(text: string, positionAt: PositionAt, m: Marker): (d: Diagnostic)
  {
    Diagnostic(
      m.message,
      Range(positionAt(text, m.offset), positionAt(text, m.offset + m.length)),
      SeverityOf(m.severity))
  }

  /** The list published for a successful parse: markers mapped one by one, in order. */
  function Diagnostics(text: string, positionAt: PositionAt, markers: seq<Marker>): (ds: seq<Diagnostic>)
    ensures |ds| == |markers|
    ensures forall i | 0 <= i < |markers| :: ds[i] == ToDiagnostic(text, positionAt, markers[i])
  {
    if markers == [] then []
    else [ToDiagnostic(text, positionAt, markers[0])] + Diagnostics(text, positionAt, markers[1..])
  }

  /** What one published diagnostic says about its marker: the range runs from the
      position of the marker's offset to the position of its end, the message is the
      marker's, and the severity follows `SEV_MAP` with Error for anything else. */
  lemma DiagnosticOfMarker(text: string, positionAt: PositionAt, markers: seq<Marker>, i: nat)
    requires i < |markers|
    ensures var d := Diagnostics(text, positionAt, markers)[i];
      && d.range.start == positionAt(text, markers[i].offset)
      && d.range.end == positionAt(text, markers[i].offset + markers[i].length)
      && d.message == markers[i].message
      && (markers[i].severity in SEV_MAP ==> d.severity == SEV_MAP[markers[i].severity])
      && (markers[i].severity !in SEV_MAP ==> d.severity == Error)
  {
  }

  /** The `forEach`/`push` loop of `doValidate`. */
  method CollectDiagnostics(text: string, positionAt: PositionAt, markers: seq<Marker>)
    returns (diagnostics: seq<Diagnostic>)
    ensures diagnostics == Diagnostics(text, positionAt, markers)
  {
    diagnostics := [];
    for i := 0 to |markers|
      invariant |diagnostics| == i
      invariant forall k | 0 <= k < i :: diagnostics[k] == ToDiagnostic(text, positionAt, markers[k])
    {
      diagnostics := diagnostics + [ToDiagnostic(text, positionAt, markers[i])];
    }
  }
}
