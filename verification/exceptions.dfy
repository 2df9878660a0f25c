/** The project's exception hierarchy: every exception carries a message and an error code. */
module Exceptions {
  import opened Wrappers
  import opened Strings

  /** Which constructor built the exception, with the arguments it keeps as attributes. */
  datatype Kind =
    | Generic
    | InvalidSbom(missingField: Option<string>)
    | Analysis(phase: string, cveId: Option<string>)

  datatype HdfmException = HdfmException(kind: Kind, message: string, errorCode: string)

  const GenericCode := "HDFM-GENERIC"
  const SbomCode := "HDFM-SBOM-001"
  const AnalysisCode := "HDFM-MATH-ERR"
  const SbomPrefix := "SBOM validation failed: "

  /** The base exception; the error code defaults to the generic one. */
  function NewHdfmException(message: string, errorCode: string := GenericCode): (e: HdfmException)
    ensures e.message == message && e.errorCode == errorCode
  {
    HdfmException(Generic, message, errorCode)
  }

  /** `str(e)`: the code in brackets, a space, then the message. */
  function Render(e: HdfmException): (s: string)
    ensures |s| == |e.errorCode| + 3 + |e.message|
    ensures s[1..1 + |e.errorCode|] == e.errorCode
    ensures s[|e.errorCode| + 3..] == e.message
  {
    "[" + e.errorCode + "] " + e.message
  }

  /**
   * A rejected SBOM. A truthy `missingField` names the field in the message; otherwise the
   * message carries `reason`. The code is always the SBOM code.
   */
  function NewInvalidSbomException(missingField: Option<string> := None, reason: string := "Format not recognized"): (e: HdfmException)
    ensures e.errorCode == SbomCode && e.kind == InvalidSbom(missingField)
    ensures StartsWith(e.message, SbomPrefix)
    ensures TruthyOpt(missingField) ==> e.message == SbomPrefix + "Missing required field '" + missingField.value + "'"
    ensures !TruthyOpt(missingField) ==> e.message == SbomPrefix + reason
  {
    var msg := if TruthyOpt(missingField) then SbomPrefix + "Missing required field '" + missingField.value + "'"
               else SbomPrefix + reason;
    HdfmException(InvalidSbom(missingField), msg, SbomCode)
  }

  /** A failure inside a scoring phase, naming the affected advisory when one is given. */
  function NewAnalysisException(phase: string, details: string, cveId: Option<string> := None): (e: HdfmException)
    ensures e.errorCode == AnalysisCode && e.kind == Analysis(phase, cveId)
    ensures StartsWith(e.message, "Failure during " + phase + ": " + details)
    ensures TruthyOpt(cveId) ==> e.message == "Failure during " + phase + ": " + details + " (Impacted CVE: " + cveId.value + ")"
    ensures !TruthyOpt(cveId) ==> e.message == "Failure during " + phase + ": " + details
  {
    var msg := "Failure during " + phase + ": " + details;
    HdfmException(Analysis(phase, cveId), if TruthyOpt(cveId) then msg + " (Impacted CVE: " + cveId.value + ")" else msg, AnalysisCode)
  }

  /** Every rendered SBOM exception starts with its code and the validation prefix. */
  lemma RenderedSbomPrefix(missingField: Option<string>, reason: string)
    ensures StartsWith(Render(NewInvalidSbomException(missingField, reason)), "[" + SbomCode + "] " + SbomPrefix)
  {
    var e := NewInvalidSbomException(missingField, reason);
    assert Render(e) == "[" + SbomCode + "] " + e.message;
    assert e.message == SbomPrefix + e.message[|SbomPrefix|..];
  }
}
