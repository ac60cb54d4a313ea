/** The provider-neutral form index (packages/compiler/src/form-index-types.ts): facts with the evidence for them. */
module FormIndexModel {
  import opened Wrappers
  import opened Texts
  import opened Ranges
  import opened HtmlTree

  datatype UnsupportedReason =
    | FileInput | NamedSubmitter | ProviderResourceLimit | SubmitterRouteOverride | UnsupportedControlKind

  datatype Evidence<+T> =
    | Known(value: T, range: Range)
    | Absent(where: Option<Range>)
    | Dynamic(range: Range)
    | Unsupported(reason: UnsupportedReason, range: Range)

  datatype ActionEvidence = ActionAttribute(evidence: Evidence<Text>) | CurrentDocument(range: Range)

  datatype ControlKind = ButtonControl | InputControl | SelectControl | TextareaControl

  datatype Multiplicity = MutuallyExclusive | Repeated | Scalar

  datatype IndexedControl = IndexedControl(
    name: Evidence<Text>,
    controlKind: Evidence<ControlKind>,
    inputType: Evidence<InputType>,
    multiple: Evidence<bool>,
    multiplicity: Evidence<Multiplicity>,
    successful: Evidence<bool>,
    range: Range)

  datatype IndexedForm = IndexedForm(
    identity: Evidence<Text>,
    verb: Evidence<Text>,
    action: ActionEvidence,
    range: Range,
    controls: seq<IndexedControl>)
}
