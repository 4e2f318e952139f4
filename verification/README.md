# Required-attribute diagnostics for a Terraform language server

This project models two pieces of terraform-ls's diagnostics path in Dafny and proves properties about them.

1. **The required-attribute validator** (`MissingRequiredAttribute`, in `missing_required_attribute.dfy`).
   - A tree walker calls `Visit` once for each syntax node.
   - If the traversal context says required attributes are unknown, the visit does nothing.
   - A top-level `provider` block sets that flag for its whole subtree.
   - A body with a known schema gets one Error diagnostic for each required attribute it lacks. Each diagnostic carries one quick fix, which inserts `name = null` at column 1 of the body's last line.
   - The body is also healed: a null placeholder is added for each missing attribute.
2. **The diagnostic converter** (`Diagnostics`, in `diagnostics.dfy`). It turns HCL diagnostics and code actions into Language Server Protocol objects:
   - severity mapping;
   - `summary: detail` messages;
   - 1-based to 0-based coordinates;
   - a result slice that is never nil;
   - grouping of each code action's edits under the caller's document.

The other files are:
- `wrappers.dfy`: `Option`, and a Go-style `Slice` whose nil value is distinct from an empty one.
- `hcl.dfy` and `protocol.dfy`: the two vocabularies.
- `pipeline.dfy`: the two stages composed.

Modelling choices:
- The source mutates the body in place. Here `Visit` returns the healed body instead.
- The context is an immutable record that holds the flag and the nesting level the walker recorded.
- Go's map iteration order is a parameter `order`. It must enumerate the schema's attribute names. The diagnostics are therefore specified as a set keyed by attribute name, not by position.

## Model

| member | source | states |
|---|---|---|
| MissingRequiredAttribute.HasUnknownRequiredAttributes | internal/features/modules/decoder/validations/missing_required_attribute.go:110-113 | the flag is set exactly when deriving a flagged context changes nothing; Go's lookup succeeds for any bool under the key, but the key type is unexported and only `WithUnknownRequiredAttributes` stores under it, always `true`, so one boolean is exact |
| MissingRequiredAttribute.WithUnknownRequiredAttributes | internal/features/modules/decoder/validations/missing_required_attribute.go:115-117 | the derived context always reports the flag, and it keeps the nesting level |
| MissingRequiredAttribute.WithUnknownRequiredAttributesIdempotent | internal/features/modules/decoder/validations/missing_required_attribute.go:108-117 | setting the flag is idempotent; a flagged context is unchanged by setting it again |
| MissingRequiredAttribute.Visit | internal/features/modules/decoder/validations/missing_required_attribute.go:22-73 | a flagged context returns itself, the node untouched and nil diagnostics, whatever the node or schema; the flag is on afterwards iff it was on before or the node is a provider block at known nesting level 0; a provider at depth ≥ 1 or at unknown depth passes the context through; blocks and other nodes give no diagnostics; a body is handled as `VisitBody` states |
| MissingRequiredAttribute.VisitBody | internal/features/modules/decoder/validations/missing_required_attribute.go:37-69 | with no schema, or a nil attribute map, there are no diagnostics and the body is unchanged; otherwise the healed keys are the old keys plus the missing required names; old attributes keep their values and every added one is a null placeholder; there is one diagnostic per missing required name, each the diagnostic for one such name; the slice is nil iff nothing is missing |
| MissingRequiredAttribute.CheckRequired | internal/features/modules/decoder/validations/missing_required_attribute.go:47-69 | the loop over the schema, in any order: the keys grow by exactly the missing required names it visits; old entries are unchanged and new entries are placeholders |
| MissingRequiredAttribute.CheckRequiredReportsMissing | internal/features/modules/decoder/validations/missing_required_attribute.go:47-62 | the loop reports exactly the missing required names it visits, each once, even though it inserts placeholders as it goes |
| MissingRequiredAttribute.EnumeratedMissing | internal/features/modules/decoder/validations/missing_required_attribute.go:47-50 | iterating over every schema key finds exactly the set of required names minus present names |
| MissingRequiredAttribute.MissingAttributeDiagnostic | internal/features/modules/decoder/validations/missing_required_attribute.go:51-63 | the diagnostic is an Error, its subject is the body's range, and it has exactly one code action, built from the diagnostic |
| MissingRequiredAttribute.MissingAttributeDiagnosticInjective | internal/features/modules/decoder/validations/missing_required_attribute.go:51-63 | different attribute names give different diagnostics |
| MissingRequiredAttribute.BuildMissingRequiredAttributeCodeAction | internal/features/modules/decoder/validations/missing_required_attribute.go:75-97 | the action is titled "Add missing attribute", has the quick-fix kind and one edit; the edit is zero-width, at the subject's end line and column 1, in the subject's file, and its text starts with the attribute name |
| MissingRequiredAttribute.VisitBodyDiagnosesExactlyMissing | internal/features/modules/decoder/validations/missing_required_attribute.go:47-56 | a name has a diagnostic iff it is required and absent: optional and present attributes are never diagnosed |
| MissingRequiredAttribute.VisitBodyDiagnosticShape | internal/features/modules/decoder/validations/missing_required_attribute.go:51-65 | every emitted diagnostic is an Error at the body's range with one fix: a single zero-width insertion at column 1 of the body's last line |
| MissingRequiredAttribute.VisitBodyIdempotent | internal/features/modules/decoder/validations/missing_required_attribute.go:57-62 | visiting the healed body again, in any iteration order, yields nil diagnostics and the same body |
| MissingRequiredAttribute.NothingMissingAfterHeal | internal/features/modules/decoder/validations/missing_required_attribute.go:57-62 | a body that holds every missing name lacks nothing more |
| MissingRequiredAttribute.VisitIdempotent | internal/features/modules/decoder/validations/missing_required_attribute.go:22-73 | a second visit of a visited node, with the context the first returned, reports nothing and changes nothing |
| MissingRequiredAttribute.CompletenessExample | internal/features/modules/decoder/validations/missing_required_attribute.go:47-69 | with a, b and c required and d optional, a body holding b gets diagnostics for a and c only, and ends up holding a, b (unchanged) and c |
| MissingRequiredAttribute.Descend | internal/features/modules/decoder/validations/missing_required_attribute.go:24-36 | threading contexts down a descent never clears the flag |
| MissingRequiredAttribute.FlaggedDescentIsSilent | internal/features/modules/decoder/validations/missing_required_attribute.go:23-26 | below a flagged context, no node of a descent is diagnosed |
| MissingRequiredAttribute.TopLevelProviderSilencesSubtree | internal/features/modules/decoder/validations/missing_required_attribute.go:29-36 | a provider block at nesting level 0 silences itself and everything below it |
| Diagnostics.HclSeverityToLsp | internal/lsp/diagnostics.go:13-24 | Error maps to protocol Error and Warning to protocol Warning, each in both directions; any other non-Invalid value maps to the zero severity; Invalid is excluded because it panics |
| Diagnostics.SeverityRoundTrip | internal/lsp/diagnostics.go:13-24 | Error and Warning can be read back from their protocol severities |
| Diagnostics.Message | internal/lsp/diagnostics.go:30-33 | with an empty detail the message is the summary; otherwise its length is that of summary, ": " and detail together |
| Diagnostics.MessageSplits | internal/lsp/diagnostics.go:30-33 | the message starts with the summary; with a detail, ": " follows it and the rest is the detail |
| Diagnostics.HclRangeToLsp | internal/lsp/diagnostics_test.go:65-93 | both ends are the shifted positions, and the range is empty iff the source range is |
| Diagnostics.RangeRoundTrip | internal/lsp/diagnostics_test.go:65-93 | shifting back restores the HCL range with its file name |
| Diagnostics.RangeRoundTripBack | internal/lsp/diagnostics_test.go:65-93 | every protocol range comes from the HCL range one line and one column further on |
| Diagnostics.PositionExample | internal/lsp/diagnostics_test.go:67-71 | line 1, column 2 becomes line 0, character 1 |
| Diagnostics.KeptFrom | internal/lsp/diagnostics.go:63-72 | the index of the last edit naming another file, or 0 when every edit names the source document; all later edits name the source |
| Diagnostics.GroupEdits | internal/lsp/diagnostics.go:63-72 | nil iff there are no edits; otherwise the only key is `source`, holding the converted edits from index `KeptFrom` on |
| Diagnostics.GroupEditsAllLocal | internal/lsp/diagnostics.go:63-72 | when every edit names `source`, all edits are kept in order |
| Diagnostics.GroupEditsLastForeign | internal/lsp/diagnostics.go:68 | when the last edit names another file, only that edit survives |
| Diagnostics.GroupEditsDropsEarlierEdits | internal/lsp/diagnostics.go:68 | counterexample: two edits against "other.tf" converted for "main.tf" keep only the second; the intended grouping keeps both |
| Diagnostics.GroupEditsUnderSource | internal/lsp/diagnostics.go:63-72 | corrected grouping: nil iff there are no edits, otherwise every edit in order under `source` |
| Diagnostics.GroupingsAgreeWhenLocal | internal/lsp/diagnostics.go:63-72 | the grouping as written and the corrected grouping agree when every edit names `source` |
| Diagnostics.HclCodeActionToLsp | internal/lsp/diagnostics.go:62-81 | the title is the message and the kind is copied; changes are nil iff there are no edits; otherwise the only key is `source`, and it holds the converted edits from the last edit naming another file onwards (all of them when every edit names `source`) |
| Diagnostics.CodeActionExamples | internal/lsp/diagnostics_test.go:35-109 | the test's two cases: no edits gives nil changes; one edit at (1,2) becomes (0,1) under "testfile" |
| Diagnostics.HclCodeActionsToLsp | internal/lsp/diagnostics.go:54-60 | never nil; same length; the i-th output converts the i-th action |
| Diagnostics.HclDiagToLsp | internal/lsp/diagnostics.go:29-46 | source is the argument; severity and message as above; a nil subject gives the zero range, otherwise the converted subject; the attached actions are a non-nil slice holding each code action converted, in order |
| Diagnostics.HclDiagsToLsp | internal/lsp/diagnostics.go:26-52 | never nil, also for nil or empty input; same length; order kept, element by element |
| Diagnostics.NeverNilExamples | internal/lsp/diagnostics_test.go:14-33 | nil, empty and one-element inputs give non-nil results |
| Pipeline.ConvertMissingAttributeDiagnostic | internal/lsp/diagnostics.go:29-46 | a converted validator diagnostic is a protocol Error at the body's range, with the summary and detail message; its one action holds one edit under `source`, at character 0 of the body's last 0-based line |
| Pipeline.ConvertMissingAttributeDiagnostics | internal/lsp/diagnostics.go:26-52 | the same holds for every element of a converted sequence of validator diagnostics |
| Pipeline.ValidatorOutputConverts | internal/features/modules/decoder/validations/missing_required_attribute.go:47-65 | a body's diagnostics can always be converted; the client receives one diagnostic per missing required attribute, and each missing name appears in some message |
| Pipeline.ConvertedMessagesNameAll | internal/lsp/diagnostics.go:30-33 | each name whose diagnostic is in the input appears in some converted message |
| Pipeline.ValidatorFixesGroupAlike | internal/lsp/diagnostics.go:63-72 | on the validator's single-edit fixes, the grouping as written and the corrected grouping agree |

## Left out

- Logging (`log.Printf` at missing_required_attribute.go:64 and diagnostics.go:48) has no effect on results.
- `hclwrite` rendering of the inserted text (missing_required_attribute.go:83-89) is a formatter outside this model. `RenderNullAttribute` stands in as `name + " = null\n"`.
- BuildMissingRequiredAttributeCodeAction: only states that the inserted text starts with the attribute name, because the formatter's exact bytes are not modelled.
- MissingAttributeDiagnostic: quotes the name without the escaping Go's `%q` applies to quotes and control characters.
- BuildMissingRequiredAttributeCodeAction: the kind `lsp.QuickfixAddMissingAttributes` is defined in a file that is not part of this model. The model uses the protocol's base kind "quickfix" and states nothing about the literal.
- HclRangeToLsp: `HCLRangeToLSP` is not part of this model. Its rule (line − 1, column − 1) is taken from the repository's test. It uses unbounded integers, so it ignores the protocol's unsigned 32-bit fields, byte offsets, and UTF-16 column counting.
- `context.Context` plumbing and `schemacontext.BlockNestingLevel` are library mechanics. The model replaces them with the `Context` record, whose `nesting` field the walker fills in.
- The tree walker is outside the model. `Descend` models only one root-to-leaf descent, so that suppression can be stated across visits.
- The `*schema.BodySchema` type assertion (missing_required_attribute.go:42) panics on any other schema. The model makes this the precondition `ValidBodySchema`.
- The `DiagInvalid` panic (diagnostics.go:20-21) is the precondition `NoInvalidSeverity`.
- A nil `Body.Attributes` map written to at missing_required_attribute.go:57, and a typed-nil `*schema.BodySchema` that passes the `== nil` test at :38 and is dereferenced at :43, both panic in the source. The parser never produces either. The model cannot express them: a body's attribute map is always a map, and a body schema is either absent or present.
- Nil pointers in the input are not modelled. This covers a nil element of `hcl.Diagnostics` and a nil `*AttributeSchema`. Both panic in the source.
- `CodeActionMissingRequiredAttribute` and `UnwrapDiagnosticExtra` (missing_required_attribute.go:99-106) are an unused wrapper with no logic.
- `cty` values are not modelled. The placeholder's value is the constant `NullLiteral`, and an existing attribute's expression is opaque text.
- The order of diagnostics within one body follows Go's map iteration and is left open. It is the `order` parameter, so no ordering is promised.
- The source's test calls `HCLCodeActionToLSP` with one argument, but the function takes two. `CodeActionExamples` passes the edit's own file name "testfile" as the source document.

## Findings

| source | as written | input that shows it | evidently intended | confidence | as-written member | corrected member |
|---|---|---|---|---|---|---|
| internal/lsp/diagnostics.go:68 | each edit is stored under `source` but appended to the slice read under the edit's own file name. So an edit that names another file throws away the edits gathered before it. | two edits recorded against "other.tf", converted with source "main.tf": only the second edit survives | every edit of the action is kept, in order, under `source`, the only key the loop assigns to, as the repository's test expects with its single document key (internal/lsp/diagnostics_test.go:87-88) | not executed; high | Diagnostics.GroupEditsDropsEarlierEdits | Diagnostics.GroupEditsUnderSource |

`HclCodeActionToLsp` keeps the as-written grouping, so the model matches the code. Every fix the validator builds has a single edit. On such fixes the two groupings agree (`Pipeline.ValidatorFixesGroupAlike`), so the end-to-end results hold under either one.
