# diesel-monaco: a Dafny model of the editor glue

diesel-monaco connects the Diesel parser facade to the Monaco editor for the small
language BMD. Almost all of its work is delegated to the parser and to the editor host.
The logic it owns, modelled here, is:

- the **pending-validation registry** (`pendingValidationRequests`), a map from document URI
  to timer handle that debounces re-validation on every edit;
- **`doValidate`**, which parses a captured text snapshot and publishes one diagnostic per
  parser marker into the diagnostic collection, with the `SEV_MAP` severity lookup;
- the **semantic-token providers**, which push one token per accepted style: through
  `getTokenType` on the client pages, and through the caller's `styleToToken` plus a
  single-line check in the library;
- the **completion providers**, which turn parser proposals into completion items
  (cut at the first line feed in the library, whole on the client page).

The same logic is copied into three files: monaco/src/index.ts (the `DieselMonaco`
library), monaco/src/client.ts (a demo page) and sandbox/src/client.ts (the sandbox page).
Shared definitions live in one module each. Per-file modules bind each file's constants
and its differences to them.

| module | file | holds |
|---|---|---|
| `Facade` | facade.dfy | parser request and result shapes |
| `Editor` | editor.dfy | positions, ranges, diagnostics, completion items and tokens |
| `Markers` | markers.dfy | `SEV_MAP`, marker to diagnostic, the `push` loop of `doValidate` |
| `Highlight` | highlight.dfy | `getTokenType`, the legend, the token filter and the builder loop |
| `Validation` | validation.dfy | the `Validator` class: registry, armed timers, diagnostic collection |
| `MonacoIndex` | monaco_index.dfy | monaco/src/index.ts |
| `MonacoClient` | monaco_client.dfy | monaco/src/client.ts |
| `SandboxClient` | sandbox_client.dfy | sandbox/src/client.ts |

The registry, the timers and the collection are module-level mutable state in the source,
so they are fields of one class, `Validation.Validator`. Its invariant `Valid()` states the
key property: each URI has at most one armed timer, and that timer is the registry's entry.
Timer handles are fresh ids and firing is an explicit method. The parser is a function
from request to result, and `TextDocument.positionAt` is a function from text and offset to
position, both passed in as parameters. A ghost log of parse requests shows when the parser is called.

Copies modelled by the shared members:
- `cleanPendingValidation` is the same at monaco/src/index.ts:157-163, monaco/src/client.ts:164-170
  and sandbox/src/client.ts:120-126.
- The timer callback and `doValidate` are the same in all three files. They differ only in
  the key they publish under and in whether an entry point is passed. `Validation.Job` carries
  both.
- `SEV_MAP` is the same at monaco/src/index.ts:165-169, monaco/src/client.ts:172-176 and
  sandbox/src/client.ts:128-132.
- `getTokenType` and `tokenTypes` are the same at monaco/src/client.ts:103-115 and
  sandbox/src/client.ts:76-88.

On empty text, `doValidate` calls `cleanDiagnostics()`, that is `diagnosticCollection.clear()`
(monaco/src/index.ts:227-229). That empties the whole collection, not only this document's entry,
so `Validated` sets the collection to the empty map.

## Model

| member | source | states |
|---|---|---|
| `Markers.SeverityOf` | monaco/src/index.ts:165-169 | Both directions: info gives Information and warning gives Warning. Every other severity name the parser reports, "error" included, gives Error. The lookup never yields Hint. |
| `Markers.Diagnostics` | monaco/src/index.ts:196-208 | One diagnostic per marker, with as many diagnostics as markers. The i-th is the i-th marker's conversion, so marker order is kept. |
| `Markers.DiagnosticOfMarker` | sandbox/src/client.ts:149-161 | Each published diagnostic runs from `positionAt(offset)` to `positionAt(offset + length)` and carries the marker's message. Its severity is `SEV_MAP`'s entry, or Error for a name not in the table. |
| `Markers.CollectDiagnostics` | monaco/src/client.ts:193-205 | The `forEach`/`push` loop builds exactly the per-marker diagnostic list. |
| `Highlight.GetTokenType` | monaco/src/client.ts:103-113 | Defined exactly for number, string, keyword and attr. The first three map to themselves and attr maps to property. |
| `Highlight.TokenTypesInLegend` | sandbox/src/client.ts:76-88 | Every defined result of `getTokenType` is in the `tokenTypes` legend and is non-empty. |
| `Highlight.Emit` | monaco/src/index.ts:116-125 | A style yields a token iff its type is truthy, and, under the single-line policy, its start and end positions share a line. The token spans the style and carries that type. |
| `Highlight.TokensAppend` | monaco/src/index.ts:115-126 | The tokens of consecutive style lists are concatenated, so tokens are pushed in style order. |
| `Highlight.TokensMembers` | monaco/src/client.ts:127-138 | A token is pushed iff some style emits it. Nothing is invented and no accepted style is lost. |
| `Highlight.TokensAtMostStyles` | monaco/src/index.ts:113-126 | There is at most one token per style, and exactly one per style when every style is accepted. |
| `Highlight.BuildTokens` | monaco/src/client.ts:125-138 | The builder loop throws iff some emitted token spans lines or has a type outside the legend. Otherwise it pushes exactly the filtered tokens of the styles, in order. |
| `Highlight.ProvideSemanticTokens` | monaco/src/client.ts:122-143 | A failed parse builds an empty token set. A successful one builds the tokens of its styles, unless the builder throws. |
| `Validation.Validator.constructor` | monaco/src/index.ts:140 | The registry, the armed timers and the collection start empty, and the invariant holds. |
| `Validation.Validator.CleanPendingValidation` | monaco/src/index.ts:157-163 | With no entry for the URI, nothing changes. Otherwise that handle is cleared and only that key is removed. The invariant is kept. |
| `Validation.Validator.Schedule` | monaco/src/index.ts:149-155 | Afterwards the registry maps the URI to a fresh handle and leaves other keys unchanged. The earlier handle is no longer armed. The new timer is the URI's only armed timer. |
| `Validation.Validator.DoValidate` | monaco/src/index.ts:174-229 | Empty text empties the collection and makes no parse call. A failed parse leaves the collection unchanged. A successful parse sets the target's entry to the markers' diagnostics. |
| `Validation.Validator.Fire` | monaco/src/index.ts:151-154 | The fired timer is disarmed and its registry entry removed before `doValidate` runs. Afterwards the registry no longer refers to the fired handle, and the invariant holds. |
| `Validation.OneTimerPerUri` | monaco/src/index.ts:140-163 | Two armed timers for one URI are the same timer, and it is the registry's entry. |
| `Validation.RapidEdits` | monaco/src/client.ts:150-162 | After two edits and a fire, the parser has seen only the text captured by the later edit. No timer or entry for the document remains. |
| `MonacoIndex.IndexOf` | monaco/src/index.ts:90 | Returns -1 iff the character is absent. Otherwise it returns the first index where the character occurs. |
| `MonacoIndex.GetProposalText` | monaco/src/index.ts:89-96 | Text without a line feed comes back unchanged. Otherwise the result is the proper prefix before the first line feed. The result never contains a line feed. |
| `MonacoIndex.ProposalTextIdempotent` | monaco/src/index.ts:89-96 | Cutting an already cut label changes nothing. |
| `MonacoIndex.CompletionItems` | monaco/src/index.ts:73-84 | A failed predict gives no items. Otherwise there is one item per proposal, of the protocol's kind Text, in order, with `data = p` and `label = getProposalText(p)`, a single-line prefix of the text. |
| `MonacoIndex.SemanticTokenSource` | monaco/src/index.ts:113-126 | A token appears iff some style has a truthy `styleToToken` type and starts and ends on one line. The token spans that style with that type. |
| `MonacoIndex.IndexRejection` | monaco/src/index.ts:104-126 | With the single-line check, the builder throws iff some emitted style's `styleToToken` type is missing from `tokenTypes`. |
| `MonacoIndex.DieselMonaco.ProvideDocumentSemanticTokens` | monaco/src/index.ts:106-132 | A failed parse gives an empty token set. A successful parse gives the single-line filtered tokens of its styles. It gives nothing iff some emitted type is missing from `tokenTypes`. |
| `MonacoIndex.DieselMonaco.ValidateDocument` | monaco/src/index.ts:43-51 | Schedules a job keyed by `modelUri` that publishes under `monacoUri` with the configured entry point. It replaces that document's earlier timer, and every other armed timer keeps its job. The collection is untouched. |
| `MonacoClient.CompletionItems` | monaco/src/client.ts:84-101 | A failed predict gives no items. Otherwise there is one item per proposal, in order, labelled by the whole proposal text with no cutting. |
| `MonacoClient.StyleTokenIff` | monaco/src/client.ts:127-137 | A style yields a token iff `getTokenType` is defined for its name. The token's type is in the legend. |
| `MonacoClient.ClientRejection` | monaco/src/client.ts:124-138 | Without a single-line check, the builder throws iff some style `getTokenType` knows starts and ends on different lines. |
| `MonacoClient.ProvideDocumentSemanticTokens` | monaco/src/client.ts:119-148 | A failed parse gives an empty token set. A successful parse gives nothing iff a known style spans lines. Otherwise it gives the tokens of the styles `getTokenType` knows, pushed in style order, each with a type in the legend. |
| `MonacoClient.Validate` | monaco/src/client.ts:155-162 | Replaces the model's pending timer with one that validates the current text and publishes under `MONACO_URI`. Every other armed timer keeps its job, and exactly one timer stays armed for the model. |
| `SandboxClient.HighlightedStyle` | sandbox/src/client.ts:76-98 | With the library provider and `getTokenType`, a style is highlighted iff its name is known and it sits on one line. Its type is in the page's legend. |
| `SandboxClient.SandboxNeverRejects` | sandbox/src/client.ts:88-98 | The library provider with `getTokenType` and `tokenTypes` never makes the builder throw. |
| `SandboxClient.Validate` | sandbox/src/client.ts:111-118 | Replaces the model's pending timer with one that validates the current text and publishes under `MONACO_URI`. Every other armed timer keeps its job, and exactly one timer stays armed for the model. |

## Left out

- Host setup is not modelled: `StandaloneServices.initialize`, `buildWorkerDefinition`, language registration, editor creation and provider registration. Only the bodies of the registered callbacks are modelled.
- `DieselParserFacade.parse` and `predict` are external. Parse answers come from a function parameter, and completion takes the predict result as a value.
- `DieselMonaco.ValidateDocument` does not capture the parser instance that `this.parser()` returns when the timer is armed. `Fire` takes the parser as a parameter, which is the same whenever `parser()` returns the same facade.
- `TextDocument.positionAt` is a function parameter, because it belongs to an external library. The model does not cover `offsetAt` or the predict request's offset.
- `SemanticTokensBuilder` becomes the sequence of pushed tokens, in push order. `build()` sorts the pushed tokens by line and character when a push lands before the previous one. The model keeps push order and does not model that sort. Its relative line and column encoding is not modelled either. Its exception on a range spanning lines or a type outside the legend is modelled as the provider giving no tokens (`None`). The logging of that rejection by the host is not modelled.
- `protocolConverter.asDiagnostics(...).then` is modelled as an immediate update of the collection. The asynchronous gap before the update lands is not modelled.
- `Markers.SeverityOf` treats every name outside the table as unknown. It does not model that `SEV_MAP` is a plain object, so a key such as `constructor`, `toString` or `__proto__` would return an inherited `Object.prototype` member, which `?? DiagnosticSeverity.Error` does not replace. The parser reports only info, warning and error.
- `MonacoIndex.CompletionItems` produces the protocol's kind `Text`, the constant 1. The item goes to `vscode.languages.registerCompletionItemProvider` unconverted, and the vscode API reads 1 as `Method`. The model records the kind the glue writes, not the one the editor shows.
- `MonacoClient.CompletionItems` has the same kind mismatch: it writes the protocol's `Text` (1), which the vscode API shows as `Method`.
- JavaScript strings are sequences of UTF-16 code units. The model treats them as sequences of Unicode scalar values (`seq<char>`). So `MonacoIndex.IndexOf` counts characters where `indexOf` counts code units. The prefix that `getProposalText` returns is the same either way, and the emptiness test `text.length === 0` agrees too.
- `marker.getMessage("en")` is not modelled. The marker carries its message as an opaque string.
- `window.setTimeout` and `clearTimeout` have no time or delay in the model. Handles are fresh ids, and firing is the explicit method `Fire`, which the host calls only for an armed timer.
- The `else` branch of each `doValidate` (monaco/src/index.ts:209-220, monaco/src/client.ts:206-217, sandbox/src/client.ts:162-173) is unreachable after the early return on a failed parse, so it is not modelled.
- `console.error` logging is not modelled.
- The collection is keyed by a monaco `Uri`. The model keys it by the string that `Uri.parse` was given.
- The sandbox page imports `registerCompletion` and `registerSemanticHighlight` from the published library package, which is not part of this model. Its highlighting is modelled by the single-line provider of monaco/src/index.ts. Its completion provider is not modelled.
- The build configuration (sandbox/webpack.config.js, sandbox/vite.config.ts) and bump-version.js are not modelled: they are build tooling and file I/O.
