# Button and dialog-field parameter decoders

A model of two script-step parameter decoders. Both read a forward-only
stream of markup events, and each comes with a renderer for its record.

- **Button** (`src/script_steps/parameters/button.rs`)
  - The label is seeded from the opening tag's `value` attribute. Without that attribute, the label is the first non-empty CDATA block inside a `Text` element.
  - The commit flag follows every `Boolean` tag that carries a `value`.
  - The button renders as `"{role name}: {label}"`.
- **Dialog field** (`src/script_steps/parameters/dialog_field.rs`)
  - Nested `Parameter`s typed "Target" or "Label" are handed to the Target and Calculation decoders, and their display strings become the target and the label.
  - A `Boolean` typed "Password" with value "True" marks the field as a password field.
  - The field renders as up to three clauses joined by `" ; "`.

Both decoders take their own sub-tree with a depth counter. The counter
starts at 1 just after the opening tag, rises on every opening tag and
falls on every close tag. Decoding ends on the close tag that brings it
to zero, or at the end of input.

Modules:

- `Xml` (`xml.dfy`)
  - The event type.
  - The `Reader` class: a stream with a cursor that the decoders share and advance.
  - The depth walk `Walk`, with the independent definition of a matching close tag, `MatchingClose`.
- `Collaborators` (`collaborators.dfy`): the contract of the Target and Calculation decoders. A collaborator consumes the nested element's sub-tree by the same depth walk. A caller-supplied `Decoder` function maps the consumed events to a failure or an optional display string.
- `ButtonParameter` and `DialogFieldParameter`
  - Each holds its record, its renderer, and the decode loop as a method `FromXml` over the reader.
  - Each also has a function `Run` that states, step by step, what the loop computes. `FromXml` is proved equal to `Run`.
  - Lemmas relate `Run` to definitions read backwards from a position: the last `Text` marker, the last `Boolean` with a value, the first text candidate, and the last successful hand-off. They also relate it to the depth walk.
- `ButtonScenarios` and `DialogFieldScenarios`: the source's test documents, as event streams run through `FromXml` and the renderers.

Some names differ from the source:

- The record field `label` is named `labelText`, because `label` is a reserved word in Dafny.
- `DialogFieldParameter.Run` also returns a log of what the loop did with each stretch of the stream. The log is ghost bookkeeping used to state the dialog-field laws. Each entry is either one event read by the loop itself, or one hand-off: the opening tag, the sub-tree the collaborator consumed, and its result.

The commit flag is not sticky. The code assigns `commit = (value ==
"True")` on every `Boolean` that has a `value`, so a later "False"
clears an earlier "True". The last such tag decides, whatever its
`type`.

## Model

| member | source | states |
|---|---|---|
| Xml.Reader.Next | src/script_steps/parameters/button.rs:22-24 | yields the event at the cursor and advances past it; at the end of the stream or on an end-of-input event it yields end of input and stays put |
| Xml.Walk | src/script_steps/parameters/button.rs:18-53 | the depth walk stops within the stream; when it stops on a close tag it is just past that close tag, otherwise it stands at the end of input |
| Xml.WalkFindsMatchingClose | src/script_steps/parameters/button.rs:45-53 | a walk started at depth 1 stops on a close tag at `q` if and only if `q - 1` is the matching close: the depth first returns to zero there, and no end of input comes before it |
| Xml.WalkNested | src/script_steps/parameters/dialog_field.rs:25-42 | a walk at depth `k + d` first does what a walk at depth `k` does, then continues at depth `d` from where that walk closed, or stops with it at end of input |
| Collaborators.Decode | src/script_steps/parameters/dialog_field.rs:32-38 | a collaborator leaves the reader where the depth walk of its element stops, and its result is its decoder applied to the opening tag's attributes and exactly the events it consumed |
| ButtonParameter.Button.Display | src/script_steps/parameters/button.rs:62-76 | nothing when the label is absent or empty; otherwise the role name, `": "` and the label, each recoverable by position from the result |
| ButtonParameter.RoleName | src/script_steps/parameters/button.rs:68-73 | Button1 shows as "Default Button", Button2 as "Button 2", Button3 as "Button 3"; any other role shows as itself |
| ButtonParameter.Step | src/script_steps/parameters/button.rs:25-55 | every event moves the depth by its open/close delta; a known label never changes; the label only changes to a non-empty CDATA inside `Text`; events other than opening tags, close tags and CDATA (errors, self-closing tags, text, comments) change nothing |
| ButtonParameter.Run | src/script_steps/parameters/button.rs:21-57 | the decode never moves before its start or past the end of the stream |
| ButtonParameter.RunStopsWithWalk | src/script_steps/parameters/button.rs:45-53 | the decode stops exactly where the depth walk from the same depth stops |
| ButtonParameter.StopsAtMatchingClose | src/script_steps/parameters/button.rs:49-52 | on well-formed input the decode ends just past the button's own matching close tag |
| ButtonParameter.LabelKept | src/script_steps/parameters/button.rs:38 | once a label is set, no later CDATA replaces it |
| ButtonParameter.AttributeLabelWins | src/script_steps/parameters/button.rs:15 | when the opening tag has a `value` attribute, even an empty one, that value is the label |
| ButtonParameter.LabelIsFirstTextCData | src/script_steps/parameters/button.rs:37-44 | without a seeded label, the label is absent if and only if no consumed event is a non-empty CDATA inside `Text`; otherwise it is the first such CDATA |
| ButtonParameter.CommitIsLastBoolean | src/script_steps/parameters/button.rs:29-33 | `commit` equals the value test of the last consumed `Boolean` opening tag with a `value` attribute ("True" or not), and its initial value when there is none |
| ButtonParameter.FromXml | src/script_steps/parameters/button.rs:14-60 | the loop computes `Run` from the seeded state; the reader ends where the depth walk stops; an attribute label is kept; commit is decided by the last `Boolean` with a value |
| DialogFieldParameter.DialogField.Clauses | src/script_steps/parameters/dialog_field.rs:83-93 | the input clause first, the label clause second exactly when the label is present and non-empty, "Password" last exactly when the field is a password field, and nothing else |
| DialogFieldParameter.DialogField.Display | src/script_steps/parameters/dialog_field.rs:73-96 | nothing if and only if there is no target, whatever the label and password hold; otherwise the clauses joined by `" ; "` |
| DialogFieldParameter.FieldNumber | src/script_steps/parameters/dialog_field.rs:76-81 | Field1, Field2 and Field3 show as "1", "2" and "3"; the number is "?" exactly for every other role |
| DialogFieldParameter.Join | src/script_steps/parameters/dialog_field.rs:95 | a single part joins to itself; the first part always starts the result |
| DialogFieldParameter.DisplayFormat | src/script_steps/parameters/dialog_field.rs:83-95 | the rendering written out: `Input n: target`, then ` ; Label n: label` when the label is non-empty, then ` ; Password` when set |
| DialogFieldParameter.Advance | src/script_steps/parameters/dialog_field.rs:22-65 | one turn: exactly the `Parameter` tags typed Target or Label are handed off; a read consumes one event, never changes the target or the label, and never clears the password flag; a hand-off changes only its own field, keeps the depth as it was before the turn, never ends the loop, and on well-formed input consumes exactly up to the nested element's matching close tag |
| DialogFieldParameter.Run | src/script_steps/parameters/dialog_field.rs:21-68 | the decode never moves before its start or past the end of the stream |
| DialogFieldParameter.WalkPastElement | src/script_steps/parameters/dialog_field.rs:31-42 | walking over an opening tag and the element it opens brings a walk back to its own depth, which is what the correction after a hand-off relies on |
| DialogFieldParameter.RunStopsWithWalk | src/script_steps/parameters/dialog_field.rs:25-64 | with the correction after each hand-off, the decode stops exactly where the plain depth walk stops |
| DialogFieldParameter.StopsAtMatchingClose | src/script_steps/parameters/dialog_field.rs:59-64 | on well-formed input the decode ends just past the field's own matching close tag |
| DialogFieldParameter.LogCoversConsumed | src/script_steps/parameters/dialog_field.rs:21-68 | the loop's reads and the collaborators' sub-trees together cover exactly the consumed events, in order |
| DialogFieldParameter.HandoffsAreExact | src/script_steps/parameters/dialog_field.rs:28-45 | only `Parameter` tags typed Target or Label are handed off, each to its own collaborator applied to its attributes and consumed sub-tree; every other tag, including a `Parameter` of another or no type, is read by the loop |
| DialogFieldParameter.PasswordIsSticky | src/script_steps/parameters/dialog_field.rs:47-54 | the password flag ends true if and only if it started true or the loop read a `Boolean` with type "Password" and value "True"; it is never reset |
| DialogFieldParameter.LastHandoffWins | src/script_steps/parameters/dialog_field.rs:31-42 | target and label are the results of the last successful hand-off of their kind, an absent display included; failures leave them as they were |
| DialogFieldParameter.Turn | src/script_steps/parameters/dialog_field.rs:22-66 | the loop body does what one turn of `Run` does: same new position, field, depth and stop decision; at end of input it stops and changes nothing |
| DialogFieldParameter.FromXml | src/script_steps/parameters/dialog_field.rs:16-71 | the loop computes `Run` from the empty field at depth 1, with the depth kept equal to 1 plus the opens minus the closes the loop itself read; the reader ends where the depth walk stops |
| ButtonScenarios.CalculationButtonRuns | src/script_steps/parameters/button.rs:105-107 | the calculation-labelled button decodes to the label `"OK"` (quotes included), not committing, and stops past its close tag |
| ButtonScenarios.CommitOnlyRuns | src/script_steps/parameters/button.rs:128-130 | a button holding only a commit `Boolean` keeps its seeded label and commits exactly on "True" |
| ButtonScenarios.ButtonDisplays | src/script_steps/parameters/button.rs:108-111 | the four expected button renderings, including the empty button showing nothing |
| ButtonScenarios.ButtonWithCalculation | src/script_steps/parameters/button.rs:87-112 | decoding and rendering the calculation-labelled button gives `Default Button: "OK"` |
| ButtonScenarios.ButtonWithValueAttribute | src/script_steps/parameters/button.rs:114-135 | the `value` attribute labels the button, a "True" Boolean commits, and it renders as `Button 2: Save` |
| ButtonScenarios.EmptyButton | src/script_steps/parameters/button.rs:137-155 | no attribute and no text: no label, no commit, nothing rendered |
| ButtonScenarios.Button3Display | src/script_steps/parameters/button.rs:157-176 | the third role renders as `Button 3: Maybe` |
| DialogFieldScenarios.FieldRuns | src/script_steps/parameters/dialog_field.rs:138-141 | the example field decodes to the collaborators' target and label, with the password flag set by "True" only, and ends past the field's close tag |
| DialogFieldScenarios.Field1Displays | src/script_steps/parameters/dialog_field.rs:142-145 | the first example renders as `Input 1: $input1 ; Label 1: "label1"` |
| DialogFieldScenarios.PasswordFieldDisplays | src/script_steps/parameters/dialog_field.rs:182-185 | the password example renders with the trailing `Password` clause |
| DialogFieldScenarios.Field2Displays | src/script_steps/parameters/dialog_field.rs:221-224 | the Field2 example renders with the number 2 |
| DialogFieldScenarios.FieldWithVariableAndLabel | src/script_steps/parameters/dialog_field.rs:106-146 | decoding and rendering the first example field |
| DialogFieldScenarios.FieldWithPassword | src/script_steps/parameters/dialog_field.rs:148-186 | decoding the password example sets the flag and renders the `Password` clause |
| DialogFieldScenarios.Field2Display | src/script_steps/parameters/dialog_field.rs:188-225 | decoding and rendering the Field2 example |

## Left out

- Tokenizing: how the XML reader turns bytes into events, its buffer and `buf.clear()` are not modelled. The event stream is given as a sequence.
- Err events: each `Err` is one consumed event. A reader that reports the same error forever, which would make the source loop endlessly, is not modelled.
- Attribute and CDATA helpers: `get_attribute` and `cdata_to_string` are not part of this model. Attributes are a map from name to decoded value, where a missing or undecodable value is not a key. CDATA carries its already-decoded text.
- Target and Calculation decoders: `Target::from_xml`, `Calculation::from_xml` and their `display` are not part of this model. They are represented by their contract: a depth walk over their own element, plus a caller-supplied function from the consumed events to a failure or an optional display string.
- Unused parameter: `DialogField::from_xml`'s `_e` parameter is not used by the source and is omitted.
- Derives: the `Debug` and `Default` derives are not modelled.
- Test documents: the XML text of the tests is restated as event streams without the whitespace between tags, which neither decoder reads.
- Scenario collaborators: in the dialog-field scenarios, the collaborators are stand-ins that always yield the display string the real ones produce for those documents.
- DialogFieldScenarios: the expected renderings are written clause by clause joined by `" ; "`, which is the same string as the test's literal.
- DialogFieldParameter.Join: its own contract states only the single-part case and that the first part leads. The full rendering is stated by `DialogFieldParameter.DisplayFormat`.
- ButtonParameter.Run: the function states only that the decode stays within the stream. What it computes is stated by the lemmas about it.
- DialogFieldParameter.Run: the function states only that the decode stays within the stream. What it computes is stated by the lemmas about it.
- Depth width: `depth` is a 32-bit signed integer in the source (button.rs:18, dialog_field.rs:18) and an unbounded integer here. The two differ only beyond 2^31 nested opening tags, where the source would overflow.
