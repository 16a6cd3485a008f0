# Proposal form: field validation and form state

A model of the proposal-submission form component of Open-Source-Odyssey
(`src/Components/ProposalForm.jsx`). The form has six inputs: name, e-mail,
phone, GitHub task link, a preference drop-down and a PDF upload. Its logic
is one pure validator (`validateField`) and four event handlers that update
the component's state: the field values, the per-field error messages, the
set of touched fields and the "submitted" flag.

- `validation.dfy` (module `Validation`): the fields, the values they hold,
  the white-space and digit character classes, `String.prototype.trim`, the
  e-mail pattern `^\S+@\S+\.\S+$` written as a predicate on strings, and
  `ValidateField` with the properties of each field's rule.
- `proposal_form.dfy` (module `ProposalForm`): the form's values as a record,
  the submit-time error collection as a loop over the six fields, and the
  class `Form` whose methods are the four handlers. Its object invariant says
  that no stored error message is stale: every entry in `errors` is exactly
  what validation says of the field's current value. Every handler keeps it.
- `sessions.dfy` (module `ProposalFormSessions`): a submission refused for
  a missing name, and the successful one after the name is supplied, proved
  from the handlers' contracts only.

Modelling decisions:

- Each handler is one atomic state transition. The handlers read the state
  left by the previous event and run to completion, so React's deferred
  state updates do not change their effect.
- Regular expressions are written as predicates. `\d` is ASCII `0`-`9`.
  `\s`, and the characters `trim` removes, are the ECMAScript white-space and
  line-terminator characters: TAB, LF, VT, FF, CR, SPACE, NBSP, U+1680,
  U+2000-U+200A, U+2028, U+2029, U+202F, U+205F, U+3000 and U+FEFF.
  `\S` is everything else. The e-mail pattern holds when the string has no
  white space, an `@` at some index i >= 1, and a `.` at some index j with
  i + 2 <= j <= |s| - 2. `EmailFromParts` and `EmailParts` prove that this is
  exactly the language of `\S+@\S+\.\S+`.
- A field value is either `Text(s)` or `Upload(file)`. `Upload(None)` stands
  for "no file chosen" (`files[0]` undefined). `ValidateField` requires
  that the PDF field gets an upload and every other field gets text. The
  component only ever calls it that way; with mismatched types the
  JavaScript would throw or coerce.
- `ValidateField` is a function, so validating the same field and value
  twice gives the same message by construction.
- A `File` keeps only its declared content type (`mimeType`, the browser's
  `type` property).
- An error entry holding `""` is kept distinct from a missing entry. After a
  change or a blur the map may hold `""` for that field. After a refused
  submit it holds only non-empty messages.
- The source and the written design disagree in two places; the model follows
  the source. First, the `submitted` flag is never cleared once set: later
  edits and refused submits leave it as it was. Second, errors are stored
  whether or not the field is touched, and the touched set does not gate
  anything the model covers.

## Model

| member | source | states |
|---|---|---|
| Validation.TrimStart | src/Components/ProposalForm.jsx:20 | The result is a suffix of the input. What was dropped is all white space, and the result does not start with white space. |
| Validation.TrimEnd | src/Components/ProposalForm.jsx:20 | The result is a prefix of the input. What was dropped is all white space, and the result does not end with white space. |
| Validation.Trim | src/Components/ProposalForm.jsx:20 | `trim()` gives the empty string exactly when the input is all white space. Otherwise the result neither starts nor ends with white space. |
| Validation.TrimIsSlice | src/Components/ProposalForm.jsx:20 | `trim()` returns a stretch of the input. Everything before it and everything after it is white space. With Trim's own contract, this makes the result exactly the input with its leading and trailing white space removed. |
| Validation.IsWhitespace | src/Components/ProposalForm.jsx:20-22 | The characters `trim()` removes and `\s` matches: ECMAScript white space and line terminators. `\S` is the complement. A definition, with no contract of its own. |
| Validation.IsEmail | src/Components/ProposalForm.jsx:22 | The test `/^\S+@\S+\.\S+$/` as a predicate. Its meaning is proved by EmailFromParts and EmailParts. |
| Validation.AllDigits | src/Components/ProposalForm.jsx:26 | The test `/^\d*$/`: every character is an ASCII digit, and the empty string passes. A definition, with no contract of its own. |
| Validation.ValidateField | src/Components/ProposalForm.jsx:17-38 | `validateField`, written as the same switch. Its contract is carried by two lemmas. AcceptedIffNoMessage: the result is `""` exactly for accepted values. RefusalMessages: each refusal gets its field's message. These are kept out of the function's own ensures so that the solver does not carry them into every proof about the form. |
| Validation.AcceptedIffNoMessage | src/Components/ProposalForm.jsx:17-38 | `validateField` returns `""` exactly when the field's rule accepts the value. Name: not blank. E-mail: matches the pattern. Phone: exactly 10 ASCII digits. Preference: non-empty. PDF: no file, or type `application/pdf`. Task link and any other field: always. |
| Validation.RefusalMessages | src/Components/ProposalForm.jsx:17-38 | A refused value gets its field's own message. A phone value with a non-digit gets the digit message whatever its length. A digit-only phone value of the wrong length, the empty one included, gets the length message. The task link is never refused. |
| Validation.EmailFromParts | src/Components/ProposalForm.jsx:22 | Every string `a@b.c` with non-empty, white-space-free parts a, b, c passes the e-mail check. |
| Validation.EmailParts | src/Components/ProposalForm.jsx:22 | Every string that passes the e-mail check splits as `a@b.c` with non-empty, white-space-free parts. |
| Validation.NameExamples | src/Components/ProposalForm.jsx:19-20 | `""` and all-white-space names are refused with "Name is required."; `" Ada "` is accepted. |
| Validation.EmailExamples | src/Components/ProposalForm.jsx:21-24 | `a@b.co` is accepted. `abc`, `a@b` and `a b@c.de` are refused with "Please enter a valid email address." |
| Validation.PhoneExamples | src/Components/ProposalForm.jsx:25-28 | `1234567890` is accepted. `12345` and `""` get the 10-digit message. `12a4567890` and `12a` get the digits-only message. |
| Validation.OtherExamples | src/Components/ProposalForm.jsx:29-36 | An empty preference is refused and `Option 2` is accepted. An empty task link is accepted. No file and a PDF file are accepted; an `image/png` file is refused with "Only PDF files are allowed." |
| ProposalForm.FormValues.Get | src/Components/ProposalForm.jsx:78 | `formData[name]`, also read at line 86: the value a field holds. The PDF field holds an upload and every other field holds text. |
| ProposalForm.FormValues.With | src/Components/ProposalForm.jsx:43-46 | Overwriting one field (the `{...formData, [name]: value}` update) sets that field and keeps every other field. |
| ProposalForm.GetDeterminesValues | src/Components/ProposalForm.jsx:4-11 | Two value records that agree on all six fields are equal. So the handlers' per-field contracts fix the whole new record. |
| ProposalForm.AllValid | src/Components/ProposalForm.jsx:91 | The condition under which `Object.keys(newErrors).length === 0`: every field validates to `""`. CollectErrors proves its map is empty exactly when this holds. |
| ProposalForm.CollectErrors | src/Components/ProposalForm.jsx:85-89 | The loop over the six fields yields a map with an entry exactly for each refused field. Each entry is that field's non-empty message. The map is empty exactly when every field is accepted. |
| ProposalForm.ConsistentAfterEdit | src/Components/ProposalForm.jsx:43-51 | Storing a new value together with its fresh message keeps every stored error consistent with the current values. |
| ProposalForm.InitialErrors | src/Components/ProposalForm.jsx:4-38 | A fresh form cannot be submitted. Exactly name, e-mail, phone and preference are refused; the empty task link and the absent file are not. |
| ProposalForm.Form.constructor | src/Components/ProposalForm.jsx:4-15 | Initial state: all texts empty, no file, no errors, nothing touched, not submitted. |
| ProposalForm.Form.HandleChange | src/Components/ProposalForm.jsx:40-52 | The edited text field gets the new text, and its error entry becomes the new text's message. Every other value and error entry, the touched set and the flag are unchanged. No stored error is stale afterwards. |
| ProposalForm.Form.HandleFileChange | src/Components/ProposalForm.jsx:54-66 | The PDF field gets the chosen file or none, and its error entry becomes that choice's message. Everything else is unchanged, and no stored error is stale. |
| ProposalForm.Form.HandleBlur | src/Components/ProposalForm.jsx:68-80 | The field joins the touched set, and its error entry becomes the message for its current value. Values, other entries and the flag are unchanged. |
| ProposalForm.Form.HandleSubmit | src/Components/ProposalForm.jsx:82-107 | If all six fields are accepted: submitted, values reset, touched and errors emptied. Otherwise errors become exactly the refused fields with their non-empty messages. Values, touched and the flag are left as they were. |
| ProposalFormSessions.OnlyNameRefused | src/Components/ProposalForm.jsx:17-38 | With an empty name and accepted e-mail, phone, preference and file, the name is the only refused field, with "Name is required." |
| ProposalFormSessions.SubmitWithoutName | src/Components/ProposalForm.jsx:82-107 | In that state, submit is refused. The errors hold only "Name is required." The values and the flag are kept. |
| ProposalFormSessions.SupplyNameAndResubmit | src/Components/ProposalForm.jsx:82-107 | Supplying a non-blank name when all else is accepted: the next submit goes through and resets the form. |
| ProposalFormSessions.RefusedThenAccepted | src/Components/ProposalForm.jsx:40-107 | Both steps on one form. The submit is refused for the missing name; once a name is supplied, the next submit goes through and resets the form. |

## Left out

- Rendering: the JSX markup, the `InputField` component, the CSS class choices and the success banner (lines 109-265). They only display state.
- `console.log` of the submitted values (line 93) and `e.preventDefault()` (line 83). These are output and browser-event plumbing.
- React's state hooks and re-render scheduling, and the DOM event objects. Each handler takes typed arguments instead of `e.target`.
- HandleFileChange takes no field name: only the PDF input is wired to it, so the name is always `pdf1`.
- Field names other than the six: the handlers only receive the six input names, so the `default` branch of `validateField` is reached only by `githubTasks`.
- The `File` object beyond its `type` string, and the picker's `accept=".pdf"` filter (line 230), which the browser applies.
- JavaScript strings are UTF-16 code units and Dafny's are Unicode scalar values. Lone surrogates cannot be represented. A character outside the Basic Multilingual Plane counts once here and twice in JavaScript. This changes no verdict: the phone length is checked only on ASCII digits, and the name and e-mail rules only ask whether characters are white space.
- The white-space set is fixed to the Unicode space separators listed above; a JavaScript engine built on a later Unicode version could add characters to it.
