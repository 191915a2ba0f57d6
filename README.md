# A drag-and-drop age board, modelled in Dafny

The `BasicModal` component keeps a list of people (`userData`). Each person has an id, a name,
an e-mail address, a phone number and an age. A modal form adds people. Four columns show
them by age: 18 or younger, 19 to 25, 26 to 45, and above 45. A card can be dragged onto
another column, and that sets the person's age to the column's anchor age (18, 25, 45 or 46).
A card can also be edited through the same form, or deleted.

The model has these modules:

- `JsString` (`jsstring.dfy`) holds the JavaScript built-ins the component uses:
  - `trim`, over the full ECMAScript white-space set;
  - `toLowerCase`;
  - `parseInt(s, 10)`, where `None` stands for `NaN`.
- `EmailPattern` (`email.dfy`) models the e-mail regular expression twice:
  - as ghost predicates shaped like the expression, whose existential split points stand for backtracking;
  - as a deterministic recognizer.

  Lemmas prove the two agree.
- `Users` (`users.dfy`) holds the records: a person, the form draft and the error messages.
  It also holds the loading of a record into the form and the `{ ...user, ...data }` merge.
  The `age` field is declared a string, but a drop stores a number in it. Both kinds of value
  are modelled (`AgeField`).
- `Validation` (`validation.dfy`) holds the per-field rule that `handleChange` applies and the
  four messages that `handleClick` computes.
- `Categorizer` (`categorizer.dfy`) holds the four column filters and proves that they
  partition the records whose age parses.
- `Store` (`store.dfy`) holds the new lists that the drop, update and delete handlers build
  with `map` and `filter`.
- `Modal` (`modal.dfy`) is the component itself: a class whose fields are the `useState`
  variables and whose methods are the handlers. Each handler is one atomic state change. The
  class invariant ties edit mode to the draft:
  - while editing, the draft carries the active record's id;
  - otherwise, the draft carries no id and its age is text.
- `Seqs` (`seqs.dfy`) and `Wrappers` (`wrappers.dfy`) hold `Array.prototype.filter` and an
  option type.

All source paths below are in `src/components/Modal/BasicModal.tsx`.

## Model

| member | source | states |
|---|---|---|
| Seqs.Filter | src/components/Modal/BasicModal.tsx:200 | `filter` keeps exactly the elements that pass, each as often as in the input, in input order (a subsequence), and returns the input itself when every element passes |
| JsString.TrimStartDrops | src/components/Modal/BasicModal.tsx:67 | `trimStart` removes a prefix made only of white space and stops at a character that is not white space |
| JsString.TrimEndDrops | src/components/Modal/BasicModal.tsx:67 | `trimEnd` removes a suffix made only of white space and stops at a character that is not white space |
| JsString.TrimIsSlice | src/components/Modal/BasicModal.tsx:67 | `trim(s)` is a contiguous slice of s with only white space on either side |
| JsString.TrimEmptyIffAllSpace | src/components/Modal/BasicModal.tsx:78-83 | the test `value.trim() === ""` holds exactly when every character of the value is white space |
| JsString.ToLower | src/components/Modal/BasicModal.tsx:67 | `toLowerCase` keeps the length, leaves no upper-case ASCII letter, keeps white space as white space, and keeps every character whose lower case is not an ASCII letter |
| JsString.LowerTrimCommute | src/components/Modal/BasicModal.tsx:67 | lower-casing and trimming commute, so `toLowerCase().trim()` equals trimming first and then lower-casing |
| JsString.DigitPrefix | src/components/Modal/BasicModal.tsx:134 | the digits parseInt reads are the longest prefix of decimal digits |
| JsString.ParseSigned | src/components/Modal/BasicModal.tsx:134 | on text without leading white space, parseInt yields NaN exactly when no digit follows the optional sign |
| JsString.ParseInt | src/components/Modal/BasicModal.tsx:134 | parseInt yields NaN exactly when no digit follows the leading white space and optional sign |
| JsString.ParseIntReads | src/components/Modal/BasicModal.tsx:134 | parseInt of white space, an optional sign, digits and a tail that does not start with a digit is the signed decimal value of those digits |
| EmailPattern.DotAtomAgrees | src/components/Modal/BasicModal.tsx:66 | the scanner for the local part's dotted form accepts exactly what `[^...]+(\.[^...]+)*` matches |
| EmailPattern.OctetsAgree | src/components/Modal/BasicModal.tsx:66 | the scanner for the bracketed address accepts exactly n dot-separated groups of 1 to 3 digits |
| EmailPattern.LabelsAgree | src/components/Modal/BasicModal.tsx:66 | the scanner accepts exactly what `([a-zA-Z\-0-9]+\.)+` matches |
| EmailPattern.HostAgrees | src/components/Modal/BasicModal.tsx:66 | splitting the host after its last '.' accepts exactly what `([a-zA-Z\-0-9]+\.)+[a-zA-Z]{2,}` matches |
| EmailPattern.DomainAgrees | src/components/Modal/BasicModal.tsx:66 | the domain scanner accepts exactly the bracketed-address or host alternatives of the pattern |
| EmailPattern.EmailAgrees | src/components/Modal/BasicModal.tsx:66 | splitting at the last '@' accepts exactly the strings the whole anchored pattern matches |
| EmailPattern.CheckEmailValidation | src/components/Modal/BasicModal.tsx:64-69 | `checkEmailValidation(email)` holds exactly when the regular expression matches the input lower-cased and then trimmed |
| EmailPattern.NormalizeExample | src/components/Modal/BasicModal.tsx:67 | the input " A@b.co" is normalized to "a@b.co" |
| EmailPattern.AcceptExample | src/components/Modal/BasicModal.tsx:64-69 | " A@b.co" is a valid address: it is lower-cased and trimmed before the match |
| EmailPattern.KelvinExample | src/components/Modal/BasicModal.tsx:64-69 | "a@b." followed by two KELVIN SIGN characters (U+212A) is a valid address, because `toLowerCase` maps that sign to 'k' |
| EmailPattern.RejectExample | src/components/Modal/BasicModal.tsx:64-69 | "a@b.c" is rejected because the top-level label needs at least two letters |
| Users.Merge | src/components/Modal/BasicModal.tsx:188 | `{ ...user, ...data }` keeps the record's id when the draft has no id or the same id, and loading the merged record back into the form gives the draft again |
| Users.LoadThenMerge | src/components/Modal/BasicModal.tsx:180-188 | merging the draft loaded from a record into any record yields that record |
| Validation.ChangeError | src/components/Modal/BasicModal.tsx:75-84 | the error `handleChange` records for a field is empty exactly when the new value passes that field's rule |
| Validation.ChangeErrorMeaning | src/components/Modal/BasicModal.tsx:75-84 | a field's error on change is empty exactly when, for email, the pattern matches the lower-cased trimmed value, and otherwise the value is not all white space |
| Validation.WithError | src/components/Modal/BasicModal.tsx:85-88 | `{ ...prevErrors, [name]: error }` sets that field's error and keeps the other three |
| Validation.WithText | src/components/Modal/BasicModal.tsx:73 | `{ ...data, [name]: value }` sets the named field to the value, whatever kind of age the draft holds, and keeps the other fields and the id |
| Validation.SubmitErrors | src/components/Modal/BasicModal.tsx:92-99 | each of the four messages `handleClick` computes is empty exactly when its field passes its rule, and some message is non-empty exactly when the draft is invalid |
| Validation.SubmitAgreesWithChange | src/components/Modal/BasicModal.tsx:76-96 | saving flags a field exactly when changing it to the same text would flag it |
| Validation.ErrorTextsDiffer | src/components/Modal/BasicModal.tsx:82-96 | for a blank name, saving says "Enter name" and changing says "Name is required"; for a blank age, "Enter age" and "Age is required" |
| Validation.BlankMessages | src/components/Modal/BasicModal.tsx:80-83 | a blank value gets "Name is required" in the name input and "Age is required" in the age input |
| Categorizer.AnchorText | src/components/Modal/BasicModal.tsx:162-171 | each anchor a drop stores is written with two decimal digits whose value is the anchor |
| Categorizer.ParseAge | src/components/Modal/BasicModal.tsx:134 | `parseInt(user.age, 10)` parses a text age as parseInt does and reads a numeric anchor back as itself |
| Categorizer.View | src/components/Modal/BasicModal.tsx:133-151 | a column holds exactly the records that pass its filter, each as often as in the store, in store order |
| Categorizer.Unparsed | src/components/Modal/BasicModal.tsx:133-151 | the records whose age is NaN, each as often as in the store |
| Categorizer.InRangeExactlyOne | src/components/Modal/BasicModal.tsx:133-151 | a parsed age passes a column's comparisons exactly when it falls in that column's range |
| Categorizer.ExactlyOneView | src/components/Modal/BasicModal.tsx:133-151 | a record whose age parses is in exactly one column; a record whose age is NaN is in none |
| Categorizer.ViewsDisjoint | src/components/Modal/BasicModal.tsx:133-151 | no record is in two columns |
| Categorizer.ViewsPartition | src/components/Modal/BasicModal.tsx:133-151 | the four columns and the NaN records together hold every record exactly as often as the store does |
| Store.ColumnAnchor | src/components/Modal/BasicModal.tsx:309-357 | the anchor each column's drop zone passes (18, 25, 45, 46) falls in that column's range and in no other |
| Store.Reassign | src/components/Modal/BasicModal.tsx:160-175 | the drop gives the anchor age to every record with the dropped id, when the age is one of the four anchors; nothing else changes |
| Store.DropIgnored | src/components/Modal/BasicModal.tsx:160-175 | a drop with an age that is not an anchor, or with an id no record has, leaves the list unchanged |
| Store.DropLandsInColumn | src/components/Modal/BasicModal.tsx:157-177 | after a drop on a column, the dropped record shows in that column and in no other |
| Store.MergeUpdate | src/components/Modal/BasicModal.tsx:186-192 | the records with the active id take the draft's fields; the others stay as they were; the length is kept |
| Store.UpdateKeepsIds | src/components/Modal/BasicModal.tsx:186-192 | when the draft's id is absent or is the active id, the update keeps every record's id |
| Store.EditThenUpdate | src/components/Modal/BasicModal.tsx:179-197 | loading a record and updating without edits writes that record back over every record with its id |
| Store.UpdateAbsent | src/components/Modal/BasicModal.tsx:186-192 | an update whose active id matches no record leaves the list unchanged |
| Store.Remove | src/components/Modal/BasicModal.tsx:199-202 | deleting removes exactly the records with that id, keeps the rest in order, and is a no-op for an absent id |
| Modal.BasicModal.constructor | src/components/Modal/BasicModal.tsx:45-62 | the initial state: no records, no active id, not editing, an empty draft and no errors |
| Modal.BasicModal.HandleChange | src/components/Modal/BasicModal.tsx:71-89 | only the changed field of the draft and only its error change; that error is empty exactly when the value is valid; edit mode is kept |
| Modal.BasicModal.GetData | src/components/Modal/BasicModal.tsx:128-131 | the new record is appended at the end and nothing else changes |
| Modal.BasicModal.HandleClick | src/components/Modal/BasicModal.tsx:91-118 | the four errors are recomputed from the draft; with any error the list and the draft are kept; otherwise the draft is appended under the fresh id and the draft is cleared |
| Modal.BasicModal.HandleDrop | src/components/Modal/BasicModal.tsx:157-177 | the store becomes the reassigned list; the drop is a no-op for an absent id or a non-anchor age; the dropped record lands in the column whose anchor was passed |
| Modal.BasicModal.ChangeData | src/components/Modal/BasicModal.tsx:179-183 | the draft becomes the record, edit mode is entered and the active id is the record's id |
| Modal.BasicModal.HandleUpdate | src/components/Modal/BasicModal.tsx:185-197 | the draft is merged without validation into the records with the active id; ids and the length are kept; other records are unchanged; edit mode is left and the draft is cleared |
| Modal.BasicModal.DeleteData | src/components/Modal/BasicModal.tsx:199-202 | the store loses exactly the records with that id and keeps the rest in order; an absent id changes nothing |

## Left out

- The JSX tree, Material UI styling, and opening and closing the modal (`handleOpen`, `handleClose`, `open`) are left out. They change no data.
- `handleDropOver` is left out. It only calls `preventDefault` on the event.
- The `Card` component is not part of this model. The drag payload it writes into `DataTransfer` and the `JSON.parse` of that payload are reduced to the dropped record's id, which `HandleDrop` takes as a parameter.
- `Date.now().toString()` becomes the `freshId` parameter of `HandleClick`. Clocks are outside the model, so a new id is not guaranteed to be unique.
- React's asynchronous, batched state updates are left out. Each handler is modelled as one atomic transition on the state it read.
- Modal.BasicModal.HandleClick: it requires that the component is not in edit mode. The Save button that calls `handleClick` is rendered only then (lines 276-298). While editing, the draft may hold a numeric age, and `data.age.trim()` would throw, which the model does not capture.
- JsString.ToLower: it maps a character only where the lower case is an ASCII letter: A-Z, and U+212A KELVIN SIGN to 'k'. Every other character is kept. The lower cases it leaves out are non-ASCII. One of them, U+0130, even lowers to two characters. The pattern treats such a character the same before and after lower-casing: it excludes it from host labels either way, and allows it in the local part either way, because it is not white space and not one of the excluded ASCII characters.
- JsString.ParseInt: it returns the exact integer. It does not round to a double, so values above 2^53 are not rounded as JavaScript rounds them. No column bound comes near that size.
- An age that does not parse lands in no column, because every comparison with `NaN` is false. The model follows that behaviour. It does not treat such an age as 0.
