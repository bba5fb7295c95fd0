# Event registration form: the draft and its submission

A model of the data logic of the event registration form in `src/App.js`.
The form keeps one draft record of the registration. The record is a
JavaScript object with a fixed set of properties in a fixed order.

- When the page loads, the four event properties are seeded from the
  page's query parameters.
- Each field change replaces the property it edits.
- The dietary selector stores the comma-joined identifiers of the
  selected options. It clears the free-text field unless "Other (free
  text)" is among them. The free-text field is shown while the stored
  selection contains that text.
- On submit the form builds the outbound record:
  - it copies the draft;
  - the free text, when there is any, replaces the dietary selection;
  - it deletes the free-text and terms properties;
  - a loop deletes every property whose value is "";
  - the rest is serialized with `URLSearchParams` and appended to a fixed
    endpoint after a "?".

The model has six modules:

- `Strings` (`strings.dfy`): `join`, `split` and `includes` for a
  one-character separator.
- `FormRecord` (`form_record.dfy`): the record as an ordered list of
  properties with distinct names. Assigning an existing property keeps its
  position; assigning a new one appends it. `delete` removes a property. A
  missing property reads as `undefined`. The record also gives JavaScript
  truthiness, `||`, and the string conversion `URLSearchParams` applies to
  values.
- `FormUrlencoded` (`form_urlencoded.dfy`): the
  `application/x-www-form-urlencoded` serializer of the WHATWG URL
  Standard (section 5.2), at the byte level, with UTF-8 as in section 3
  of RFC 3629. Its partner is the byte-level decoding step of the same
  standard's parser (section 5.1). A round trip is proved between them.
- `Registration` (`registration.dfy`): the dietary catalogue, the initial
  draft, seeding, the three change handlers and the "please specify"
  test.
- `FormEvents` (`form_events.dfy`): sequences of user interactions
  replayed through the handlers. This gives the drafts the form can
  reach.
- `Submission` (`submission.dfy`): `handleFormSubmit` as a method with
  the clean-up loop, and the properties of what it sends.

The seeding and the handlers are React state updaters that build a new
record by spread. They are functions from the old draft to the new one.
The submit handler changes a copy of the record step by step, so it is a
method. Its loop deletes entries from the copy while walking a snapshot
of the copy's names. The method is proved equal to a specification
function, `Submission.Outbound`. The properties of the outbound pairs are
proved about that function.

The percent-encoding is defined in full, not left abstract. The model has
no bodiless functions, and the standard fixes the algorithm.

## Model

| member | source | states |
|---|---|---|
| FormRecord.ToString | src/App.js:78 | a value becomes "" exactly when it is the empty string; strings are kept, booleans become "true"/"false", `undefined` becomes "undefined" |
| FormRecord.Get | src/App.js:67 | reading a property gives the value stored under that name, and `undefined` when the record has no such property |
| FormRecord.Set | src/App.js:54-60 | assignment keeps the names (and their order) when the property exists and appends the name otherwise; the property reads back as the new value and every other property reads as before |
| FormRecord.SetMembers | src/App.js:65-68 | after an assignment the record's properties are the new one plus every old property with a different name |
| FormRecord.Delete | src/App.js:69-70 | `delete` removes exactly the named property: the names left are the old ones minus that one, in their order, and every other property reads as before |
| FormRecord.DropEmpty | src/App.js:72-76 | the properties kept are exactly those whose value is not "", in their order, with distinct names |
| FormRecord.FilterProperties | src/App.js:72-76 | filtering keeps exactly the accepted properties, as a subsequence of the names, without duplicates |
| FormRecord.DeleteAt | src/App.js:73-74 | reading the property at the loop's position gives its value, and deleting it removes exactly that entry and leaves the entries on either side in place |
| FormRecord.LastOfSubsequence | src/App.js:54-60 | when the last name of a list occurs nowhere else in it, any subsequence containing that name ends with it |
| Strings.Join | src/App.js:97 | joining no elements gives "", one element gives that element |
| Strings.Split | src/App.js:97 | splitting gives at least one piece and no piece contains the separator |
| Strings.SplitJoin | src/App.js:97 | splitting a non-empty joined list at the separator gives back the list when no element contains the separator |
| Strings.JoinContainsElement | src/App.js:156 | a joined string contains each of its elements |
| Strings.CharOfJoin | src/App.js:156 | every character of a joined string other than the separator comes from one of the elements |
| FormUrlencoded.EncodeByte | src/App.js:78 | one byte encodes to one to three ASCII characters, never `&` or `=` |
| FormUrlencoded.Encode | src/App.js:78 | a name or value encodes to ASCII text without `&` or `=`, empty exactly when the input is empty |
| FormUrlencoded.Serialize | src/App.js:78 | the query string is empty exactly when there are no pairs |
| FormUrlencoded.DecodeEncodeBytes | src/App.js:78 | decoding the percent-encoding of any byte string gives back those bytes |
| FormUrlencoded.SerializeParsesBack | src/App.js:78 | splitting the query at `&` gives one item per pair, splitting an item at `=` gives its encoded name and value, and decoding those gives the UTF-8 bytes of the original name and value |
| Registration.ParamGet | src/App.js:56-59 | `URLSearchParams.get` finds nothing exactly when no parameter has the name, and otherwise the value of the first parameter with that name |
| Registration.ParamOrEmptyIsFirstValue | src/App.js:56-59 | the parameter read with "" as fallback is "" when the parameter is missing, and otherwise the first such parameter's value |
| Registration.Seed | src/App.js:52-61 | each of the four event properties reads as its parameter (or "" when missing or empty); every other property reads as before |
| Registration.SeededInitialKeys | src/App.js:31-60 | seeding the initial draft keeps the fifteen initial names in their order and appends `eventId` last |
| Registration.InitialDietaryRequirements | src/App.js:41 | the initial dietary selection is "" |
| Registration.SeededInitialDraft | src/App.js:31-60 | the seeded initial draft has the seeded names and an empty dietary selection |
| Registration.HandleInputChange | src/App.js:86-92 | the named property becomes `checked` for a checkbox and `value` otherwise; every other property reads as before; the names and their order do not change when the property exists |
| Registration.HandleMobileChange | src/App.js:143 | `mobile` becomes the new number; every other property reads as before; the names and their order do not change when `mobile` exists |
| Registration.HandleDietaryRequirementsChange | src/App.js:94-102 | the selection becomes the selected identifiers joined by "," in selection order ("" for none, the identifier itself for one); the free text is kept exactly when "Other (free text)" is selected and is "" otherwise; every other property reads as before, and the names and their order do not change when both properties exist |
| Registration.CatalogueValues | src/App.js:19-28 | no catalogue value contains ","; only the free-text option's value contains the letter `O` |
| Registration.VegetarianIsIdentifier | src/App.js:20 | the value is made of lower-case hex digits and hyphens |
| Registration.VeganIsIdentifier | src/App.js:21 | the value is made of lower-case hex digits and hyphens |
| Registration.GlutenFreeIsIdentifier | src/App.js:22 | the value is made of lower-case hex digits and hyphens |
| Registration.DairyFreeIsIdentifier | src/App.js:23 | the value is made of lower-case hex digits and hyphens |
| Registration.NutAllergyIsIdentifier | src/App.js:24 | the value is made of lower-case hex digits and hyphens |
| Registration.HalalIsIdentifier | src/App.js:25 | the value is made of lower-case hex digits and hyphens |
| Registration.NoBeefOrPorkIsIdentifier | src/App.js:26 | the value is made of lower-case hex digits and hyphens |
| Registration.DietarySelectionRecoverable | src/App.js:97 | after a non-empty selection from the catalogue, splitting the stored selection at "," gives back the selected identifiers in order |
| Registration.OtherFieldShownIffSelected | src/App.js:156 | after a selection from the catalogue, the "please specify" field is shown if and only if "Other (free text)" is selected |
| FormEvents.InputFieldsAreSeeded | src/App.js:140-170 | every field wired to `handleInputChange` is an initial property, not an event field and not the dietary selection |
| FormEvents.ApplyKeepsShape | src/App.js:86-102 | a handler applied to a draft that has the properties it writes keeps the names, their order and the event fields, and keeps the dietary selection a string |
| FormEvents.ApplyKeepsSeeded | src/App.js:86-102 | every handler the form wires up keeps a seeded draft seeded |
| FormEvents.ReplayKeepsSeeded | src/App.js:86-102 | any sequence of such changes keeps a seeded draft seeded |
| FormEvents.ReachableDraftsAreSeeded | src/App.js:52-61 | every draft the form reaches after seeding has the seeded names in order, `eventId` last, and the event properties as the parameters set them |
| Submission.CleanupStep | src/App.js:72-76 | in the loop, the current property reads as its own value, and deleting it when it is "" extends the cleaned prefix by one entry |
| Submission.DropEmptyStep | src/App.js:72-76 | dropping empty properties from one more entry appends that entry exactly when it is not "" |
| Submission.RemoveEmptyProperties | src/App.js:72-76 | the loop leaves exactly the properties whose value is not "", in their order |
| Submission.HandleFormSubmit | src/App.js:63-81 | the query pairs are those of the override copy without the free-text and terms properties and without empty properties, and the URL is the endpoint, "?" and their serialization |
| Submission.PairKeysOfToPairs | src/App.js:78 | handing the record to `URLSearchParams` keeps its names in order |
| Submission.FilteredMembers | src/App.js:65-70 | after the override and the two deletions the copy has exactly the submitted value under each name of the draft and under `dietaryRequirements`, minus the two deleted names |
| Submission.OutboundMembers | src/App.js:65-76 | the properties sent are exactly the non-empty submitted values under the draft's names and `dietaryRequirements`, minus the two form-local names |
| Submission.OutboundNames | src/App.js:65-78 | a name is sent if and only if it is a property of the draft or `dietaryRequirements`, is neither the free text nor the terms, and its submitted value is not "" |
| Submission.OutboundValues | src/App.js:65-78 | each pair sent carries the string form of its name's submitted value, which is never "" |
| Submission.OutboundExcludesFormLocal | src/App.js:69-70 | neither `otherDietaryRequirement` nor `termsAndConditionsAccepted` is ever sent |
| Submission.OutboundNamesDistinct | src/App.js:72-78 | no name is sent twice |
| Submission.DraftFieldSentOnce | src/App.js:72-76 | every other property with a non-empty value is sent exactly once, with its value |
| Submission.DietaryOverride | src/App.js:65-68 | `dietaryRequirements` is sent as the free text when that is truthy, otherwise as the selection when that is not "", and is not sent when both are "" |
| Submission.OutboundOrder | src/App.js:65-78 | the names sent are a subsequence of the draft's names (with `dietaryRequirements` appended when the draft lacks it) |
| Submission.LastPropertySentLast | src/App.js:54-78 | when the draft's last property is a non-empty `eventId`, it is the last pair sent |
| Submission.SeededDraftSendsEventIdLast | src/App.js:54-78 | a seeded draft opened with a non-empty `eventId` parameter sends that `eventId` last |
| Submission.UrlShape | src/App.js:79-81 | the URL is the endpoint, then "?", then the query string, and it is exactly the endpoint followed by "?" when nothing is sent |

## Left out

- Rendering, the terms modal, its `openModal` toggle and the success snackbar are user interface with no data contract (src/App.js:104-264, 83).
- Reading `window.location.search` and assigning `window.location.href` are browser I/O. The parameters are an input (a list of name/value pairs in order). The URL is an output.
- The phone normalisation of `MuiTelInput` and the internals of `Autocomplete` are library code outside this file. The phone handler takes the already-normalised string. A dietary selection is any list of catalogue options, in the order the selector reports them.
- The browser's required-field, e-mail and checkbox validation runs before submit and is not part of this code.
- React's scheduling is not modelled. Updaters are applied one after another. The mobile handler spreads the `formData` of its render rather than the previous state; the model treats it like an updater on the current draft.
- `FormRecord.Set`: JavaScript puts integer-like property names before all others. No property name here is integer-like, so every assignment of a new name appends it.
- `FormUrlencoded.Utf8`: Dafny characters are Unicode scalar values. The replacement of lone surrogates by U+FFFD is not modelled.
- `FormUrlencoded.SerializeParsesBack`: the round trip goes down to the UTF-8 bytes of each name and value. Decoding those bytes back to text is not modelled.
- `Registration.ShowsOtherField`: a non-string dietary selection counts as not showing the field. In JavaScript, `includes` on a boolean or `undefined` would throw. Every reachable draft keeps the selection a string (`FormEvents.ReachableDraftsAreSeeded`).
- `Submission.SeededDraftSendsEventIdLast`: "`eventId` is sent last" is stated for seeded drafts. `FormEvents.ReachableDraftsAreSeeded` shows every reachable draft is seeded. The two are not combined into one lemma about replayed drafts.
