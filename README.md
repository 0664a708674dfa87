# Page logic of the JavaScript feature demo, in Dafny

This project models the rules beneath four small browser pages: a contact form, a quiz, a quiz-admin editor and a searchable table. The DOM, fetch and download plumbing around them is not modelled.

- `wrappers.dfy`: `Option`.
- `types.dfy`: the `QuizQuestion` record (`question`, `choices`, `answer`).
- `sequences.dfy`: subsequences.
- `js_string.dfy`: the JavaScript builtins the pages rely on.
  - `trim`, with the full ECMAScript whitespace set.
  - `split` on one character, and `join`.
  - `toLowerCase` on ASCII letters.
  - `includes`.
- `contact.dfy`: the contact page.
  - The three input patterns. The email pattern is stated twice: as the language of the regular expression (some split into local part, domain and top-level part), and as a deterministic check. The two are proved equivalent.
  - The ordered, non-short-circuiting error list and the `validated` flag.
  - Local storage as a map from keys to parsed values.
  - Appending a submission.
  - Saving the contacts file.
  - Finding a submission by its printed id.
  - The empty-guards of the two bulk downloads.
  - Clearing the three keys of the page.
  - `ContactForm` is a class over the storage and the flag. Its methods are proved against the pure functions that describe each new state.
- `admin.dfy`: the admin page.
  - The choices parser (split on commas, trim, drop blanks). It keeps order. It round-trips with the `join(', ')` the edit field displays.
  - `QuizEditor` holds `quizData`. Its methods model the three field-edit handlers, delete by `splice`, and the guarded append of the add form.
- `quiz.dfy`: `evaluateQuiz` as a counting loop, proved equal to a recursive count.
  - The count is the number of correctly answered positions.
  - It is bounded by the number of questions.
  - It does not depend on the order of the questions.
- `filter.dfy`: `filterRows` as an in-place loop over an array of rows.
  - A row is shown exactly when its lower-cased text contains the term.
  - `distinctUntilChanged` is a pure sequence function.
  - Over a stream of typed values, the table ends up showing the rows that match the last value typed.

Some facts about the code as written are stated as lemmas and contracts:
- The contacts-file copy is rebuilt from `contacts.json` on every submit, not from the earlier stored copy (`Contact.ContactsFileKeepsOnlyLatestWhenUnfetched`).
- A submit whose contacts-file save throws reports failure, although the submission is already in local storage (`Contact.ContactForm.Submit`).

The model follows the code as written:
- The question edit handler stores the raw, untrimmed text (admin.js:52).
- The add form does not check that the answer is one of the choices (admin.js:128).
- Scoring yields only the count: the page shows "score out of total", with no percentage and no result band (quizquestions.js:93).

## Model

| member | source | states |
|---|---|---|
| JsString.Trim | contact-assignment-complete.js:51-56 | the result has no whitespace at either end and is no longer than the input |
| JsString.TrimIsInfix | contact-assignment-complete.js:55 | trim returns a slice of the input, and only whitespace lies outside that slice |
| JsString.TrimAddsNothing | admin.js:63 | a character absent from the input is absent from its trim |
| JsString.TrimOfTrimmed | admin.js:127 | a string with no whitespace at either end is its own trim |
| JsString.TrimAfterWhitespace | admin.js:124-127 | whitespace in front of an already trimmed string is exactly what trim removes |
| JsString.TrimIdempotent | admin.js:127 | trimming twice is trimming once |
| JsString.Join | admin.js:59 | the joined text starts with the first part |
| JsString.Split | admin.js:62 | split always yields at least one part, and no part contains the separator |
| JsString.SplitThenJoin | admin.js:61-62 | joining the parts with the separator gives back the input |
| JsString.JoinThenSplit | admin.js:59-62 | splitting a join of separator-free parts gives back the parts |
| JsString.ToLower | filter.js:29 | the length is kept; every character is lower-cased, which changes only upper-case ASCII letters |
| JsString.ToLowerIdentifiesCase | filter.js:34 | two strings lower-case to the same text iff they differ only in letter case |
| JsString.IncludesIsSubstring | filter.js:30 | `includes` holds iff the term occurs at some index of the text |
| JsString.Includes | filter.js:30 | the empty term is always included, and an included term is no longer than the text |
| Contact.IsValidPhone | contact-assignment-complete.js:100 | `/^\d{10}$/`: an accepted phone has exactly 10 characters and no whitespace at either end |
| Contact.IsValidEmail | contact-assignment-complete.js:102 | an accepted address holds '@' and '.' and has no whitespace at either end; IsValidEmailMatchesPattern gives the exact language |
| Contact.IsValidZip | contact-assignment-complete.js:104 | `/^\d{5}$/`: an accepted zip has exactly 5 characters and no whitespace at either end |
| Contact.IsValidEmailMatchesPattern | contact-assignment-complete.js:102 | the deterministic check accepts exactly the strings that split as non-empty `[\w.-]` local part, '@', non-empty `[\w.-]` domain, '.', and two or more ASCII letters |
| Contact.RejectsWithoutAt | contact-assignment-complete.js:102 | an address without '@' is rejected |
| Contact.RejectsWithoutDot | contact-assignment-complete.js:102 | an address without '.' is rejected |
| Contact.RejectsEmptyLocalPart | contact-assignment-complete.js:102 | an address that starts with '@' is rejected |
| Contact.PhoneExamples | tests/contact-form.test.js:163-176 | the phone pattern accepts '1234567890' and rejects the short, long, alphabetic and dashed inputs |
| Contact.ZipExamples | tests/contact-form.test.js:194-207 | the zip pattern accepts '12345' and rejects '1234', '123456', 'abcde' and '12-345' |
| Contact.EmailExampleAccepted | tests/contact-form.test.js:178-192 | 'test@example.com' is accepted |
| Contact.EmailExampleWithDottedParts | tests/contact-form.test.js:178-192 | 'user.name@domain.co.uk' is accepted |
| Contact.EmailExamplesRejected | tests/contact-form.test.js:178-192 | 'invalid-email', '@example.com', 'test@' and 'test.example.com' are rejected |
| Contact.ValidationErrors | contact-assignment-complete.js:99-105 | at most three messages; each message is present iff its check fails; the order is phone, email, zip; the list is empty iff all three checks pass |
| Contact.CollectErrors | contact-assignment-complete.js:99-105 | the messages pushed one check at a time form exactly the ordered error list |
| Contact.AllThreeFieldsInvalid | contact-assignment-complete.js:99-105 | three failing fields give all three messages in order; no check is skipped |
| Contact.StoredSubmissions | contact-assignment-complete.js:171-174 | a missing key reads as the empty array, and a stored array reads as itself |
| Contact.SavedSubmissions | contact-assignment-complete.js:339-346 | a missing key gives the empty list, a stored array gives itself, and a non-empty result is always exactly the stored array |
| Contact.AfterLocalSave | contact-assignment-complete.js:166-195 | when the stored value reads as an array, the new array is the old one with the submission at the end; otherwise nothing changes; no other key changes |
| Contact.LocalSaveKeepsEarlierEntries | contact-assignment-complete.js:171-185 | the earlier saved submissions stay, in place, as a prefix of the new list |
| Contact.ContactForm.SaveToLocalStorage | contact-assignment-complete.js:166-195 | the storage becomes the one the local save describes |
| Contact.AfterContactsFileSave | contact-assignment-complete.js:201-241 | it fails iff the fetched body has no submissions array; otherwise the fetched (or empty) list plus the submission is stored under 'contactsFileData', the URL is stored under 'contactsFileDownloadUrl', and no other key changes |
| Contact.ContactForm.SaveToContactsFile | contact-assignment-complete.js:201-241 | reports success iff the push succeeds; on success the storage is the described one, and on failure it is unchanged |
| Contact.ContactsFileSaveKeepsSubmissions | contact-assignment-complete.js:219-234 | the contacts-file save leaves the saved-submissions array alone |
| Contact.ContactsFileKeepsOnlyLatestWhenUnfetched | contact-assignment-complete.js:206-224 | when contacts.json cannot be fetched, a second save leaves only the second submission in the contacts file |
| Contact.ContactForm.Submit | contact-assignment-complete.js:88-159 | inputs are trimmed; `validated` is true iff the error list is empty; with errors nothing is saved and the errors are reported; otherwise the submission is saved locally, then to the contacts file, and the outcome is success iff the second save succeeds |
| Contact.DecimalString | contact-assignment-complete.js:250 | an id prints as a non-empty string of decimal digits, one digit long iff the id is below 10 |
| Contact.DecimalRoundTrip | contact-assignment-complete.js:250 | reading back the printed id gives the id |
| Contact.DecimalStringInjective | contact-assignment-complete.js:250 | two ids print alike only if they are equal |
| Contact.FindSubmission | contact-assignment-complete.js:249-255 | returns the first submission whose printed id equals the requested id; returns none iff no submission matches |
| Contact.SubmissionToDownload | contact-assignment-complete.js:247-262 | a submission found is one of the saved ones and prints as the requested id; "not found" happens iff no saved submission prints as that id |
| Contact.DownloadFindsNewSubmission | contact-assignment-complete.js:247-255 | after a local save, looking up the printed id of the new submission finds that submission, provided no earlier one has the same id |
| Contact.AllSubmissionsExport | contact-assignment-complete.js:413-419 | it refuses iff no submission is saved; otherwise it exports exactly the saved list, which is non-empty |
| Contact.ContactsFileExport | contact-assignment-complete.js:267-274 | a missing key gives the "none found" refusal; a stored file object is exported when its list is non-empty and refused when it is empty; an export holds exactly the stored list; failure happens iff the stored value is neither the file object nor empty text |
| Contact.AfterClear | contact-assignment-complete.js:454-462 | exactly the three page keys are removed and every other entry is kept; afterwards both downloads refuse |
| Contact.ContactForm.ClearSavedSubmissions | contact-assignment-complete.js:454-462 | the keys are cleared when confirmed, and nothing changes otherwise |
| Admin.TrimAll | admin.js:63 | a new list of the same length holding the trimmed form of each piece at the same position |
| Admin.TrimmedNonBlank | admin.js:63-64 | every kept element is non-empty and trimmed, and there are no more of them than pieces |
| Admin.TrimmedNonBlankCommaFree | admin.js:61-64 | pieces without a comma give kept elements without a comma |
| Admin.ParseChoices | admin.js:61-64 | every parsed choice is non-empty, trimmed and free of commas |
| Admin.TrimmedNonBlankKeepsOrder | admin.js:63-64 | the result is a subsequence of the trimmed pieces |
| Admin.TrimmedNonBlankKeepsNonBlank | admin.js:63-64 | every piece whose trim is non-empty appears, trimmed, in the result |
| Admin.TrimmedNonBlankAppend | admin.js:63-64 | filtering a concatenation of piece lists is concatenating the filtered lists |
| Admin.TrimmedNonBlankCount | admin.js:63-64 | the result has one entry per piece that does not trim to the empty string, so repeated choices are all kept |
| Admin.ParseChoicesKeepsOrder | admin.js:61-64 | the choices form a subsequence of the trimmed comma-separated pieces, every non-blank trimmed piece is among them, and there are exactly as many choices as non-blank pieces, so the choices are exactly the non-blank trimmed pieces in order |
| Admin.RenderedChoicesParseBack | admin.js:59-65 | parsing the displayed `join(', ')` of parsed choices gives back the same choices |
| Admin.ParseChoicesExample | admin.js:127 | 'a, b,,c' parses to a, b, c |
| Admin.RemoveAt | admin.js:81 | length drops by one; earlier records stay, later records shift down one place; exactly one copy of the removed record leaves the multiset |
| Admin.QuizEditor.Delete | admin.js:80-83 | an index in range removes that record; an index past the end changes nothing |
| Admin.QuizEditor.EditQuestion | admin.js:51-53 | only the question of record i changes, to the raw input |
| Admin.QuizEditor.EditChoices | admin.js:60-65 | only the choices of record i change, to the parsed input, which is well formed |
| Admin.QuizEditor.EditAnswer | admin.js:72-74 | only the answer of record i changes, to the trimmed input |
| Admin.QuizEditor.Load | admin.js:23-31 | the fetched records replace the list |
| Admin.NewQuestion | admin.js:124-132 | a record is produced iff the trimmed question is non-blank, two or more choices parse and the trimmed answer is non-blank; that record is well formed and holds the trimmed question and answer and the choices parsed from the trimmed choices field |
| Admin.NewQuestionRefusesBlankQuestion | admin.js:128-131 | a question of only spaces is refused |
| Admin.NewQuestionRefusesOneChoice | admin.js:127-131 | a single choice is refused |
| Admin.NewQuestionTrimsFields | admin.js:124-132 | ' Q', 'a,c', 'b' gives the record Q, [a, c], b, although b is not a choice |
| Admin.QuizEditor.AddQuestion | admin.js:119-137 | when the form is accepted, exactly the checked record is appended; otherwise the list is unchanged |
| Quiz.IsCorrect | quizquestions.js:87 | a question counts iff a choice is selected and its value equals the answer exactly |
| Quiz.CountCorrect | quizquestions.js:85-90 | the count never exceeds the number of questions |
| Quiz.EvaluateQuiz | quizquestions.js:83-90 | the loop's score equals the count of correct answers and is at most the number of questions |
| Quiz.CountIsNumberOfCorrectIndices | quizquestions.js:85-90 | the score is the number of positions whose selection equals the answer |
| Quiz.NoSelectionScoresZero | quizquestions.js:86-87 | with nothing selected the score is 0 |
| Quiz.AllCorrectScoresFull | quizquestions.js:85-90 | selecting every answer scores every question |
| Quiz.FixingOneSelectionAddsOne | quizquestions.js:87-88 | turning one wrong selection into the answer raises the score by exactly one |
| Quiz.CountMatchingIgnoresOrder | quizquestions.js:85-90 | the count of correct (question, selection) pairs depends only on the multiset of pairs |
| Quiz.ScoreIgnoresQuestionOrder | quizquestions.js:85-90 | permuting questions together with their selections keeps the score |
| Quiz.SwapKeepsScore | quizquestions.js:85-90 | swapping two questions with their selections keeps the score |
| Quiz.TwoOfThreeExample | quizquestions.js:85-90 | the first and third of three questions answered correctly scores 2 |
| Filter.IsShown | filter.js:29-30 | the empty term shows every row, and a shown row's text is at least as long as the term |
| Filter.Filtered | filter.js:27-31 | the rows and their texts are kept, in order |
| Filter.FilterRows | filter.js:26-32 | the array, updated in place, becomes the filtered rows |
| Filter.ShownIffSubstring | filter.js:29-30 | a row is shown iff the term occurs in its lower-cased text |
| Filter.EmptyTermShowsAll | filter.js:30 | the empty term shows every row |
| Filter.UnmatchedTermHidesAll | filter.js:30 | a term found in no row hides every row |
| Filter.LatestTermDecides | filter.js:27-31 | each filtering decides every row afresh, so the earlier term has no effect |
| Filter.FilterIdempotent | filter.js:27-31 | filtering twice with the same term is filtering once |
| Filter.CaseOfInputIrrelevant | filter.js:34 | typed values that differ only in case show the same rows |
| Filter.FilterExample | filter.js:29-30 | the term 'weakmap' shows the 'WeakMap' row and hides the 'Proxy' row |
| Filter.UpperCaseQueryExample | tests/filter.test.js:110-118 | 'WEAKMAP' shows the WeakMap row and hides the other |
| Filter.DistinctAfter | filter.js:34 | after a last emitted value, no more values are passed on than come in |
| Filter.DistinctUntilChanged | filter.js:34 | no more values are passed on than come in, and something is passed on iff something comes in |
| Filter.FirstOfEachRun | tests/filter.test.js:302-321 | the reference reading: a value is passed on iff it is the first or differs from the one before it; never longer than the input |
| Filter.DistinctAfterSnoc | filter.js:34 | a value arriving after others is passed on iff it differs from the last value seen |
| Filter.DistinctUntilChangedIsFirstOfEachRun | filter.js:34 | distinctUntilChanged passes on exactly the first value of every run of equal values, in order |
| Filter.DistinctUntilChangedShape | filter.js:34 | the output is a subsequence of the input, has no equal neighbours, starts with the first input, and holds every input value |
| Filter.DistinctUntilChangedKeepsLast | filter.js:34 | the last value passed on is the last input |
| Filter.DistinctUntilChangedIdempotent | filter.js:34 | applying the operator twice is applying it once |
| Filter.DistinctUntilChangedExample | tests/filter.test.js:302-321 | a, a, b, b, b, c, c becomes a, b, c |
| Filter.LowerAll | filter.js:34 | the map stage gives a new list of the same length with each value lower-cased at its position |
| Filter.SearchTerms | filter.js:34 | no more terms reach filterRows than values are typed, and after any typing the last term is the last typed value lower-cased |
| Filter.FilteredByEach | filter.js:34 | running filterRows once per term keeps the rows and their texts, in order |
| Filter.FilteredByEachIsLast | filter.js:34 | running filterRows once per term leaves the rows as the last term alone would |
| Filter.TypedSearchShowsLastValue | filter.js:34 | after a stream of typed values, the rows shown are those matching the last value lower-cased; dropping repeats changes nothing |

## Left out

- DOM work is not modelled: element lookup, `innerHTML` messages, alerts, button wiring and rendering. `confirm` is a boolean parameter.
- Network I/O is reduced to parameters. For `fetch('contacts.json')`, `Contact.ContactsFetch` gives the outcome. For `fetch('/api/quiz')`, the parsed records are passed to `Load`.
- The admin "Save All Changes" POST sends `quizData` to the server and does not change the state, so it is not modelled.
- Blob downloads, `URL.createObjectURL` and timestamped file names are browser APIs. They are reduced to the list that would be written and a `url` parameter.
- The clock is a parameter. `Date.now()` ids and ISO timestamps are passed in (`now`, `timestamp`).
- The console-logging Proxy around the inputs only logs, and the WeakMap entry becomes a plain `validated` field.
- JSON text is not modelled. Stored entries are parsed values; any stored text other than the empty string stands for text that `JSON.parse` rejects.
- `debounceTime(300)` is timer-driven. Only the value stages `map` and `distinctUntilChanged` are modelled.
- JsString.ToLower: folds only ASCII letters, not the full Unicode case mapping of `toLowerCase`.
- Contact.StoredSubmissions: a stored JSON value that parses but is neither an array nor the contacts-file object (a number, say) is not represented.
- Contact.AllSubmissionsExport: a parsed non-array value under 'contactSubmissions' reads as the empty array, although the page would try to export it.
- Contact.SavedSubmissions: when the stored value parses to something other than an array (the contacts-file object, say), `getSavedSubmissions` returns that value, while the model returns the empty list.
- Contact.SubmissionToDownload: for such a stored value the page's `find` throws and shows a failure alert; the model, reading the empty list, answers "not found".
- Contact.DecimalString: ids of 10^21 or more, which `toString` writes in exponent form, are printed as plain digits.
- Contact.ContactForm.Submit: the three fields are given as strings, so the error thrown by `getInputValue` for a missing element is not modelled.
- Contact.ContactForm.Submit: runs as one step. The handler's awaits (on `saveToContactsFile`, `fetch` and `response.json()`) fall between the local save and the two contacts-file writes. Other handlers that run during them, such as a confirmed clear or a second submit, are not interleaved, so the model does not show the contacts-file keys being written back after such a clear.
- Quiz.EvaluateQuiz: takes exactly one optional selection per question, as the radio groups rendered for `quizData` provide.
- Admin.QuizEditor.EditQuestion: requires the index to be in range; the page re-renders after every delete and add, so handlers exist only for current records.
- Admin.QuizEditor.EditChoices: requires the index to be in range, for the same reason.
- Admin.QuizEditor.EditAnswer: requires the index to be in range, for the same reason.
- Filter.FilterRows: a row with no text content, which the page treats as '', is represented by its empty text.
