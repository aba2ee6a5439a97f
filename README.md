# Cyber-security quiz app: a verified model of its logic

The application is a React single-page quiz trainer. An administrator keeps a
question bank, organised by module and sub-topic, and can edit, import and
export it. Learners take quizzes, see each answer checked with an
explanation, and get a results scorecard. This project models the logic
behind those screens in Dafny and proves what that logic promises:

- **App** (`app.dfy`) covers the top-level orchestrator:
  - the question bank, kept as JSON because imports store whatever parses;
  - saving one sub-topic's list into the bank;
  - the whole-bank and sub-topic import validators;
  - the export guards and the file-name slug;
  - the module-visibility map: its defaults, the persisted override and the toggle;
  - the completed-modules set, which grows only after a full-module quiz.
- **QuizView** (`quiz_view.dfy`) covers one quiz run: index, selection, check and next. It also holds the option colouring.
- **MarkdownRenderer** (`markdown_renderer.dfy`) covers the explanation renderer at line level. Lines become bullet items, call-outs, paragraphs or nothing, and runs of items are grouped into lists.
- **QuestionManager** (`question_manager.dfy`) covers the draft editor: upsert by id, delete by id, save and close.
- **QuizResultsView** (`quiz_results_view.dfy`) covers the scorecard classifiers: elapsed time, score colour, speed label, heading message, wrong-answer count and review list.
- **QuizCustomizationModal** (`quiz_customization_modal.dfy`) covers the question-count dialog: its entry and message, the reset on opening, and the submit guard.
- The shared modules are:
  - `JsText`: JavaScript whitespace, UTF-16 length, decimal text and `parseInt`.
  - `JsonValue`: JSON values and JavaScript truthiness.
  - `Types`: questions, answers, results and their JSON encoding.
  - `Wrappers`: `Option` and `Result`.

Components whose fields change step by step are Dafny classes whose methods
state the new state. The pure classifiers are functions, with lemmas that
relate them to inverses, to invariants or to one another.

## Model

| member | source | states |
|---|---|---|
| JsText.NatToDecimal | components/QuizResultsView.tsx:20 | The decimal text of a number is a non-empty run of digits with no leading zero. |
| JsText.DecimalValueOfNatToDecimal | components/QuizResultsView.tsx:20 | Reading a number's decimal text back gives the number. |
| JsText.IntToDecimalInjective | App.tsx:111 | Distinct integer module ids become distinct object keys. |
| JsText.TrimStart | components/QuizCustomizationModal.tsx:36 | `parseInt` first drops a leading run of whitespace and nothing else: the rest is a suffix that does not start with whitespace. |
| JsText.DigitPrefix | components/QuizCustomizationModal.tsx:36 | The digits `parseInt` reads are the longest digit prefix. |
| JsText.ParseInt | components/QuizCustomizationModal.tsx:36 | `parseInt` of blank text, the empty string included, is NaN. A number comes back only from text that holds a digit, and a negative number only from text that holds a '-'. What the number is comes from `ParseIntOfDigits` and `ParseIntOfIntToDecimal`. |
| JsText.ParseIntOfDigits | components/QuizCustomizationModal.tsx:36 | Digits followed by a non-digit parse as the digits' value. |
| JsText.ParseIntOfIntToDecimal | components/QuizCustomizationModal.tsx:36 | Parsing an integer's own text, negative or not, gives the integer back. |
| JsText.ParseIntTruncatesFraction | components/QuizCustomizationModal.tsx:36 | Text of the form "n.f" parses to n. |
| JsonValue.Property | App.tsx:203-206 | A property read gives a value exactly when the value is an object that has the key, and that value is the key's field. |
| Types.EncodeQuestion | App.tsx:117-122 | A stored question is an object whose `id`, `question`, `options` and `correctAnswer` hold the question's fields. A present explanation is stored under `explanation`, and the object has no other keys. |
| Types.EncodeQuestions | App.tsx:117-122 | A stored list is an array of the questions' objects, in order. |
| App.PutSubTopic | App.tsx:117-124 | Saving under (m, s) gives a bank whose `[m][s]` is the new list. Nothing else changes: no other module, and no other sub-topic of m. A missing or falsy module entry first becomes `{}`. The save fails, leaving the bank as it was, exactly when the entry is a truthy non-object. |
| App.PutSubTopicKeepsOtherModules | App.tsx:118-122 | A save under module m leaves every sub-topic of every other module as it was. |
| App.ImportedBank | App.tsx:151-161 | A whole-bank import succeeds exactly when the parse succeeded and gave an object. That object becomes the bank, unvalidated. A non-object is refused. |
| App.ImportedSubTopic | App.tsx:199-221 | A sub-topic import succeeds exactly when the value is an array, element 0 passes the question test (or the array is empty) and the store succeeds. Afterwards only `[m][s]` has changed. |
| App.ImportIgnoresTrailingElements | App.tsx:202-207 | The import verdict depends on element 0 only. |
| App.EncodedQuestionsImportable | App.tsx:202-207 | A saved list passes the import test exactly when it is empty or its first question has a non-empty id, text and correct answer. |
| App.ExportedBank | App.tsx:126-138 | Export is refused exactly when the bank has no keys. Otherwise the file is the fixed bank file name. |
| App.BankExportImportRoundTrip | App.tsx:126-161 | Exporting a non-empty bank and importing the file gives the same bank back. With `JSON.stringify` and `JSON.parse` abstracted away, this holds by construction: the payload is the bank object, and import reads its fields. It is a sanity check on `ExportedBank` and `ImportedBank` fitting together, not a claim about the JSON text. |
| App.SlugOf | App.tsx:183 | An upper-case ASCII letter maps to its lower-case letter, and a lower-case letter or digit maps to itself. Any other character maps to underscores only, one per UTF-16 unit. |
| App.Slug | App.tsx:183 | The slug holds only `[a-z0-9_]` and is as long as the sub-topic in UTF-16 units. |
| App.SlugAppend | App.tsx:183 | The slug works character by character, so it distributes over concatenation. |
| App.SlugIdempotent | App.tsx:183 | Slugging a slug changes nothing. |
| App.SlugAt | App.tsx:183 | On BMP text, position i of the slug is the slug of character i. |
| App.SubTopicFileName | App.tsx:183-184 | The download name is a slug of the sub-topic's UTF-16 length followed by `_questions.json`. |
| App.ExportedSubTopic | App.tsx:172-186 | Sub-topic export is refused exactly when the stored value is absent, falsy or has length 0. Otherwise the payload is the stored value, under the slug file name. |
| App.Lookup | App.tsx:173 | `questionBank[module.id]?.[subTopic]` gives a value exactly when the module's entry is an object holding the sub-topic, and the value is that field. |
| App.SavedSubTopicRoundTrip | App.tsx:172-221 | A non-empty list saved by the editor exports. Importing that file stores the same list under any sub-topic, provided its first question has a non-empty id, text and correct answer. |
| App.EmptySubTopicAsymmetry | App.tsx:172-212 | Export refuses a saved empty list, while import accepts an empty array. |
| App.DefaultVisibility | App.tsx:41-44 | The default map has exactly the catalog ids as keys, each set to `true`. |
| App.Toggled | App.tsx:109-114 | A toggle changes only the module's entry, which becomes the boolean negation of its truthiness. An absent entry becomes `true`. |
| App.ToggleKeepsOtherModules | App.tsx:109-114 | Toggling a module never changes another module's flag. |
| App.ToggleTwice | App.tsx:109-114 | Toggling twice restores the flag's truthiness. If the flag was a boolean, it restores the whole map. |
| App.QuizApp.constructor | App.tsx:13-23 | Start-up state: the dashboard, no active quiz, nothing completed, an empty bank. |
| App.QuizApp.LoadVisibility | App.tsx:39-56 | Catalog ids default to `true` and persisted entries override them, including ids outside the catalog. A missing or unparsable setting leaves the defaults. |
| App.QuizApp.ToggleModuleVisibility | App.tsx:109-115 | The visibility becomes the toggled map. |
| App.QuizApp.SaveQuestions | App.tsx:117-124 | The editor's list is stored under (m, s) and nothing else changes. A failed assignment leaves the bank as it was. |
| App.QuizApp.ImportQuestions | App.tsx:140-170 | The bank is replaced exactly when the whole-bank import succeeds. Otherwise it is unchanged. |
| App.QuizApp.ImportSubTopic | App.tsx:188-227 | On success only `[m][s]` changes, and it holds the parsed value. On failure the bank is unchanged. |
| App.QuizApp.StartQuiz | App.tsx:61-65 | The quiz view opens on the module. An absent or empty sub-topic is stored as none. |
| App.QuizApp.ManageQuestions | App.tsx:98-102 | The editor opens on (m, s). |
| App.QuizApp.CompleteQuiz | App.tsx:67-72 | The completed view opens. The module joins the completed set (idempotently) only when no sub-topic was active. |
| App.QuizApp.ReturnToDashboard | App.tsx:74-79 | The dashboard shows, with no active module, no sub-topic and the editor closed. |
| App.QuizApp.ResetProgress | App.tsx:81-83 | The completed set is emptied. |
| MarkdownRenderer.SplitLines | components/QuizView.tsx:18 | Splitting on newline gives at least one line, and no line contains a newline. |
| MarkdownRenderer.JoinSplitLines | components/QuizView.tsx:18 | Joining the split lines with newline gives the text back. |
| MarkdownRenderer.SplitJoinLines | components/QuizView.tsx:18 | Newline-free lines split back out of their join unchanged. |
| MarkdownRenderer.ClassifyLine | components/QuizView.tsx:19-51 | A line is dropped exactly when it is blank and not an item. Items are exactly the lines starting `* ` or `- `, and lose those two characters. Call-outs are exactly the other lines that start with one of the four call-out emoji followed by whitespace. Paragraphs are exactly the remaining non-blank lines. Call-outs and paragraphs are kept whole. |
| MarkdownRenderer.ClassifyLines | components/QuizView.tsx:18-52 | Every line that classifies to an element contributes that element, and every element comes from some line's classification. Blank lines are dropped, and no kept paragraph or call-out is blank. The order is kept, as `ClassifyLinesAppend` states. |
| MarkdownRenderer.ClassifyLinesAppend | components/QuizView.tsx:18-52 | Classification keeps line order: it distributes over concatenation. |
| MarkdownRenderer.GroupElements | components/QuizView.tsx:55-73 | The grouped blocks flatten back to the elements in order. Each list is a non-empty maximal run of items, and no two lists are adjacent. |
| MarkdownRenderer.Render | components/QuizView.tsx:13-75 | Null or empty text renders nothing. Otherwise the blocks are the well-grouped elements of the text's lines. |
| MarkdownRenderer.WellGroupedUnique | components/QuizView.tsx:55-73 | Two well-grouped block sequences with the same elements are equal, so the grouping is the only correct one. |
| QuizView.OptionHighlight | components/QuizView.tsx:128-144 | Before checking, only the selected option is highlighted. After checking, the correct answer is green even when it was chosen, a wrong choice is red, and every other option is grey. |
| QuizView.Session.OptionClass | components/QuizView.tsx:128-144 | An option is green exactly when the answer is checked and it is the current question's correct answer. It is red only when it is the checked selection and not that answer. It is highlighted as chosen only before checking. |
| QuizView.WrongIsTheSelection | components/QuizView.tsx:128-144 | After checking, every red option carries the selected text, and that text is not the correct answer. |
| QuizView.Session.constructor | components/QuizView.tsx:79-82 | A run starts at question 0 with nothing selected, checked or explained. |
| QuizView.Session.SelectAnswer | components/QuizView.tsx:159-163 | Clicking an option selects it unless the answer is already checked. |
| QuizView.Session.CheckAnswer | components/QuizView.tsx:91-101 | Without a selection (null or "") nothing happens. Otherwise the answer is checked. The explanation is set only when the question's explanation is non-blank, and is left as it was otherwise. The index stays in bounds. |
| QuizView.Session.NextQuestion | components/QuizView.tsx:103-112 | Before the last question: the index goes up by one and selection, check and explanation are reset. On the last question: nothing changes and completion is reported with the module id. |
| QuizView.Session.LeaveEmptyQuiz | components/QuizView.tsx:114-122 | With no questions, the only action reports completion with the module id. |
| QuestionManager.FirstIndexWithId | components/QuestionManager.tsx:22 | The result is the first position holding the id, or -1 exactly when no question has it. |
| QuestionManager.Upserted | components/QuestionManager.tsx:20-28 | The submitted question is in the new draft. The length stays for a known id and grows by one for a new id. Every question with another id keeps its position, and a new id leaves the old draft as a prefix. |
| QuestionManager.UpsertReplacesInPlace | components/QuestionManager.tsx:22-26 | Upserting a known id replaces the first match. The length and every other position stay the same. |
| QuestionManager.UpsertAppendsNew | components/QuestionManager.tsx:27 | Upserting a new id appends the question. |
| QuestionManager.UpsertKeepsIdsUnique | components/QuestionManager.tsx:20-28 | Upserting keeps distinct ids distinct. |
| QuestionManager.UpsertIdempotent | components/QuestionManager.tsx:20-28 | Submitting the same question twice equals submitting it once. |
| QuestionManager.WithoutId | components/QuestionManager.tsx:36 | The filtered draft has no question with the id, and keeps every other question. |
| QuestionManager.WithoutIdAppend | components/QuestionManager.tsx:36 | The filter keeps relative order: it distributes over concatenation. |
| QuestionManager.WithoutAbsentId | components/QuestionManager.tsx:34-38 | Deleting an id the draft does not hold changes nothing. |
| QuestionManager.WithoutIdKeepsIdsUnique | components/QuestionManager.tsx:36 | Deleting keeps distinct ids distinct. |
| QuestionManager.DeleteAfterUpsert | components/QuestionManager.tsx:20-38 | Editing a question and then deleting its id gives the same draft as deleting alone. |
| QuestionManager.Editor.constructor | components/QuestionManager.tsx:16-18 | The draft starts as the initial list, with the form closed. |
| QuestionManager.Editor.StartAdding | components/QuestionManager.tsx:65 | The add form opens. |
| QuestionManager.Editor.StartEditing | components/QuestionManager.tsx:59 | The edit form opens on the chosen question. |
| QuestionManager.Editor.CancelForm | components/QuestionManager.tsx:50 | The form closes. |
| QuestionManager.Editor.AddOrUpdateQuestion | components/QuestionManager.tsx:20-32 | The draft becomes the upsert of the question, and the form closes. |
| QuestionManager.Editor.DeleteQuestion | components/QuestionManager.tsx:34-38 | A confirmed delete filters the id out. An unconfirmed delete changes nothing. |
| QuestionManager.Editor.SaveChanges | components/QuestionManager.tsx:40-43 | Save hands on exactly the current draft, then closes. |
| QuestionManager.Editor.Close | components/QuestionManager.tsx:82 | Close hands nothing on. |
| QuizResultsView.FormatTime | components/QuizResultsView.tsx:15-23 | NaN or a negative input gives "0s". Below a minute the text is the seconds' decimal digits followed by 's'. Every result ends in 's'. |
| QuizResultsView.FormatMinutesText | components/QuizResultsView.tsx:17-20 | From a minute on, the text is the whole minutes, "m ", the remaining seconds and 's'. |
| QuizResultsView.FormatTimeRoundTrip | components/QuizResultsView.tsx:15-23 | Every whole, non-negative duration is written so that it reads back as the same number of seconds. The layout is stated by `FormatTime` and `FormatMinutesText`. |
| QuizResultsView.FormatMinutesRoundTrip | components/QuizResultsView.tsx:17-20 | From 60 seconds on, the text reads back as 60·⌊n/60⌋ + n mod 60 = n. |
| QuizResultsView.ScoreColor | components/QuizResultsView.tsx:25-29 | Green exactly from 80, yellow exactly in [50, 80), red exactly below 50 or for a NaN score. |
| QuizResultsView.ScoreColorMonotone | components/QuizResultsView.tsx:25-29 | A higher score never gets a lower band. |
| QuizResultsView.Verdict | components/QuizResultsView.tsx:136 | The heading reads "Good Job!" exactly when the score is a number of at least 50, and "Keep Practicing" otherwise, NaN included. |
| QuizResultsView.VerdictMatchesBand | components/QuizResultsView.tsx:136 | "Good Job!" shows exactly when the score is a number of at least 50, which is exactly when the band is not red. |
| QuizResultsView.SpeedOf | components/QuizResultsView.tsx:31-36 | The bounds 10, 20 and 30 are inclusive, and NaN is "Slow". |
| QuizResultsView.SpeedMonotone | components/QuizResultsView.tsx:31-36 | A larger average never gets a faster label. |
| QuizResultsView.IncorrectAnswers | components/QuizResultsView.tsx:49 | The review list holds exactly the wrong answers, and is no longer than the answers. |
| QuizResultsView.IncorrectAnswersAppend | components/QuizResultsView.tsx:49 | The filter keeps order: it distributes over concatenation. |
| QuizResultsView.CorrectPlusIncorrect | components/QuizResultsView.tsx:46-49 | Every answer is either counted correct or listed for review. |
| QuizResultsView.IncorrectCountMatchesReview | components/QuizResultsView.tsx:46-49 | When the counts agree with the answers, `totalQuestions - correctCount` is the length of the review list. |
| QuizResultsView.ReviewShownIffSomeWrong | components/QuizResultsView.tsx:169 | The review section shows exactly when some answer is wrong. |
| QuizCustomizationModal.RangeMessage | components/QuizCustomizationModal.tsx:38 | The range message is non-empty and differs from the empty-field message. |
| QuizCustomizationModal.CustomizationModal.constructor | components/QuizCustomizationModal.tsx:18-19 | The entry starts at the full count with no message. |
| QuizCustomizationModal.CustomizationModal.SetProps | components/QuizCustomizationModal.tsx:21-26 | Opening the dialog, or changing the count while it is open, resets the entry to the full count and clears the message. Any other prop change leaves both as they were. |
| QuizCustomizationModal.CustomizationModal.NumChange | components/QuizCustomizationModal.tsx:28-43 | An emptied field gives 0 with "Please enter a number.". Otherwise the entry becomes the `parseInt` result, even an invalid one, and the message is cleared exactly when that result is in 1..max. |
| QuizCustomizationModal.CustomizationModal.Submit | components/QuizCustomizationModal.tsx:45-50 | The quiz starts exactly when there is no message and the entry is positive. A started count is always in 1..max. The guard agrees with the enabled state of the Start button (line 93). |
| QuizCustomizationModal.CustomizationModal.StartDisabled | components/QuizCustomizationModal.tsx:93 | While the dialog is open, an enabled Start button means the entry is a number in 1..max. |
| QuizCustomizationModal.TypedCountIsAccepted | components/QuizCustomizationModal.tsx:36-41 | Typing any count in 1..max gives that count with no message. |
| QuizCustomizationModal.OutOfRangeIsRefused | components/QuizCustomizationModal.tsx:36-41 | Typing any integer outside 1..max leaves a message. |

## Left out

- The start-up load of the bank from `localStorage` (App.tsx:27-36), and every write to `localStorage` (App.tsx:106, 112). This is persistence I/O. The bank and the visibility are modelled as the state they set.
- `FileReader`, `JSON.parse` and `JSON.stringify`, `encodeURIComponent`, and the data-URL anchor download. These are I/O: a parse enters as a `Result` value, and a download is a file name plus the JSON payload.
- Alerts, `console.error` and the text of error messages from `JSON.parse`. They carry no state.
- `window.confirm` in the editor is a boolean parameter of `DeleteQuestion`.
- The administrator login and logout and the login dialog (App.tsx:19-20, 85-96). They hold one flag; the credential check lives in `components/LoginView.tsx`, which is not part of this model.
- The view routing in `renderContent` (App.tsx:229-271) and the wiring between components. The components' interfaces disagree across the revisions present (for example, `onSave` takes one argument in components/QuestionManager.tsx:11 but three at App.tsx:117), so each component is modelled against its own interface.
- `types.ts`, `constants.ts`, Dashboard, QuestionForm, Icon, ModuleListItem, QuizCompletedView and ProgressCircle are not part of this model. Catalog module ids enter `LoadVisibility` as a parameter.
- App.PutSubTopic: a module entry that is an array is treated like other truthy non-objects, as a failed save. JavaScript would instead attach a named property to the array, and `JSON.stringify` would later drop it.
- App.QuizApp.SaveQuestions: the shallow copy at App.tsx:118 shares the inner sub-topic map with the previous bank value, and the assignment at App.tsx:122 mutates that shared map. The model states the functional update that the new bank shows and does not model that aliasing.
- Object key order and properties inherited from `Object.prototype`. A JSON object is the map of its own properties.
- Module ids are integers whose keys are their decimal text. The JavaScript number-to-string form of very large or fractional ids is not modelled.
- QuizResultsView.FormatTime: inputs are NaN or whole seconds. Fractional seconds, which JavaScript prints with a decimal point, are not modelled.
- The PDF export of the results view (html2canvas and jsPDF), the score-ring and progress-bar geometry, and the quiz title string. These are foreign calls and floating-point layout.
- The inline-bold splitting with the lazy regular expression inside the explanation renderer. Only line-level classification and grouping are modelled.
- JsText.ParseInt: digit strings too long to be exact in a double, and `-0`, are read as exact integers.
- The "There are N question(s) available" sentence of the count dialog. It is presentational text.
- App.QuizApp.ImportSubTopic: the import is applied atomically to the bank as it stands when the parse completes. The `reader.onload` closure (App.tsx:188-208) spreads the bank captured when the file was chosen, so a bank change made while the file is being read would be overwritten. That stale closure is not modelled.
- QuizView.Session: the question list is fixed for the life of a run. A run whose props change mid-quiz is not modelled.
- The whole-bank export is refused when the bank object has no keys (App.tsx:127). The refusal is not about whether any sub-topic holds questions: a bank whose modules all hold empty lists still exports. The model follows the code.
