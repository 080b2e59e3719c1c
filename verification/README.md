# Baumann skin-type bot: a Dafny model

The repository is a Telegram bot for skin typing. It asks sixteen A/B questions, four
on each Baumann axis: oily/dry (O/D), sensitive/resistant (S/R), pigmented/non-pigmented (P/N)
and wrinkled/tight (W/T). It turns the answers into a four-letter code such as `DRNT` and
keeps one CSV record per patient. Later, a dermatoscopy code can be compared with the quiz
code. That comparison gives a match percentage and a merged final type.

This project models the core of that program as pure functions. It then proves properties
of the model.

- `wrappers.dfy` (module `Wrappers`): `Option`.
- `pytext.dfy` (module `PyText`): the pieces of Python's `str` the core relies on:
  - `isspace`/`strip`;
  - `upper`/`lower` on ASCII, Latin-1 and basic Cyrillic letters;
  - `int()` on a text;
  - `str()` on an integer.
- `baumann.dfy` (module `Baumann`): `dermai_bot.py`:
  - the question bank;
  - `classify_baumann`, a per-axis majority where a tie goes to the axis's last answer;
  - `explain_skin_type`;
  - the `test_start`/`handle_answer` quiz loop, which appends every answer.
- `dataset.dfy` (module `Dataset`): `utils/dataset_csv.py`. The CSV file is a sequence of
  rows.
  - `compare_skin_types`;
  - `save_initial_data`, `save_test_results` and `save_dermatoscopy_result`, each as a
    function from table to table;
  - `get_patient_json` as a lookup that returns the five exported columns.
- `skinbot.dfy` (module `SkinBot`): the conversation of `utils/bot.py` as a transition
  function. One step takes:
  - the session, meaning the conversation state and `context.user_data`;
  - one Telegram update: a command, a button press or a text message.

  It returns the next session, the store calls made, and whether the handler returned, was
  not reached, or raised. `Run` folds the steps over a sequence of updates.
  `ApplyEffects` interprets the store calls with the `Dataset` functions, so whole
  conversations can be followed into the table.

The main results:

- **Classification.**
  - `Classify` succeeds exactly when every axis has an answer.
  - Its letters follow the majority/last-answer rubric, computed from the raw answers.
  - Its result does not depend on how answers on different axes are interleaved.
  - A full sixteen-answer quiz always classifies.
  - Two-two ties are reachable on every axis, and each tie goes to the last answer.
- **Comparing codes.**
  - The merged code is the dermatoscopy code, cut to the shorter of the two normalised
    codes.
  - The percentage is 25 per agreeing position. It is 25 times the merged length exactly
    when the codes agree, so 100 only for two agreeing four-letter codes. It is 0 exactly
    when they disagree everywhere.
- **The store.**
  - Every write touches only the rows of its own patient id.
  - Ids stay unique.
  - A lookup sees what the last write stored.
- **The conversation.**
  - An answer button can never make `handle_answer` raise from any reachable state.
  - Quiz results are only ever stored under a patient whose record was created earlier, so
    the table only ever grows by the records `save_initial_data` creates.
  - A full first conversation stores the demographics and then, under the same id, the
    code of each axis's *last* answer.

`utils/bot.py` keeps only the last answer on each axis, because `answers_json[category] = ans`
overwrites the entry. Its code is therefore not the majority code of `dermai_bot.py`:
`LastAnswerOverridesMajority` gives a quiz where the two programs disagree. Both behaviours
are modelled as written.

Behaviour worth knowing, as the code has it:

- The age step accepts any integer `int()` parses. There is no range check
  (`AgeAcceptsAnyInteger`).
- Allergies are stored verbatim. A blank answer is not replaced by "none".
- After the last answer, the conversation ends. There is no season step, and the bot
  never passes a season to the store.
- The merged code has `min(len(s1), len(s2))` letters, which can be fewer than four
  (`ShortQuizCodeTruncatesMerge`).
- `/photo` calls `save_dermatoscopy_result` with two of its three arguments. The call
  therefore raises before the store is touched (`PhotoNeverStores`).

## Model

| member | source | states |
|---|---|---|
| Baumann.QuestionBankLayout | dermai_bot.py:24-96 | the bank has sixteen questions; question k is on axis `AxisOf(k)`: four O/D, then four S/R, four P/N, four W/T |
| Baumann.AxisOfIndex | dermai_bot.py:24-96 | question k belongs to axis c exactly when it is one of the four consecutive questions starting at 4 times the axis's position |
| Baumann.Letter | dermai_bot.py:173-174 | an axis's letter exists exactly when the axis has at least one answer (an empty tally is the IndexError of `od[-1]`), and it is one of the axis's two letters |
| Baumann.Classify | dermai_bot.py:164-190 | the classification succeeds exactly when every axis has an answer; the code then has four letters, position i being one of axis i's two letters, and the description is the explanation of the code |
| Baumann.CountSplit | dermai_bot.py:174 | on one axis, the A count plus the B count is the number of answers on that axis |
| Baumann.CountIsMultiplicity | dermai_bot.py:174 | `list.count` of a choice is its multiplicity in the list |
| Baumann.FilterConcat | dermai_bot.py:165-167 | the per-axis tally of two answer lists in sequence is the two tallies in sequence |
| Baumann.CountFilterIsMultiplicity | dermai_bot.py:165-174 | the count of a choice in an axis's tally is the multiplicity of that (axis, choice) pair among all answers |
| Baumann.FilterEmptyIff | dermai_bot.py:165-167 | an axis's tally is empty exactly when no answer is on that axis |
| Baumann.FilterLast | dermai_bot.py:165-167 | the last element of an axis's tally is the choice of the last answer on that axis |
| Baumann.ClassifyFollowsRubric | dermai_bot.py:164-188 | letter i of the code is read off the raw answer list: the choice with the larger multiplicity on axis i; on a tie, the choice of the last answer on the axis |
| Baumann.LetterMajority | dermai_bot.py:173-186 | both directions: the first letter exactly when A has a strict majority or exactly half with A last; likewise the second letter for B |
| Baumann.LetterPermutation | dermai_bot.py:173-186 | reordering an axis's tally changes nothing when the multiset and the last answer are kept |
| Baumann.FilterSwap | dermai_bot.py:165-167 | swapping two neighbouring answers on different axes leaves every tally unchanged |
| Baumann.ClassifySwap | dermai_bot.py:164-190 | swapping two neighbouring answers on different axes leaves the classification unchanged |
| Baumann.Describe | dermai_bot.py:196-202 | a character's explanation is empty exactly when it is none of the eight code letters |
| Baumann.DescribeInverse | dermai_bot.py:196-201 | the eight explanations are distinct: each code letter is recovered from its explanation |
| Baumann.Explain | dermai_bot.py:195-203 | the explanation starts with the fixed heading "Тип кожи: " and ends with a full stop |
| Baumann.ExplainFullCode | dermai_bot.py:195-203 | for a four-character code, the explanation is the heading, then the four characters' explanations in order separated by ", ", then a full stop |
| Baumann.Parts | dermai_bot.py:202 | there is one explanation part per character of the code, in order, each that character's explanation |
| Baumann.TestStart | dermai_bot.py:113-117 | the quiz starts with no answers at index 0, so `len(answers) == index` |
| Baumann.Filter | dermai_bot.py:165-167 | an axis's tally is no longer than the answer list (its contents are stated by `FilterEmptyIff`, `FilterLast`, `FilterConcat` and `CountFilterIsMultiplicity`) |
| Baumann.Count | dermai_bot.py:174 | a count is at most the list's length (its meaning is stated by `CountIsMultiplicity`) |
| Baumann.HandleAnswer | dermai_bot.py:141-159 | within the bank, the answer is appended with the current question's axis and the index moves on; the quiz continues exactly when questions remain; at the last question it finishes exactly when the answers classify, with that classification as its verdict, and fails exactly when they do not; past the bank the handler fails (IndexError) |
| Baumann.Replay | dermai_bot.py:113-159 | the quiz is still waiting exactly when fewer than sixteen buttons came, and then its index is the number of answers held, which is the number of buttons |
| Baumann.AnswersFor | dermai_bot.py:141-148 | the k-th recorded answer is (axis of question k, k-th choice) |
| Baumann.ReplayInvariant | dermai_bot.py:113-159 | after n < 16 buttons the quiz waits at index n holding exactly the n recorded answers (so `len(answers) == index`); after 16 it has finished with the classification of those answers, which exists |
| Baumann.FullTestCoversEveryAxis | dermai_bot.py:164-190 | the sixteen answers of a full quiz always classify: no axis is empty |
| Baumann.Block | dermai_bot.py:147 | the answers of consecutive questions on one axis, each tagged with that axis |
| Baumann.FilterBlock | dermai_bot.py:165-167 | a block tallies to its choices on its own axis and to nothing elsewhere |
| Baumann.AnswersForBlocks | dermai_bot.py:24-96 | a full quiz's answers are four blocks, one per axis, in axis order |
| Baumann.FilterOfFourBlocks | dermai_bot.py:165-167 | the tally of four axis blocks on an axis is that axis's block |
| Baumann.FilterOfFullRun | dermai_bot.py:141-167 | in a full quiz, axis i's tally is exactly the choices of questions 4i to 4i+3 |
| Baumann.TieGoesToLast | dermai_bot.py:174-186 | the tally A, A, B, B gives the axis's second letter |
| Baumann.TieLetter | dermai_bot.py:164-188 | a full quiz answering A, A, B, B on axis i gets axis i's second letter |
| Baumann.TieOnEveryAxis | dermai_bot.py:141-190 | answering A, A, B, B on every axis finishes the quiz with the code DRNT: a two-two tie is reachable on each axis |
| Dataset.Normalize | utils/dataset_csv.py:148-149 | a normalised code has at most four characters |
| Dataset.NormalizeCode | utils/dataset_csv.py:148-149 | a code of at most four capital letters is unchanged by normalisation |
| Dataset.NormalizePadded | utils/dataset_csv.py:148-149 | a code of Latin letters with whitespace on either side normalises to its first four letters, small letters made capital, the whitespace dropped |
| Dataset.MergeCodes | utils/dataset_csv.py:157-168 | the merged code is the dermatoscopy code cut to the shorter length, and the match count is `Agreements`, the number of positions below that length where the codes agree, counted independently |
| Dataset.MergeCountFull | utils/dataset_csv.py:160-163 | every position counts as a match exactly when the two codes agree up to the shorter length |
| Dataset.MergeCountZero | utils/dataset_csv.py:160-165 | no position counts as a match exactly when the codes differ at every position of the shorter length |
| Dataset.CompareSkinTypes | utils/dataset_csv.py:136-173 | the percentage is at most 100; an empty normalised quiz code gives 0% and the dermatoscopy code; an empty dermatoscopy code gives 0% and the quiz code; otherwise the percentage is 25 times the number of agreeing positions (`Agreements`) of the normalised codes and the final type is the normalised dermatoscopy code cut to the shorter length |
| Dataset.CompareCodes | utils/dataset_csv.py:148-168 | for two codes that normalisation keeps, the percentage is 25 per agreeing position (`Agreements`) and the final type is the dermatoscopy code cut to the shorter length |
| Dataset.MatchPercentBounds | utils/dataset_csv.py:148-167 | the percentage is 25 per compared position exactly when the codes agree, and 0 exactly when they disagree at every compared position |
| Dataset.CompareWithItself | utils/dataset_csv.py:136-173 | a four-letter code of capital letters compared with itself matches 100% and merges to itself |
| Dataset.DermatoscopyWinsDisagreements | utils/dataset_csv.py:160-165 | where the codes disagree, the final type has the dermatoscopy letter, not the quiz letter |
| Dataset.CompareLastMismatch | utils/dataset_csv.py:157-168 | four-letter codes differing only in the last letter match 75% and merge to the dermatoscopy code |
| Dataset.MatchesWhenLastDiffers | utils/dataset_csv.py:160-163 | four-letter codes differing only in the last letter have three matching positions |
| Dataset.CompareExample | utils/dataset_csv.py:136-173 | OSPW against OSPT gives 75% and OSPT |
| Dataset.ShortQuizCodeTruncatesMerge | utils/dataset_csv.py:157-168 | OS against OSPT gives 50% and OS: the final type is shorter than four letters |
| Dataset.FindFrom | utils/dataset_csv.py:62-63 | the scan returns the first row at or after the start that has the id, and nothing exactly when none has it |
| Dataset.FindRow | utils/dataset_csv.py:101-102 | the first row with the id, and nothing exactly when no row has it |
| Dataset.SaveInitialData | utils/dataset_csv.py:34-50 | one row is appended, with the id and demographics and every result column empty; the existing rows are unchanged |
| Dataset.SaveTestResults | utils/dataset_csv.py:53-88 | for a known id, only the first row with that id changes: answers and code are replaced, and the season only when one is given; for an unknown id, a row with just the results is appended |
| Dataset.SaveDermatoscopyResult | utils/dataset_csv.py:91-130 | for a known id, only its first row changes: the dermatoscopy code and the comparison with the given quiz code; for an unknown id, a row is appended compared against an empty quiz code (0%); the comparison returned is the one stored |
| Dataset.GetPatientJson | utils/dataset_csv.py:181-191 | the five exported columns of the first row with the id; nothing (the "{}" answer) exactly when no row has it |
| Dataset.LookupAfterCreate | utils/dataset_csv.py:34-50 | a newly created patient reads back as its demographics with empty final type and season |
| Dataset.UniqueIdsPreserved | utils/dataset_csv.py:34-130 | creating a record under a fresh id, storing test results, and storing a dermatoscopy result each keep the ids unique |
| Dataset.UniqueIdsOfOnlyRowsOf | utils/dataset_csv.py:61-83 | a write that keeps old ids, touches only one id's rows, and appends at most one row, only when the id is new, keeps ids unique |
| Dataset.TestResultsOnlyRowsOf | utils/dataset_csv.py:53-88 | storing test results changes only rows of its id, keeps every row's id, and appends only when the id was absent |
| Dataset.DermatoscopyOnlyRowsOf | utils/dataset_csv.py:91-123 | storing a dermatoscopy result changes only rows of its id, keeps every row's id, and appends only when the id was absent |
| Dataset.FindRowFrame | utils/dataset_csv.py:101-102 | a write confined to one id leaves every other id's first row and its position unchanged |
| Dataset.LookupFrame | utils/dataset_csv.py:181-191 | a write confined to one id does not change what any other id's lookup returns |
| Dataset.CreateFrame | utils/dataset_csv.py:34-50 | creating a record does not change any other patient's lookup |
| Dataset.TestResultsFrame | utils/dataset_csv.py:53-88 | storing test results does not change any other patient's lookup |
| Dataset.DermatoscopyFrame | utils/dataset_csv.py:91-130 | storing a dermatoscopy result does not change any other patient's lookup |
| Dataset.UpsertAppendedRowIsFound | utils/dataset_csv.py:71-83 | after an upsert appends for an absent id, the appended row is the id's row |
| Dataset.UpsertUpdatedRowIsFound | utils/dataset_csv.py:61-69 | after an upsert updates a present id, the id's row stays at the same position |
| Dataset.LatestTestResultWins | utils/dataset_csv.py:53-88 | storing results twice for one id adds no second row, and the second answers and code are what the record holds |
| Dataset.DermatoscopyReturnsWhatItStored | utils/dataset_csv.py:99-130 | the comparison returned is the percentage and final type the patient's row holds and the lookup reports |
| PyText.StripLeft | utils/dataset_csv.py:148 | for the given whitespace set (`str.strip`'s, or the narrower one `int()` strips), the result is a suffix of the input that does not start with whitespace, and every character removed is whitespace |
| PyText.StripRight | utils/dataset_csv.py:148 | for the given whitespace set, the result is a prefix of the input that does not end with whitespace, and every character removed is whitespace |
| PyText.Strip | utils/dataset_csv.py:148 | the stripped text is no longer than the input, neither starts nor ends with whitespace of the given set, and consists of characters of the input |
| PyText.StripIsSlice | utils/dataset_csv.py:148 | the stripped text is one contiguous slice of the input, and everything before and after that slice is whitespace of the given set |
| PyText.StripPadded | utils/dataset_csv.py:148 | a text with whitespace on both ends of it strips back to the text, when the text itself neither starts nor ends with whitespace |
| PyText.Upper | utils/dataset_csv.py:148-149 | upper-casing leaves no lower-case Latin letter and never shortens the text |
| PyText.Lower | utils/bot.py:50 | lower-casing leaves no capital Latin letter and never shortens the text |
| PyText.UpperBasic | utils/dataset_csv.py:149 | on ASCII and basic Cyrillic, upper-casing keeps the length and maps each small letter a-z, а-я to its capital and every other character to itself |
| PyText.LowerBasic | utils/bot.py:50 | on ASCII and basic Cyrillic, lower-casing keeps the length and maps each capital A-Z, А-Я to its small letter and every other character to itself |
| PyText.StripNoSpace | utils/dataset_csv.py:148 | stripping a text without whitespace leaves it unchanged |
| PyText.UpperOfCapitals | utils/dataset_csv.py:148-149 | upper-casing a text of capital Latin letters leaves it unchanged |
| PyText.UpperFixed | utils/bot.py:69-70 | upper-casing leaves unchanged a text each of whose characters upper-cases to itself (such as the sex buttons М and Ж) |
| PyText.LowerFixed | utils/bot.py:50-52 | lower-casing leaves unchanged a text each of whose characters lower-cases to itself (such as "yes" and "да") |
| PyText.DropUnderscores | utils/bot.py:80 | removing the underscore separators `int()` allows leaves only digits |
| PyText.NatToString | utils/bot.py:80 | a natural number is spelt with at least one decimal digit and no leading zero |
| PyText.DigitChar | utils/bot.py:80 | each digit value has a digit character that reads back as it |
| PyText.DropUnderscoresOfDigits | utils/bot.py:80 | a text of digits has no underscores to remove |
| PyText.DigitsValueOfNatToString | utils/bot.py:80 | reading back the digits of a number gives the number |
| PyText.NatToStringIsDigitRun | utils/bot.py:80 | a number's spelling is a digit run that `int()` accepts, worth the number |
| PyText.IntToStringNoSpace | utils/bot.py:80 | an integer's spelling has no whitespace |
| PyText.ParseInt | utils/bot.py:79-86 | `int()` accepts a text only when it contains a digit, and gives a negative number only when the text has a minus sign |
| PyText.AcceptedShape | utils/bot.py:80 | a text `int()` accepts strips to a run of digits, with at most one sign in front of it |
| PyText.ParseIntAlphabet | utils/bot.py:80 | a text `int()` accepts consists of digits, underscores and whitespace, plus at most a sign that only whitespace precedes |
| PyText.SeparatorIsNotIntSpace | utils/bot.py:80 | `str.strip` removes a leading U+001C but `int()` does not, so `int()` rejects "\x1c42" |
| PyText.ParseIntOfRun | utils/bot.py:80 | `int()` reads an unsigned digit run without whitespace as its value |
| PyText.ParseIntOfSignedRun | utils/bot.py:80 | `int()` reads a minus sign before a digit run as the negated value |
| PyText.ParseIntRoundTrip | utils/bot.py:80 | `int(str(n)) == n` for every integer n, negative ones included |
| SkinBot.HandleConsent | utils/bot.py:47-62 | nothing is stored and the user data is unchanged; the conversation goes on to the demographics exactly when the lower-cased button data is "да" or "yes", and otherwise ends |
| SkinBot.HandleDemo | utils/bot.py:64-106 | the step is chosen by which keys the user data has; the sex step keeps the upper-cased button only when it is М or Ж; the age step keeps exactly what `int()` parses, after stripping only the whitespace `int()` strips; the allergies step stores the text verbatim, mints the id, resets the quiz, creates exactly one record and enters the quiz; an update of the wrong kind raises and changes nothing |
| SkinBot.HandleAnswer | utils/bot.py:124-156 | only the answers and the index change: the current question's axis gets the choice (overwriting), the other axes keep theirs; the quiz continues exactly when questions remain; on completion, exactly one store call saves the encoded answers and their classification under the patient id; a missing key or an index past the bank raises and stores nothing |
| SkinBot.ItemsFollowMap | utils/bot.py:139 | `list(answers_json.items())` holds exactly the dictionary's entries, each once, in axis order |
| SkinBot.EncodeAnswers | utils/bot.py:136 | `json.dumps` of the answers dictionary reads back (`DecodeAnswers`) as exactly its items, in order |
| SkinBot.RequestDermatoscopy | utils/bot.py:159-174 | the session never changes and nothing is stored; the handler returns normally exactly when there is no (or an empty) patient id, and otherwise raises at the store call |
| SkinBot.Step | utils/bot.py:192-212 | at most one store call per update; an unrouted update changes nothing; the conversation moves only along /test, consent, demographics, quiz and back to idle; the patient id changes only together with creating that id's record; results are stored only when the quiz ends, under the session's id |
| SkinBot.Run | utils/bot.py:192-212 | a run makes at most one store call per update |
| SkinBot.FullMapVerdict | utils/bot.py:136-140 | once every axis has an entry, classifying the entries never fails, and each letter is the one the axis's single entry votes for |
| SkinBot.AnswerInQuizIsHandled | utils/bot.py:124-156 | in a quiz with an id, a valid index and entries for exactly the answered axes, an answer never raises and the invariant is kept |
| SkinBot.StepKeepsQuizReady | utils/bot.py:64-156 | every update keeps the quiz-state invariant |
| SkinBot.RunKeepsQuizReady | utils/bot.py:192-212 | any sequence of updates keeps the quiz-state invariant |
| SkinBot.ReachableAnswersAreHandled | utils/bot.py:124-156 | from a new user, after any updates, an answer button in the quiz is handled without raising |
| SkinBot.StepKeepsLinked | utils/bot.py:88-147 | one update keeps two facts: every stored result follows the creation of its record, and during the quiz the session's patient has been created |
| SkinBot.RunStepKeepsLinked | utils/bot.py:192-212 | the last update of a run extends that link from the run before it |
| SkinBot.RunStoresFollowCreation | utils/bot.py:92-147 | in any run that does not start inside the quiz, `save_test_results` is only ever called for a patient whose `save_initial_data` came first |
| SkinBot.LastAnswersStep | utils/bot.py:129-132 | answering question n overwrites its axis's entry and keeps the others |
| SkinBot.AnswerButtonStep | utils/bot.py:124-156 | an answer before the last question overwrites one entry, moves the index on and stores nothing |
| SkinBot.LastButtonStep | utils/bot.py:134-153 | the last answer ends the conversation with one store call under the patient id |
| SkinBot.QuizPrefix | utils/bot.py:124-156 | after n < 16 answers the quiz is at index n, holding each reached axis's latest answer, with nothing stored |
| SkinBot.QuizRecordsLastAnswers | utils/bot.py:124-156 | a full quiz ends the conversation with one store call: the encoded last answers of each axis and the code those alone decide |
| SkinBot.FullLastAnswers | utils/bot.py:129-132 | after sixteen answers every axis's entry is its fourth question's answer |
| SkinBot.MajorityOfThree | dermai_bot.py:173-186 | the tally A, A, A, B gives the axis's first letter |
| SkinBot.LastAnswerOverridesMajority | utils/bot.py:129-147 | answering A, A, A, B on an axis stores that axis's second letter, although the per-axis majority is the first letter |
| SkinBot.BotLetterIsLastAnswer | utils/bot.py:129-147 | the stored code's letter for an axis whose last answer is B is the axis's second letter |
| SkinBot.MajorityLetter | dermai_bot.py:164-190 | in a full quiz answering A, A, A, B on an axis, the majority classification gives that axis's first letter |
| SkinBot.ConsentButtons | utils/bot.py:47-62 | during consent, a button moves on to the demographics exactly when it is "yes" and ends the conversation exactly when it is "no"; any other button is not routed; nothing is stored and the user data is unchanged |
| SkinBot.SexStep | utils/bot.py:66-75 | the М and Ж buttons are recorded as they are; a text message there raises and changes nothing |
| SkinBot.AgeStep | utils/bot.py:78-83 | a text that `int()` reads as n records age n, and nothing else changes |
| SkinBot.AgeAcceptsAnyInteger | utils/bot.py:78-83 | the decimal spelling of any integer, negative or implausible, is recorded as the age: there is no range check |
| SkinBot.AgeRejectsNonNumbers | utils/bot.py:84-86 | a text with no digit leaves the age unset and the conversation in the demographics |
| SkinBot.AllergiesStep | utils/bot.py:88-106 | the allergies text is stored verbatim, the record is created under the fresh id with the demographics, and the quiz starts at question 0 |
| SkinBot.FoldAppend | utils/bot.py:192-212 | handling two batches of updates is handling the first, then the second from where the first left off |
| SkinBot.RunAppend | utils/bot.py:192-212 | the same for the bot's own routing |
| SkinBot.IntakeConsents | utils/bot.py:36-62 | for a new user, /test followed by "yes" reaches the sex step with nothing stored |
| SkinBot.IntakeDemographics | utils/bot.py:64-86 | the sex button and then the age text fill in those two fields and stay in the demographics |
| SkinBot.IntakeCreatesRecord | utils/bot.py:36-106 | a new user's consent and three demographic answers create exactly one record, under the id minted at the allergies step, and start the quiz |
| SkinBot.FirstConversation | utils/bot.py:36-156 | a new user's whole conversation makes exactly two store calls: the record with the demographics, then, under the same id, the results with the last-answer code; the conversation is over afterwards |
| SkinBot.ReturningUserSkipsDemographics | utils/bot.py:64-106 | a user who has already given sex and age goes from consent straight to allergies, and a new record is created under a new id with the old demographics |
| SkinBot.PhotoNeverStores | utils/bot.py:159-174 | /photo never writes the store and never changes the session; it raises exactly when the user has a non-empty patient id |
| SkinBot.ApplyEffect | utils/dataset_csv.py:34-88 | a store call changes only rows of its own id, in place or by appending, and appends at most one row; creating a record always appends one |
| SkinBot.ApplyEffectKeepsIds | utils/dataset_csv.py:34-88 | no store call removes a row or changes a row's id; creating a record leaves a row with its id |
| SkinBot.CreatedHasRow | utils/dataset_csv.py:34-88 | once a record is created, a row with its id stays in the table |
| SkinBot.StoredResultsNeverAppend | utils/dataset_csv.py:61-83 | when every result follows its record's creation, the table grows by exactly the number of records created |
| SkinBot.ConversationsOnlyAddRecords | utils/bot.py:92-147 | whatever updates arrive, the table grows only by the records the bot creates: quiz results always land on an existing row |
| SkinBot.CreateThenStore | utils/dataset_csv.py:34-88 | a first conversation's two store calls, under a new id, add one row: the demographics with the answers and code, and no season, dermatoscopy or match yet |

## Left out

- Telegram I/O is not modelled: sending and editing messages, keyboards, `query.answer()`, the bot token, `start` and `main()`/`run()`. Routing is modelled as `Step`; everything else has no bearing on state.
- The `asyncio.Lock` around each store function is not modelled. Each store call is taken as atomic, and updates are handled one at a time.
- The CSV file is modelled as a sequence of rows, without file creation, the header, quoting or the round trip of values through text. `age` is an optional integer and `match_percent` an optional number.
- `match_percent` is `round(matches / 4 * 100, 2)`, a float, in the source. It is modelled as `25 * matches`, which is the same value for 0 to 4 matches.
- `SkinBot.EncodeAnswers` spells `json.dumps` output with keys in axis order. This assumes the quiz inserts the keys in question order, which visits the axes in that order. JSON escaping is not modelled, and `SkinBot.DecodeAnswers` reads only objects of the shape the bot writes, not JSON in general.
- SkinBot.Items: its own definition carries no contract; what it holds is stated by `ItemsFollowMap`.
- `uuid.uuid4()` is an oracle: each update receives the id it would mint as a parameter. Freshness of ids in the table is a hypothesis where a lemma needs it.
- `utils/test.py` (`SkinTest`) is not part of this model. Its question bank and `classify_baumann` are taken to be the ones in `dermai_bot.py`, including the keys "O/D", "S/R", "P/N" and "W/T".
- `request_dermatoscopy` is modelled only up to the store call, where it raises. The simulated result, the DOCX report, the file sent and the timestamp are not modelled.
- `utils/db.py` (the database store) and `dermai_bot_v2.py` are not part of this model.
- `ask_question` (rendering a question) is not modelled. It only reads the bank at the current index, and `HandleAnswer` already fails on an index past the bank.
- The rest of `dermai_bot.py`'s `main()` is not modelled beyond the quiz's entry and answer handlers, which `Baumann.TestStart` and `Baumann.HandleAnswer` model.
- PyText.ParseInt: accepts ASCII digits only. Python's `int()` also accepts other Unicode decimal digits (Arabic-Indic, Devanagari and so on). The whitespace it strips, non-ASCII included, is modelled by `IsIntSpace`.
- PyText.ParseInt: has no limit on the number of digits. CPython's `int()` raises ValueError on a decimal text of more than 4300 digits.
- Baumann.Filter and Baumann.Count: their own contracts state only length bounds. Their contents are stated by separate lemmas (`FilterEmptyIff`, `FilterLast`, `FilterConcat`, `CountIsMultiplicity`, `CountFilterIsMultiplicity`).
- PyText.UpperChar and PyText.LowerChar: cover ASCII, Latin-1 and basic Cyrillic, not all of Unicode. The bot's inputs (М, Ж, "yes", "да", Latin code letters) are in that range.
- SkinBot.Step: callback patterns such as `^(yes|no)$` are matched as whole-string equality. Python's `$` also accepts one trailing newline, but the callback data here comes from the bot's own buttons and never has one.
- Dataset.CompareSkinTypes: `None` inputs (`skin_code or ""`) are not modelled, because the Dafny arguments are always strings. The empty string takes the same path.
- Dataset.Normalize: its own contract states only the length bound. Its meaning on codes is given by the lemmas `NormalizeCode` and `NormalizePadded`.
- The season choice (`time_of_year`) exists in `save_test_results` and is modelled there. The bot never asks for it, so no conversation step sets it.
