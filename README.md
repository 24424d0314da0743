# AI Interview Simulator — a Dafny model of its core logic

The AI Interview Simulator is a Streamlit app, `app.py`. A candidate
uploads a résumé, gives the details of a job, answers behavioural interview
questions written by a Gemini model, and reads a feedback report. This
project models the sequential logic inside that app and proves properties
about it:

- **Upload validation and résumé acceptance** (`upload.dfy`). This covers
  `FileProcessor.validate_file` and the checks of `process_resume_file`:
  - the 10 MiB bound;
  - the extension taken as `os.path.splitext` takes it, then lower-cased;
  - the whitelist of four extensions;
  - the rule that the stripped text must have at least 50 characters;
  - the exact messages.
- **Question generation** (`questions.dfy`). A bracketed reply goes to the
  JSON decoder. Any other reply goes through the line-by-line fallback
  parser, a loop over lines that keeps quoted lines and truncates the list
  to six. A failed call gives the six fixed questions.
- **The conversation and its views** (`conversation.dfy`):
  - the question, answer and reply messages;
  - "show the current question unless it is already last";
  - the readiness phrases, checked on the lower-cased reply;
  - the last-four-messages history window;
  - the question/answer pairing used by the feedback prompt;
  - the word-count statistics of the feedback page.
- **Progress views** (`progress.dfy`): the completed, active and inactive
  stage indicators, the bar's fill as an exact fraction, and the sidebar's
  line about the current stage.
- **The four-stage wizard** (`wizard.dfy`). It has
  upload → details → interview → feedback and back to details. Each page
  and each reset is a function on the session's values, `State`. The
  predicate `Consistent` says what the values always satisfy, and every run
  of a page is proved to preserve it.
- **The session** (`session.dfy`). `st.session_state` is the class
  `SessionState`. Its fields are the values of the keys, and `keys` is the
  set of keys currently stored. Its methods update the fields in place:
  - `initialize_session_state`, a loop that inserts the missing keys in
    the order of the defaults;
  - the sidebar restart and "New Interview", a loop that deletes the
    eight listed keys and keeps the client's key;
  - each page's transitions;
  - the interview's appends to the conversation;
  - the stage dispatch of `main`.

  Each method is proved to leave `Snapshot()` equal to the wizard function
  of the previous values.
- `pytext.dfy` holds the Python string operations the app relies on, with
  their Python meaning:
  - `str.strip` and `str.isspace`;
  - `str.lower` on ASCII;
  - `split('\n')` and `'\n'.join`;
  - `split()` on whitespace;
  - substring `in`;
  - `str(n)`;
  - `os.path.splitext`.
- `wrappers.dfy` holds `Option` and `Result`.

Calls to code that cannot be seen become parameters:
- `extract` gives the text a document reader produced, or the text of the
  exception it raised.
- `generate`, `interviewer` and `reviewer` give the Gemini replies, each a
  `Result` (the reply's text, or the text of the exception).
- `decode` is `json.loads` on a bracketed reply (`None` when it raises).
- `ClientInit` says how creating the client ended.

## Model

| member | source | states |
|---|---|---|
| PyText.Strip | app.py:344 | `str.strip` leaves no white space at either end, never lengthens, and keeps a text whose ends are not white space |
| PyText.StripTrims | app.py:344 | `str.strip` removes only white space: the result is the infix of the text that follows its leading white space, and every character before or after that infix is white space |
| PyText.StripBlank | app.py:827 | a text strips to the empty string exactly when every character is white space (the test `user_response.strip()`) |
| PyText.StripIdempotent | app.py:546 | stripping an already stripped text changes nothing, so the length check sees the text that is returned |
| PyText.LeadingSpaceAll | app.py:344 | every character strip drops at the front is white space |
| PyText.TrailingSpaceStops | app.py:344 | from a text that starts with a non-space, strip's trailing cut leaves at least one character |
| PyText.Lower | app.py:478 | `str.lower` keeps the length; what it does to each character is stated by PyText.LowerChars |
| PyText.LowerChars | app.py:478 | `lower` maps each character by itself and leaves no ASCII upper-case letter |
| PyText.LowerAppend | app.py:849 | lower-casing distributes over concatenation |
| PyText.LowerIdempotent | app.py:849 | lower-casing twice is lower-casing once |
| PyText.Contains | app.py:394 | the substring test `needle in hay`, scanning start positions from the left; its meaning is stated by PyText.ContainsIff |
| PyText.ContainsIff | app.py:394 | the recursive substring test `needle in hay` holds exactly when needle occurs at some index of hay |
| PyText.ContainsInfix | app.py:849 | a text contains every one of its infixes |
| PyText.SplitOn | app.py:352 | `split('\n')` gives at least one part and no part holds the separator |
| PyText.JoinSplitOn | app.py:352 | joining the parts of `split(sep)` with sep gives back the text |
| PyText.SplitOnJoin | app.py:352 | splitting the join of separator-free parts gives back the parts |
| PyText.Words | app.py:964 | `split()` gives non-empty parts without white space |
| PyText.WordsJoin | app.py:964 | `split()` of words joined by single spaces gives back the words |
| PyText.NatToString | app.py:611 | `str(n)` is non-empty decimal digits, with no leading zero unless n is 0 |
| PyText.NatToStringValue | app.py:611 | the digits of `str(n)` denote n |
| PyText.RFind | app.py:478 | the last index of a character, or -1 when it does not occur |
| PyText.RFindAppend | app.py:478 | the last index in a + b is found in b when b has the character and in a otherwise |
| PyText.RFindUnique | app.py:478 | any index that is the character's last occurrence (or -1 with none) is the one RFind gives |
| PyText.Extension | app.py:478 | `os.path.splitext(p)[1]` is empty or a suffix of p that starts with '.' and has no later '.' or '/' |
| Upload.FormatMegabytes | app.py:474 | the size in megabytes with one decimal (`{size:.1f}`); what the text reads back as is stated by Upload.FormatMegabytesReadsBack |
| Upload.RoundHalfEven | app.py:474 | the quotient is within half a divisor of n / d, and a tie goes to the even quotient (how `.1f` rounds) |
| Upload.FormatMegabytesReadsBack | app.py:474 | the megabytes text is digits, a point and a digit whose tenths are a nearest tenth to size / 2^20 |
| Upload.ValidateFile | app.py:466-482 | accepts exactly a present file of at most 10 MiB with an allowed lower-cased extension; otherwise the message of the first failed check, in the order no file, size, format |
| Upload.FormatOf | app.py:533-544 | a reader is chosen exactly for the four allowed extensions |
| Upload.ProcessResume | app.py:526-552 | process_resume_file; its four outcomes are stated by Upload.ProcessResumeOutcome |
| Upload.ProcessResumeOutcome | app.py:526-552 | succeeds exactly when validation passes, the reader returns and the stripped text has at least 50 characters. The text given back is the stripped reader output. A failed check gives validation's message, a reader exception gives "Error processing file: " + the reader's message, and a stripped text under 50 characters gives the too-short message |
| Upload.AllowedExtensionShape | app.py:477 | every allowed extension is a dot followed by lower-case letters |
| Upload.AcceptedNameIff | app.py:477-479 | a name passes the format check exactly when it ends, in any case, in an allowed extension that follows a stem holding a non-dot character after its last '/' |
| Upload.ShapedNameAccepted | app.py:478 | a name ending in such a suffix has that suffix as its `splitext` extension |
| QuestionParsing.FallbackQuestions | app.py:452-461 | the fixed list has six non-empty questions |
| QuestionParsing.Unquote | app.py:356 | `[1:-1]` of a quoted line removes exactly the two quotes (a lone quote gives the empty string) |
| QuestionParsing.QuotedLines | app.py:354-356 | the questions found in a list of lines, never more than the lines; their order and membership are stated by QuestionParsing.QuotedLinesAppend and QuestionParsing.QuotedLinesMembers |
| QuestionParsing.QuotedLinesAppend | app.py:354-356 | the parse of two blocks of lines is the parse of the first followed by the parse of the second, so order is kept |
| QuestionParsing.QuotedLinesMembers | app.py:354-356 | a question is found exactly when some line, stripped, is quoted and unquotes to it |
| QuestionParsing.CollectQuoted | app.py:352-356 | the loop collects exactly the unquoted stripped lines that are quoted, in order |
| QuestionParsing.FallbackParsed | app.py:352-357 | the fallback result is the first min(6, n) of the n found questions |
| QuestionParsing.FallbackParse | app.py:352-357 | the parsing method returns the fallback result |
| QuestionParsing.GeneratedQuestions | app.py:342-361 | a failed call gives the six fixed questions. A bracketed stripped reply gives the decoded list, or the fixed questions when decoding raises. Any other reply gives exactly the first min(6, n) of the n questions found in it, in order |
| QuestionParsing.GenerateQuestions | app.py:342-361 | the generation method returns that list |
| QuestionParsing.QuotedLinesOfQuotes | app.py:355-356 | quoting questions line by line and parsing the lines gives back the questions |
| QuestionParsing.QuotedReplyEnds | app.py:344-347 | a reply of quoted lines is already stripped and is not taken for JSON |
| QuestionParsing.QuotedReplySplits | app.py:352 | splitting such a reply on newlines gives its quoted lines |
| QuestionParsing.QuotedReplyRoundTrip | app.py:344-357 | a reply listing one to six questions on quoted lines is parsed back to exactly those questions |
| Conversation.ShowQuestion | app.py:800-814 | the question is appended unless the conversation's last content already is it; afterwards it is last |
| Conversation.MessageKinds | app.py:810-846 | the shown question is a question message; answers and replies never are |
| Conversation.SignalsNextQuestion | app.py:849 | some readiness phrase occurs in the lower-cased reply; stated for phrases in any case by Conversation.PhraseInAnyCaseSignals, and shown false for the fixed follow-up by Conversation.FollowUpFallbackStays |
| Conversation.PhraseInAnyCaseSignals | app.py:849-850 | a reply containing a readiness phrase, in any ASCII case, signals the next question |
| Conversation.FollowUpFallbackStays | app.py:388 | the fixed follow-up holds none of the readiness phrases, in any letter case, so it never moves the interview on |
| Conversation.InterviewerReply | app.py:384-388 | when the call raises, the interviewer's turn is a non-blank text that does not signal the next question; otherwise it is blank exactly when the model's reply is only white space |
| Conversation.FeedbackText | app.py:446-450 | a failed call gives a non-blank text starting "Error generating feedback: "; a reply gives blank feedback, on which the feedback page shows no report (app.py:892), exactly when it is only white space |
| Conversation.HistoryWindow | app.py:365 | the window is the last min(4, n) messages of the conversation |
| Conversation.HistoryWindowSlides | app.py:365 | appending a message slides the window: the message joins it and the oldest leaves once four are held |
| Conversation.QuestionIndicesFrom | app.py:394 | the indices the pairing uses all point at question messages |
| Conversation.QuestionIndicesIncreasing | app.py:392-395 | those indices are strictly increasing, so pairs follow the conversation's order |
| Conversation.QuestionIndicesComplete | app.py:392-395 | every question message's index is among them |
| Conversation.QAPairs | app.py:392-395 | the question/answer pairs of the feedback prompt; what each pair is is stated by Conversation.PairsFollowQuestions and Conversation.PairQuestionsAreQuestionMessages |
| Conversation.PairsFollowQuestions | app.py:392-395 | the k-th pair is the k-th question message with the message right after it, or "No response" when it is last |
| Conversation.PairQuestionsAreQuestionMessages | app.py:392-395 | every pair comes from a question message of the conversation |
| Conversation.TotalWords | app.py:964 | the number of `split()` words over the candidate's messages; additive over concatenation (Conversation.CountsAppend) and exact for one answer (Conversation.AnswerWordCount) |
| Conversation.UserCount | app.py:968 | the number of answers is at most the conversation's length |
| Conversation.CountsAppend | app.py:964-968 | word and answer counts add up over concatenation |
| Conversation.AnswerWordCount | app.py:964 | an answer of n words joined by spaces counts n words and one answer |
| Conversation.AverageWords | app.py:968 | the corrected average, 0 without answers; its floor bounds are stated by Conversation.AverageWordsBounds |
| Conversation.AverageWordsBounds | app.py:968 | the average is 0 with no answers, else the floor of total words over answers |
| Conversation.AverageWordsAsWritten | app.py:968 | the page's expression fails exactly when the conversation is not empty and has no answer, and otherwise gives the average |
| Conversation.SkippedQuestionsRaise | app.py:968 | a conversation holding only a question makes that expression fail |
| Conversation.StatisticsOf | app.py:960-969 | the statistics show the number of questions and the total words; the average is 0 without answers and otherwise the total words per answer rounded down (the corrected average) |
| Progress.StageIndex | app.py:592-594 | `stages.index(stage)` is the stage's position in wizard order |
| Progress.Indicators | app.py:605-614 | stage i is completed exactly when i < c, active exactly when i == c, inactive exactly when i > c, and the icon of a stage not yet completed is its 1-based number |
| Progress.ExactlyOneActive | app.py:605-614 | exactly one stage is active, the current one |
| Progress.ProgressFill | app.py:595 | the fill c / 3 of a hundred lies between 0 and 100, is 0 only on upload and full only on feedback |
| Progress.ProgressFillMonotone | app.py:595 | a later stage never shows less progress |
| Progress.StageInfo | app.py:631-638 | the sidebar's line for each stage; the interview line's numbers are stated by Progress.InterviewInfoNumbers, and the "Unknown stage" default is unreachable because every stage has a line |
| Progress.InterviewInfoNumbers | app.py:634 | during the interview the sidebar names the 1-based current question and the number of questions |
| Wizard.EveryKeyIsStored | app.py:557-567 | every key is one of the defaults' keys |
| Wizard.KeyLists | app.py:557-567 | the defaults list every key once, and the reset list is every key but the client's |
| Wizard.Defaults | app.py:557-567 | the nine default values of initialize_session_state; that a restart followed by initializing gives them back is stated by Wizard.RestartRestoresDefaults |
| Wizard.WithDefaults | app.py:569-571 | key by key, a stored key keeps its value and a missing key takes its default; the client is kept only when its key is present |
| Wizard.WithAllKeys | app.py:569-571 | with every key present, nothing is reset |
| Wizard.WithClientKeyOnly | app.py:569-571 | with only the client's key present, every other value is its default |
| Wizard.Initialize | app.py:555-578 | missing keys get their defaults, and a client is stored when one was present or is created now |
| Wizard.RestartRestoresDefaults | app.py:672-676 | after a restart the next run starts from the defaults and keeps only the client |
| Wizard.UploadStep | app.py:691-708 | the stage moves to details exactly when a file was processed successfully and "Continue" was pressed; a success stores the text; nothing else changes |
| Wizard.UploadStepOf | app.py:693-706 | the upload step in terms of the processing result |
| Wizard.DetailsStep | app.py:740-767 | the job is stored exactly when title, company and description are all non-empty. The stage moves to interview, with the generated questions, exactly when a client is stored as well. Nothing else changes |
| Wizard.InterviewStep | app.py:771-886 | feedback is reached exactly when there is at least one question, the questions are done and feedback is requested; with no questions the page changes nothing. The index rises by exactly one, on a non-blank answer whose reply signals readiness or on "Next Question". The conversation grows by the shown question, then the stripped answer and one reply. Completion is recorded once the questions are done. The feedback changes only when the feedback stage is entered |
| Wizard.AnswerStepResult | app.py:827-852 | the step for a non-blank answer is the question shown, the stripped answer and the reply appended, with the index advanced on readiness |
| Wizard.ShownStepResult | app.py:797-863 | without an answer the step shows the question and advances only on "Next Question" |
| Wizard.CompletionStepResult | app.py:865-886 | once the questions are done, the step records completion, and on request stores the feedback and moves to feedback |
| Wizard.PracticeAgain | app.py:938-945 | stage details, index 0, empty conversation, questions and feedback, not completed; résumé, job and client kept |
| Wizard.PageStep | app.py:986-995 | a run moves at most one stage forward (or from feedback back to details), changes the résumé only on upload, and never the client |
| Wizard.InitializeConsistent | app.py:555-578 | initializing a consistent or reset session gives a consistent one |
| Wizard.UploadStepConsistent | app.py:691-706 | the upload page keeps the values consistent |
| Wizard.DetailsStepConsistent | app.py:740-765 | the details page keeps the values consistent |
| Wizard.AppendExchange | app.py:829-846 | appending a stripped non-blank answer and one reply keeps each answer followed by a plain reply |
| Wizard.InterviewStepConsistent | app.py:797-886 | the interview page keeps the values consistent |
| Wizard.AnswerStepConsistent | app.py:827-852 | answering keeps the values consistent |
| Wizard.PracticeAgainConsistent | app.py:938-945 | "Practice Again" keeps the values consistent |
| Wizard.PageStepConsistent | app.py:986-993 | every page run keeps the values consistent |
| Wizard.FeedbackQuestionsAreGenerated | app.py:392-395 | every question the feedback prompt pairs is one of the generated questions |
| Wizard.OneQuestionInterview | app.py:740-765 | a complete form and a reply quoting one question start an interview on exactly that question |
| Wizard.SkipOnlyQuestion | app.py:857-863 | showing and skipping the only question ends the questions with nothing answered |
| Wizard.SkippedInterviewBreaksStatistics | app.py:857-894 | skipping a one-question interview reaches the feedback page with a conversation on which the average fails; the stored feedback is non-blank, so the page goes on to the statistics, whenever the reviewer's call raises or replies with something other than white space |
| Session.SessionState.SetDefault | app.py:570-571 | storing one default changes only that key's value |
| Session.SessionState.InsertDefault | app.py:569-571 | each pass of the defaults loop adds its key, and a value where the key was missing |
| Session.SessionState.InsertDefaults | app.py:569-571 | the defaults loop stores every key and gives each missing key its default |
| Session.SessionState.Initialize | app.py:555-578 | the session's values become the initializing function's; the run stops only when no client is stored and st.stop ran for want of an API key, and goes on without a client when building one raised |
| Session.SessionState.Restart | app.py:672-676 | the eight listed keys are deleted and the client's key is kept |
| Session.SessionState.RenderUpload | app.py:691-708 | the upload page's new values are the upload step's |
| Session.SessionState.RenderDetails | app.py:740-767 | the details page's new values are the details step's |
| Session.SessionState.RenderInterview | app.py:771-886 | the interview page's new values are the interview step's |
| Session.SessionState.ShowCurrentQuestion | app.py:800-814 | the conversation is the shown question's conversation |
| Session.SessionState.AskQuestion | app.py:797-863 | a current question's page gives the interview step's values |
| Session.SessionState.SubmitAnswer | app.py:827-852 | appending the answer and reply, and advancing on readiness, gives the answered values |
| Session.SessionState.RenderFeedback | app.py:888-952 | "Practice Again" gives its reset values, "New Interview" deletes the eight keys, and nothing happens without stored feedback |
| Session.SessionState.Run | app.py:976-995 | each run keeps the session valid. It stops after initializing only when no client is stored and st.stop ran for want of an API key, restarts on the sidebar button or "New Interview", and otherwise gives the page step's values |
| Session.SessionState.RunPage | app.py:985-995 | the stage dispatch keeps the values consistent and gives the page step's values |
| Session.SessionState.RunUpload | app.py:986-987 | the upload page runs only in its own stage |
| Session.SessionState.RunDetails | app.py:988-989 | the details page runs only in its own stage |
| Session.SessionState.RunInterview | app.py:990-991 | the interview page runs only in its own stage |
| Session.SessionState.RunFeedback | app.py:992-993 | the feedback page runs only in its own stage |
| Session.WithDefaultsCompose | app.py:569-571 | giving defaults twice is giving them once on the keys missing either time |
| Session.InsertDefaultStep | app.py:569-571 | one pass of the defaults loop either finds its key present or gives exactly that key its default |

## Left out

- Gemini calls and every prompt text are out: the replies are parameters that return `Result`s, and only what the app does with a reply is modelled.
- `json.loads` is out: it is the `decode` parameter. A decoded value that is not a list of strings is not modelled.
- The document readers are out (PyPDF2, python-docx, mammoth, UTF-8 decoding): they are the `extract` parameter, with the reader's own final strip folded into the résumé check.
- `GEMINI_API_KEY`, `load_dotenv` and `genai.configure` are out: how creating the client ends is the `ClientInit` parameter, and `st.stop` ends the run there.
- `st.rerun` and `st.stop` are not separate operations: each page run is one script run that ends where they are called.
- `time.sleep` and `time.strftime` are out: clocks do not affect the state.
- All display is out, because it does not change the session:
  - `load_custom_css`, `render_header` and the footer;
  - the markdown and HTML output, the chat display, previews, spinners and tips;
  - the download report (app.py:905-935);
  - the `st.error` and `st.success` messages.
- Widget keys and the per-question form keys (app.py:817-822) are out: the widgets' events for the run are inputs.
- Progress as floating point is out. The top bar's percentage is kept as an exact fraction. The interview page's bar (app.py:781-782) and the sidebar's bar (app.py:652-654) are not modelled.
- The sidebar's progress lines (app.py:652-654) are indented inconsistently, so the file as written does not parse. The model assumes the evident intent. The sidebar appears only as its stage line and its restart button.
- The sidebar's résumé-length and position lines (app.py:641-649) are out: they are display only.
- `Job`'s experience and industry are stored but nothing reads them apart from a prompt.
- PyText.Lower: lower-cases only A–Z, while Python's `str.lower` also lowers non-ASCII letters. A readiness phrase or an extension spelled with non-ASCII capitals is taken differently.
- PyText.Extension: follows POSIX `os.path.splitext`, with '/' as the only separator.
- Python integers are unbounded, so `nat` and `int` need no wrap-around.

## Findings

| source | as written | input that shows it | evidently intended | confidence | as-written member | corrected member |
|---|---|---|---|---|---|---|
| app.py:968 | `total_words // len(user messages) if conversation else 0` guards only the empty conversation | an interview of one question skipped with "Next Question": the conversation holds the question and no answer, and the statistics divide by zero | an average of 0 when there is no answer | not executed | Conversation.AverageWordsAsWritten, Wizard.SkippedInterviewBreaksStatistics | Conversation.AverageWords (proved by Conversation.AverageWordsBounds, used by Conversation.StatisticsOf) |
