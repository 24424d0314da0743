/**
 * The four-stage wizard as a state machine over the session's values: the
 * defaults initialize_session_state inserts, one step per script run of
 * each stage page, the "Practice Again" reset, and the invariant that every
 * step keeps. The models' replies are parameters: `generate`, `interviewer`
 * and `reviewer` stand for the three calls of the client, and each gives the
 * reply text or the text of the exception.
 */
module Wizard {
  import opened Wrappers
  import opened PyText
  import opened Upload
  import opened QuestionParsing
  import opened Conversation
  import opened Progress

  /** The session keys the application stores. */
  datatype Key =
    | StageKey | ResumeTextKey | JobDetailsKey | QuestionsKey | CurrentQuestionIdxKey
    | ConversationKey | FeedbackKey | InterviewCompletedKey | GeminiClientKey

  /** The keys initialize_session_state gives a default, in the order it inserts them. */
  const DefaultKeys: seq<Key> := [
    StageKey, ResumeTextKey, JobDetailsKey, QuestionsKey, CurrentQuestionIdxKey,
    ConversationKey, FeedbackKey, InterviewCompletedKey, GeminiClientKey]

  /** The keys both "new interview" buttons delete, in the order they delete them. */
  const ResetKeys: seq<Key> := [
    StageKey, ResumeTextKey, JobDetailsKey, QuestionsKey, CurrentQuestionIdxKey,
    ConversationKey, FeedbackKey, InterviewCompletedKey]

  /** Every key the application stores. */
  const AllKeys: set<Key> := {
    StageKey, ResumeTextKey, JobDetailsKey, QuestionsKey, CurrentQuestionIdxKey,
    ConversationKey, FeedbackKey, InterviewCompletedKey, GeminiClientKey}

  function KeySet(ks: seq<Key>): set<Key> {
    set k | k in ks
  }

  lemma EveryKeyIsStored(k: Key)
    ensures k in AllKeys
  {
    match k
    case StageKey =>
    case ResumeTextKey =>
    case JobDetailsKey =>
    case QuestionsKey =>
    case CurrentQuestionIdxKey =>
    case ConversationKey =>
    case FeedbackKey =>
    case InterviewCompletedKey =>
    case GeminiClientKey =>
  }

  /** Every key has a default, and the reset deletes every key but the client's. */
  lemma KeyLists()
    ensures KeySet(DefaultKeys) == AllKeys
    ensures KeySet(ResetKeys) == AllKeys - {GeminiClientKey}
  {
    assert KeySet(DefaultKeys) == AllKeys;
    assert KeySet(ResetKeys) == AllKeys - {GeminiClientKey};
  }

  /** The job details the form collects. */
  datatype Job = Job(title: string, company: string, description: string, experienceYears: int, industry: string)

  /** The three fields marked required are filled in. */
  predicate JobComplete(j: Job) {
    j.title != "" && j.company != "" && j.description != ""
  }

  /**
   * The session's values. `jobDetails` is None while the session holds the
   * empty dictionary, and `hasClient` says whether a client is stored.
   */
  datatype State = State(
    stage: Stage,
    resumeText: string,
    jobDetails: Option<Job>,
    questions: seq<string>,
    currentQuestionIdx: nat,
    conversation: seq<Message>,
    feedback: string,
    interviewCompleted: bool,
    hasClient: bool)

  /** The defaults of initialize_session_state. */
  function Defaults(): State {
    State(Upload, "", None, [], 0, [], "", false, false)
  }

  /**
   * The values once every key outside `present` has been given its default:
   * a stored key keeps its value and a missing one takes its default. The
   * client is only usable when its key is stored and a client was made.
   */
  function WithDefaults(s: State, present: set<Key>): (r: State)
    ensures StageKey in present ==> r.stage == s.stage
    ensures StageKey !in present ==> r.stage == Defaults().stage
    ensures ResumeTextKey in present ==> r.resumeText == s.resumeText
    ensures ResumeTextKey !in present ==> r.resumeText == Defaults().resumeText
    ensures JobDetailsKey in present ==> r.jobDetails == s.jobDetails
    ensures JobDetailsKey !in present ==> r.jobDetails == Defaults().jobDetails
    ensures QuestionsKey in present ==> r.questions == s.questions
    ensures QuestionsKey !in present ==> r.questions == Defaults().questions
    ensures CurrentQuestionIdxKey in present ==> r.currentQuestionIdx == s.currentQuestionIdx
    ensures CurrentQuestionIdxKey !in present ==> r.currentQuestionIdx == Defaults().currentQuestionIdx
    ensures ConversationKey in present ==> r.conversation == s.conversation
    ensures ConversationKey !in present ==> r.conversation == Defaults().conversation
    ensures FeedbackKey in present ==> r.feedback == s.feedback
    ensures FeedbackKey !in present ==> r.feedback == Defaults().feedback
    ensures InterviewCompletedKey in present ==> r.interviewCompleted == s.interviewCompleted
    ensures InterviewCompletedKey !in present ==> r.interviewCompleted == Defaults().interviewCompleted
    ensures r.hasClient == (GeminiClientKey in present && s.hasClient)
  {
    var d := Defaults();
    State(
      Kept(present, StageKey, s.stage, d.stage),
      Kept(present, ResumeTextKey, s.resumeText, d.resumeText),
      Kept(present, JobDetailsKey, s.jobDetails, d.jobDetails),
      Kept(present, QuestionsKey, s.questions, d.questions),
      Kept(present, CurrentQuestionIdxKey, s.currentQuestionIdx, d.currentQuestionIdx),
      Kept(present, ConversationKey, s.conversation, d.conversation),
      Kept(present, FeedbackKey, s.feedback, d.feedback),
      Kept(present, InterviewCompletedKey, s.interviewCompleted, d.interviewCompleted),
      GeminiClientKey in present && s.hasClient)
  }

  /** A key's stored value when the key is present, its default otherwise. */
  function Kept<T>(present: set<Key>, k: Key, value: T, default: T): T {
    if k in present then value else default
  }

  /** With every key present, nothing is reset. */
  lemma WithAllKeys(s: State, present: set<Key>)
    requires AllKeys <= present
    ensures WithDefaults(s, present) == s
  {
    assert StageKey in present && ResumeTextKey in present && JobDetailsKey in present;
    assert QuestionsKey in present && CurrentQuestionIdxKey in present && ConversationKey in present;
    assert FeedbackKey in present && InterviewCompletedKey in present && GeminiClientKey in present;
  }

  /** With no key but the client's present, everything else is reset. */
  lemma WithClientKeyOnly(s: State, present: set<Key>)
    requires present <= {GeminiClientKey}
    ensures WithDefaults(s, present) == Defaults().(hasClient := GeminiClientKey in present && s.hasClient)
  {
    assert StageKey !in present && ResumeTextKey !in present && JobDetailsKey !in present;
    assert QuestionsKey !in present && CurrentQuestionIdxKey !in present && ConversationKey !in present;
    assert FeedbackKey !in present && InterviewCompletedKey !in present;
  }

  /**
   * How creating the client ends: it is created, its construction raises (an
   * error is shown and the run goes on), or no API key is set (st.stop ends
   * the run).
   */
  datatype ClientInit = ClientCreated | ClientFailed | ClientStopped

  /** initialize_session_state on the values and the keys present. */
  function Initialize(s: State, present: set<Key>, init: ClientInit): (r: State)
    ensures r.hasClient <==> (GeminiClientKey in present && s.hasClient) || init == ClientCreated
    ensures r == WithDefaults(s, present).(hasClient := r.hasClient)
  {
    var d := WithDefaults(s, present);
    if !d.hasClient && init == ClientCreated then d.(hasClient := true) else d
  }

  /** The run goes on after initialization unless a client was needed and st.stop ran. */
  function InitializeProceeds(s: State, present: set<Key>, init: ClientInit): bool {
    WithDefaults(s, present).hasClient || init != ClientStopped
  }

  /**
   * After a reset, which leaves no key but the client's, the next
   * initialization restores the defaults; only the client survives.
   */
  lemma RestartRestoresDefaults(s: State, present: set<Key>, init: ClientInit)
    requires present * KeySet(ResetKeys) == {}
    ensures Initialize(s, present, init) ==
      Defaults().(hasClient := (GeminiClientKey in present && s.hasClient) || init == ClientCreated)
  {
    KeyLists();
    forall k | k in present ensures k in AllKeys {
      EveryKeyIsStored(k);
    }
    assert present <= {GeminiClientKey};
    WithClientKeyOnly(s, present);
  }

  /**
   * One run of the upload page: a file was uploaded or not, and "Continue to
   * Job Details" was pressed or not (the button is only there when the file
   * was accepted).
   */
  function UploadStep(s: State, file: Option<UploadedFile>, extract: DocKind -> Result<string, string>,
                      continuePressed: bool): (r: State)
    requires s.stage == Upload
    ensures r.stage == Details <==> file.Some? && ProcessResume(file, extract).0 && continuePressed
    ensures r.stage == Upload || r.stage == Details
    ensures file.Some? && ProcessResume(file, extract).0 ==> r.resumeText == ProcessResume(file, extract).1
    ensures !(file.Some? && ProcessResume(file, extract).0) ==> r == s
    ensures r.jobDetails == s.jobDetails && r.questions == s.questions
    ensures r.currentQuestionIdx == s.currentQuestionIdx && r.conversation == s.conversation
    ensures r.feedback == s.feedback && r.interviewCompleted == s.interviewCompleted && r.hasClient == s.hasClient
  {
    if file.None? then s
    else
      var (ok, result) := ProcessResume(file, extract);
      if !ok then s
      else if continuePressed then s.(resumeText := result, stage := Details)
      else s.(resumeText := result)
  }

  /** The upload step in terms of the processing result, for the page's implementation. */
  lemma UploadStepOf(s: State, file: Option<UploadedFile>, extract: DocKind -> Result<string, string>,
                     continuePressed: bool, processed: (bool, string))
    requires s.stage == Upload && processed == ProcessResume(file, extract)
    ensures UploadStep(s, file, extract, continuePressed) ==
      if file.Some? && processed.0
      then s.(resumeText := processed.1, stage := if continuePressed then Details else s.stage)
      else s
  {
  }

  /**
   * One run of the details page: the form was submitted (with its fields) or
   * not. A complete form stores the details and, when a client is stored,
   * generates the questions from the résumé and the details and enters the
   * interview; without a client the call raises and the page stays.
   */
  function DetailsStep(s: State, form: Option<Job>, generate: (string, Job) -> Result<string, string>,
                       decode: string -> Option<seq<string>>): (r: State)
    requires s.stage == Details
    ensures r.stage == Interview <==> form.Some? && JobComplete(form.value) && s.hasClient
    ensures r.stage == Details || r.stage == Interview
    ensures r.stage == Interview ==> r.questions == GeneratedQuestions(generate(s.resumeText, form.value), decode)
    ensures r.stage == Details ==> r.questions == s.questions
    ensures form.Some? && JobComplete(form.value) ==> r.jobDetails == form
    ensures !(form.Some? && JobComplete(form.value)) ==> r == s
    ensures r.resumeText == s.resumeText && r.currentQuestionIdx == s.currentQuestionIdx
    ensures r.conversation == s.conversation && r.feedback == s.feedback
    ensures r.interviewCompleted == s.interviewCompleted && r.hasClient == s.hasClient
  {
    match form
    case None => s
    case Some(job) =>
      if job.title == "" || job.company == "" || job.description == "" then s
      else
        var stored := s.(jobDetails := Some(job));
        if !s.hasClient then stored
        else stored.(questions := GeneratedQuestions(generate(s.resumeText, job), decode), stage := Interview)
  }

  /** What happened during one run of the interview page. */
  datatype InterviewEvent =
    | NoInterviewEvent
    | AnswerSubmitted(answer: string)
    | NextQuestionPressed
    | FeedbackRequested

  /** The question being asked. */
  function CurrentQuestion(s: State): string
    requires s.currentQuestionIdx < |s.questions|
  {
    s.questions[s.currentQuestionIdx]
  }

  /** The conversation once the current question is shown and the stripped answer added. */
  function Asked(s: State, answer: string): seq<Message>
    requires s.currentQuestionIdx < |s.questions|
  {
    ShowQuestion(s.conversation, CurrentQuestion(s)) + [AnswerMessage(Strip(answer))]
  }

  /**
   * The interviewer's reply: the call gets the question, the answer as typed
   * and the conversation, of which it uses the last four messages.
   */
  function ReplyFor(s: State, answer: string, interviewer: (string, string, seq<Message>) -> Result<string, string>): string
    requires s.currentQuestionIdx < |s.questions|
  {
    InterviewerReply(interviewer(CurrentQuestion(s), answer, HistoryWindow(Asked(s, answer))))
  }

  /**
   * One run of the interview page. With no questions nothing happens. While
   * a question is left, it is shown (unless the conversation already ends
   * with its text); a non-blank answer adds the stripped answer and exactly
   * one reply, and moves on when the reply signals it; "Next Question" moves
   * on when the last message is the assistant's. Once past the last
   * question the interview is marked completed, and requesting feedback
   * stores it and enters the feedback stage.
   */
  function InterviewStep(s: State, event: InterviewEvent,
                         interviewer: (string, string, seq<Message>) -> Result<string, string>,
                         reviewer: (seq<QAPair>, Option<Job>) -> Result<string, string>): (r: State)
    requires s.stage == Interview
    ensures r.stage == Feedback <==>
      s.questions != [] && s.currentQuestionIdx >= |s.questions| && event == FeedbackRequested
    ensures r.stage == Interview || r.stage == Feedback
    ensures r.stage == Feedback ==> r.feedback == FeedbackText(reviewer(QAPairs(s.conversation), s.jobDetails))
    ensures r.stage != Feedback ==> r.feedback == s.feedback
    ensures r.currentQuestionIdx == s.currentQuestionIdx || r.currentQuestionIdx == s.currentQuestionIdx + 1
    ensures r.currentQuestionIdx == s.currentQuestionIdx + 1 <==>
      s.currentQuestionIdx < |s.questions| &&
      ((event.AnswerSubmitted? && Strip(event.answer) != "" && SignalsNextQuestion(ReplyFor(s, event.answer, interviewer))) ||
       (event == NextQuestionPressed &&
        ShowQuestion(s.conversation, CurrentQuestion(s))[|ShowQuestion(s.conversation, CurrentQuestion(s))| - 1].role == Assistant))
    ensures s.currentQuestionIdx < |s.questions| ==>
      r.conversation ==
        if event.AnswerSubmitted? && Strip(event.answer) != ""
        then Asked(s, event.answer) + [ReplyMessage(ReplyFor(s, event.answer, interviewer))]
        else ShowQuestion(s.conversation, CurrentQuestion(s))
    ensures s.currentQuestionIdx >= |s.questions| ==> r.conversation == s.conversation
    ensures r.interviewCompleted <==> s.interviewCompleted || (s.questions != [] && s.currentQuestionIdx >= |s.questions|)
    ensures r.resumeText == s.resumeText && r.jobDetails == s.jobDetails
    ensures r.questions == s.questions && r.hasClient == s.hasClient
  {
    if s.questions == [] then s
    else if s.currentQuestionIdx < |s.questions| then
      var shown := ShowQuestion(s.conversation, CurrentQuestion(s));
      match event
      case AnswerSubmitted(answer) =>
        if Strip(answer) == "" then s.(conversation := shown)
        else
          var reply := ReplyFor(s, answer, interviewer);
          s.(conversation := Asked(s, answer) + [ReplyMessage(reply)],
             currentQuestionIdx := if SignalsNextQuestion(reply) then s.currentQuestionIdx + 1 else s.currentQuestionIdx)
      case NextQuestionPressed =>
        s.(conversation := shown,
           currentQuestionIdx := if shown[|shown| - 1].role == Assistant then s.currentQuestionIdx + 1 else s.currentQuestionIdx)
      case _ => s.(conversation := shown)
    else
      var done := s.(interviewCompleted := true);
      if event == FeedbackRequested
      then done.(feedback := FeedbackText(reviewer(QAPairs(s.conversation), s.jobDetails)), stage := Feedback)
      else done
  }

  /** "Practice Again": back to the details page, keeping the résumé and the job details. */
  function PracticeAgain(s: State): (r: State)
    ensures r.stage == Details && r.currentQuestionIdx == 0 && r.conversation == [] && r.questions == []
    ensures r.feedback == "" && !r.interviewCompleted
    ensures r.resumeText == s.resumeText && r.jobDetails == s.jobDetails && r.hasClient == s.hasClient
  {
    s.(stage := Details, currentQuestionIdx := 0, conversation := [], questions := [], feedback := "",
       interviewCompleted := false)
  }

  /** What the feedback page's buttons did during one run. */
  datatype FeedbackAction = NoFeedbackAction | PracticeAgainPressed | NewInterviewPressed

  /** The widgets one run of the current page read. */
  datatype PageInput =
    | UploadInput(file: Option<UploadedFile>, continuePressed: bool)
    | DetailsInput(form: Option<Job>)
    | InterviewInput(event: InterviewEvent)
    | FeedbackInput(action: FeedbackAction)

  /** The outside services a run may call: the file readers, the JSON decoder and the three model calls. */
  datatype Services = Services(
    extract: DocKind -> Result<string, string>,
    generate: (string, Job) -> Result<string, string>,
    decode: string -> Option<seq<string>>,
    interviewer: (string, string, seq<Message>) -> Result<string, string>,
    reviewer: (seq<QAPair>, Option<Job>) -> Result<string, string>)

  /**
   * The feedback page's "New Interview" button was pressed; it is only
   * there when feedback is stored.
   */
  predicate NewInterviewRequested(s: State, input: PageInput) {
    s.stage == Feedback && s.feedback != "" && input == FeedbackInput(NewInterviewPressed)
  }

  /**
   * The page of the current stage, run on the widgets it shows: input meant
   * for another page changes nothing, and "New Interview" leaves the values
   * to the key deletion.
   */
  function PageStep(s: State, input: PageInput, sv: Services): (r: State)
    ensures r.stage == s.stage || StageIndex(r.stage) == StageIndex(s.stage) + 1 ||
            (s.stage == Feedback && r.stage == Details)
    ensures r.resumeText == s.resumeText || s.stage == Upload
    ensures r.hasClient == s.hasClient
  {
    match input
    case UploadInput(file, continuePressed) =>
      if s.stage == Upload then UploadStep(s, file, sv.extract, continuePressed) else s
    case DetailsInput(form) =>
      if s.stage == Details then DetailsStep(s, form, sv.generate, sv.decode) else s
    case InterviewInput(event) =>
      if s.stage == Interview then InterviewStep(s, event, sv.interviewer, sv.reviewer) else s
    case FeedbackInput(action) =>
      if s.stage == Feedback && s.feedback != "" && action == PracticeAgainPressed then PracticeAgain(s) else s
  }

  /**
   * The shape every conversation keeps: each answer is stripped and not
   * blank and is followed right away by a plain reply, and the text of each
   * message the pairing treats as a question is one of the questions.
   */
  predicate WellFormedConversation(conv: seq<Message>, questions: seq<string>) {
    && (forall i :: 0 <= i < |conv| && conv[i].role == User ==>
          conv[i].content != "" && Strip(conv[i].content) == conv[i].content &&
          i + 1 < |conv| && conv[i + 1] == ReplyMessage(conv[i + 1].content))
    && (forall i :: 0 <= i < |conv| && IsQuestion(conv[i]) ==> conv[i].content in questions)
  }

  /** The invariant of the session's values over every run. */
  predicate Consistent(s: State) {
    && (s.stage != Upload ==> ResumeAccepted(s.resumeText))
    && (s.stage == Upload || s.stage == Details ==>
          s.questions == [] && s.currentQuestionIdx == 0 && s.conversation == [] &&
          s.feedback == "" && !s.interviewCompleted)
    && (s.stage == Interview || s.stage == Feedback ==>
          s.jobDetails.Some? && JobComplete(s.jobDetails.value) && s.hasClient)
    && (s.stage == Interview ==> s.currentQuestionIdx <= |s.questions|)
    && (s.stage == Interview && s.interviewCompleted ==>
          s.questions != [] && s.currentQuestionIdx == |s.questions|)
    && (s.stage == Feedback ==>
          s.questions != [] && s.currentQuestionIdx == |s.questions| && s.interviewCompleted)
    && WellFormedConversation(s.conversation, s.questions)
  }

  /** Initialization keeps a consistent session consistent, and makes a reset one consistent. */
  lemma InitializeConsistent(s: State, present: set<Key>, init: ClientInit)
    requires (AllKeys <= present && Consistent(s)) || present <= {GeminiClientKey}
    ensures Consistent(Initialize(s, present, init))
  {
    var r := Initialize(s, present, init);
    if AllKeys <= present {
      WithAllKeys(s, present);
      assert r == s.(hasClient := r.hasClient);
    } else {
      WithClientKeyOnly(s, present);
    }
  }

  lemma UploadStepConsistent(s: State, file: Option<UploadedFile>, extract: DocKind -> Result<string, string>,
                             continuePressed: bool)
    requires Consistent(s) && s.stage == Upload
    ensures Consistent(UploadStep(s, file, extract, continuePressed))
  {
    ProcessResumeOutcome(file, extract);
  }

  lemma DetailsStepConsistent(s: State, form: Option<Job>, generate: (string, Job) -> Result<string, string>,
                              decode: string -> Option<seq<string>>)
    requires Consistent(s) && s.stage == Details
    ensures Consistent(DetailsStep(s, form, generate, decode))
  {
  }

  /** Appending an assistant message whose text, if it is a question, is a question of the list. */
  lemma AppendAssistant(conv: seq<Message>, questions: seq<string>, m: Message)
    requires WellFormedConversation(conv, questions)
    requires m.role == Assistant && (IsQuestion(m) ==> m.content in questions)
    ensures WellFormedConversation(conv + [m], questions)
  {
    var c := conv + [m];
    forall i | 0 <= i < |c| && c[i].role == User
      ensures c[i].content != "" && Strip(c[i].content) == c[i].content &&
              i + 1 < |c| && c[i + 1] == ReplyMessage(c[i + 1].content)
    {
      assert c[i] == conv[i];
      assert c[i + 1] == conv[i + 1];
    }
    forall i | 0 <= i < |c| && IsQuestion(c[i]) ensures c[i].content in questions {
      if i < |conv| { assert c[i] == conv[i]; }
    }
  }

  /** Appending a stripped, non-blank answer and one reply. */
  lemma AppendExchange(conv: seq<Message>, questions: seq<string>, a: string, reply: string)
    requires WellFormedConversation(conv, questions)
    requires a != "" && Strip(a) == a
    ensures WellFormedConversation(conv + [AnswerMessage(a), ReplyMessage(reply)], questions)
  {
    var c := conv + [AnswerMessage(a), ReplyMessage(reply)];
    MessageKinds("", a, reply);
    forall i | 0 <= i < |c| && c[i].role == User
      ensures c[i].content != "" && Strip(c[i].content) == c[i].content &&
              i + 1 < |c| && c[i + 1] == ReplyMessage(c[i + 1].content)
    {
      if i < |conv| {
        assert c[i] == conv[i];
        assert c[i + 1] == conv[i + 1];
      } else {
        assert i == |conv|;
      }
    }
    forall i | 0 <= i < |c| && IsQuestion(c[i]) ensures c[i].content in questions {
      if i < |conv| { assert c[i] == conv[i]; }
    }
  }

  lemma ShowQuestionWellFormed(conv: seq<Message>, questions: seq<string>, idx: nat)
    requires WellFormedConversation(conv, questions) && idx < |questions|
    ensures WellFormedConversation(ShowQuestion(conv, questions[idx]), questions)
  {
    if ShowQuestion(conv, questions[idx]) != conv {
      MessageKinds(questions[idx], "", "");
      AppendAssistant(conv, questions, QuestionMessage(questions[idx]));
    }
  }

  lemma InterviewStepConsistent(s: State, event: InterviewEvent,
                                interviewer: (string, string, seq<Message>) -> Result<string, string>,
                                reviewer: (seq<QAPair>, Option<Job>) -> Result<string, string>)
    requires Consistent(s) && s.stage == Interview
    ensures Consistent(InterviewStep(s, event, interviewer, reviewer))
  {
    if s.questions == [] {
    } else if s.currentQuestionIdx < |s.questions| {
      if event.AnswerSubmitted? && Strip(event.answer) != "" {
        AnswerStepConsistent(s, event.answer, interviewer, reviewer);
      } else {
        QuestionShownConsistent(s, event, interviewer, reviewer);
      }
    } else {
      var r := InterviewStep(s, event, interviewer, reviewer);
      assert r.conversation == s.conversation && r.questions == s.questions;
    }
  }

  /** A non-blank answer to the current question keeps the invariant. */
  lemma AnswerStepConsistent(s: State, answer: string,
                             interviewer: (string, string, seq<Message>) -> Result<string, string>,
                             reviewer: (seq<QAPair>, Option<Job>) -> Result<string, string>)
    requires Consistent(s) && s.stage == Interview && s.currentQuestionIdx < |s.questions|
    requires Strip(answer) != ""
    ensures Consistent(InterviewStep(s, AnswerSubmitted(answer), interviewer, reviewer))
  {
    var reply := ReplyFor(s, answer, interviewer);
    StripIdempotent(answer);
    ExchangeConsistent(s, Strip(answer), reply, SignalsNextQuestion(reply));
    AnswerStepResult(s, answer, interviewer, reviewer);
  }

  /** The values after a non-blank answer: the question shown, the answer and the reply added, maybe moved on. */
  function Answered(s: State, answer: string, interviewer: (string, string, seq<Message>) -> Result<string, string>): State
    requires s.currentQuestionIdx < |s.questions|
  {
    var reply := ReplyFor(s, answer, interviewer);
    s.(conversation := ShowQuestion(s.conversation, CurrentQuestion(s)) +
                       [AnswerMessage(Strip(answer)), ReplyMessage(reply)],
       currentQuestionIdx := if SignalsNextQuestion(reply) then s.currentQuestionIdx + 1 else s.currentQuestionIdx)
  }

  /** A non-blank answer while a question is left gives the values of Answered. */
  lemma AnswerStepResult(s: State, answer: string,
                         interviewer: (string, string, seq<Message>) -> Result<string, string>,
                         reviewer: (seq<QAPair>, Option<Job>) -> Result<string, string>)
    requires s.stage == Interview && s.currentQuestionIdx < |s.questions|
    requires Strip(answer) != ""
    ensures InterviewStep(s, AnswerSubmitted(answer), interviewer, reviewer) == Answered(s, answer, interviewer)
  {
    var reply := ReplyFor(s, answer, interviewer);
    assert Asked(s, answer) + [ReplyMessage(reply)] ==
      ShowQuestion(s.conversation, CurrentQuestion(s)) + [AnswerMessage(Strip(answer)), ReplyMessage(reply)];
  }

  /** Any other event while a question is left only shows it, and "Next Question" may move on. */
  lemma ShownStepResult(s: State, event: InterviewEvent,
                        interviewer: (string, string, seq<Message>) -> Result<string, string>,
                        reviewer: (seq<QAPair>, Option<Job>) -> Result<string, string>)
    requires s.stage == Interview && s.currentQuestionIdx < |s.questions|
    requires !(event.AnswerSubmitted? && Strip(event.answer) != "")
    ensures var shown := ShowQuestion(s.conversation, CurrentQuestion(s));
      InterviewStep(s, event, interviewer, reviewer) ==
      s.(conversation := shown,
         currentQuestionIdx := if event == NextQuestionPressed && shown[|shown| - 1].role == Assistant
                               then s.currentQuestionIdx + 1 else s.currentQuestionIdx)
  {
  }

  /** Past the last question the interview is completed, and feedback may be requested. */
  lemma CompletionStepResult(s: State, event: InterviewEvent,
                             interviewer: (string, string, seq<Message>) -> Result<string, string>,
                             reviewer: (seq<QAPair>, Option<Job>) -> Result<string, string>)
    requires s.stage == Interview && s.questions != [] && s.currentQuestionIdx >= |s.questions|
    ensures InterviewStep(s, event, interviewer, reviewer) ==
      if event == FeedbackRequested
      then s.(interviewCompleted := true, feedback := FeedbackText(reviewer(QAPairs(s.conversation), s.jobDetails)),
              stage := Feedback)
      else s.(interviewCompleted := true)
  {
  }

  /** Showing the question, then adding a stripped answer and a reply, keeps the invariant. */
  lemma ExchangeConsistent(s: State, a: string, reply: string, advance: bool)
    requires Consistent(s) && s.stage == Interview && s.currentQuestionIdx < |s.questions|
    requires a != "" && Strip(a) == a
    ensures Consistent(s.(conversation := ShowQuestion(s.conversation, CurrentQuestion(s)) +
                                          [AnswerMessage(a), ReplyMessage(reply)],
                          currentQuestionIdx := if advance then s.currentQuestionIdx + 1 else s.currentQuestionIdx))
  {
    var shown := ShowQuestion(s.conversation, CurrentQuestion(s));
    ShowQuestionWellFormed(s.conversation, s.questions, s.currentQuestionIdx);
    AppendExchange(shown, s.questions, a, reply);
  }

  /** Any other event while a question is left keeps the invariant. */
  lemma QuestionShownConsistent(s: State, event: InterviewEvent,
                                interviewer: (string, string, seq<Message>) -> Result<string, string>,
                                reviewer: (seq<QAPair>, Option<Job>) -> Result<string, string>)
    requires Consistent(s) && s.stage == Interview && s.currentQuestionIdx < |s.questions|
    requires !(event.AnswerSubmitted? && Strip(event.answer) != "")
    ensures Consistent(InterviewStep(s, event, interviewer, reviewer))
  {
    var r := InterviewStep(s, event, interviewer, reviewer);
    ShowQuestionWellFormed(s.conversation, s.questions, s.currentQuestionIdx);
    assert r.conversation == ShowQuestion(s.conversation, CurrentQuestion(s));
    assert r.stage == Interview && r.interviewCompleted == s.interviewCompleted;
  }

  lemma PracticeAgainConsistent(s: State)
    requires Consistent(s) && s.stage == Feedback
    ensures Consistent(PracticeAgain(s))
  {
  }

  /** Every page run keeps the invariant. */
  lemma PageStepConsistent(s: State, input: PageInput, sv: Services)
    requires Consistent(s)
    ensures Consistent(PageStep(s, input, sv))
  {
    match input
    case UploadInput(file, continuePressed) =>
      if s.stage == Upload { UploadStepConsistent(s, file, sv.extract, continuePressed); }
    case DetailsInput(form) =>
      if s.stage == Details { DetailsStepConsistent(s, form, sv.generate, sv.decode); }
    case InterviewInput(event) =>
      if s.stage == Interview { InterviewStepConsistent(s, event, sv.interviewer, sv.reviewer); }
    case FeedbackInput(action) =>
      if s.stage == Feedback && s.feedback != "" && action == PracticeAgainPressed { PracticeAgainConsistent(s); }
  }

  /** In a consistent session every question of the feedback prompt is one of the generated questions. */
  lemma FeedbackQuestionsAreGenerated(s: State)
    requires Consistent(s)
    ensures forall p :: p in QAPairs(s.conversation) ==> p.question in s.questions
  {
    PairQuestionsAreQuestionMessages(s.conversation);
  }

  /**
   * A complete form whose question reply quotes a single question starts an
   * interview on that question alone, with an empty conversation.
   */
  lemma OneQuestionInterview(s: State, job: Job, generate: (string, Job) -> Result<string, string>,
                             decode: string -> Option<seq<string>>, q: string)
    requires Consistent(s) && s.stage == Details && s.hasClient && JobComplete(job)
    requires generate(s.resumeText, job) == Success(QuotedReply([q])) && '\n' !in q
    ensures var r := DetailsStep(s, Some(job), generate, decode);
      r.stage == Interview && r.questions == [q] && r.currentQuestionIdx == 0 && r.conversation == [] &&
      Consistent(r)
  {
    QuotedReplyRoundTrip([q], decode);
    DetailsStepConsistent(s, Some(job), generate, decode);
  }

  /**
   * An interview on one question that the candidate skips with "Next
   * Question" reaches the feedback page with no answer in the conversation,
   * where the page's average computation divides by zero. The page gets
   * there whenever the stored feedback is not blank, which it is not when
   * the reviewer's call raises or its reply is not only white space.
   */
  lemma SkippedInterviewBreaksStatistics(s: State, q: string,
                                         interviewer: (string, string, seq<Message>) -> Result<string, string>,
                                         reviewer: (seq<QAPair>, Option<Job>) -> Result<string, string>)
    requires Consistent(s) && s.stage == Interview
    requires s.questions == [q] && s.currentQuestionIdx == 0 && s.conversation == []
    ensures var shown := InterviewStep(s, NoInterviewEvent, interviewer, reviewer);
      var skipped := InterviewStep(shown, NextQuestionPressed, interviewer, reviewer);
      var done := InterviewStep(skipped, FeedbackRequested, interviewer, reviewer);
      done.stage == Feedback && Consistent(done) &&
      done.conversation == [QuestionMessage(q)] &&
      done.feedback == FeedbackText(reviewer(QAPairs([QuestionMessage(q)]), s.jobDetails)) &&
      (done.feedback != "" <==>
        var reviewed := reviewer(QAPairs([QuestionMessage(q)]), s.jobDetails);
        reviewed.Failure? || exists k :: 0 <= k < |reviewed.value| && !IsSpace(reviewed.value[k])) &&
      AverageWordsAsWritten(done.conversation).Failure?
  {
    SkipOnlyQuestion(s, q, interviewer, reviewer);
    var skipped := InterviewStep(InterviewStep(s, NoInterviewEvent, interviewer, reviewer),
                                 NextQuestionPressed, interviewer, reviewer);
    CompletionStepResult(skipped, FeedbackRequested, interviewer, reviewer);
    InterviewStepConsistent(skipped, FeedbackRequested, interviewer, reviewer);
    SkippedQuestionsRaise(q);
  }

  /** Showing the only question and skipping it ends the questions with nothing answered. */
  lemma SkipOnlyQuestion(s: State, q: string,
                         interviewer: (string, string, seq<Message>) -> Result<string, string>,
                         reviewer: (seq<QAPair>, Option<Job>) -> Result<string, string>)
    requires Consistent(s) && s.stage == Interview
    requires s.questions == [q] && s.currentQuestionIdx == 0 && s.conversation == []
    ensures var skipped := InterviewStep(InterviewStep(s, NoInterviewEvent, interviewer, reviewer),
                                         NextQuestionPressed, interviewer, reviewer);
      skipped == s.(conversation := [QuestionMessage(q)], currentQuestionIdx := 1) && Consistent(skipped)
  {
    var shown := InterviewStep(s, NoInterviewEvent, interviewer, reviewer);
    ShownStepResult(s, NoInterviewEvent, interviewer, reviewer);
    assert shown == s.(conversation := [QuestionMessage(q)]);
    InterviewStepConsistent(s, NoInterviewEvent, interviewer, reviewer);
    ShownStepResult(shown, NextQuestionPressed, interviewer, reviewer);
    InterviewStepConsistent(shown, NextQuestionPressed, interviewer, reviewer);
  }
}
