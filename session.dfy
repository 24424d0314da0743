/**
 * st.session_state of one browser session as an object: the keys that are
 * set and their values, updated in place by each run of the script (main).
 * A run initializes the missing keys, is stopped when no client can be
 * created for want of an API key, may be restarted from the sidebar, and
 * otherwise runs the page of the current stage.
 */
module Session {
  import opened Wrappers
  import opened PyText
  import opened Upload
  import opened QuestionParsing
  import opened Conversation
  import opened Progress
  import opened Wizard

  class SessionState {
    /** The keys currently set; a deleted key's old value is unreachable until it is set again. */
    var keys: set<Key>
    var stage: Stage
    var resumeText: string
    var jobDetails: Option<Job>
    var questions: seq<string>
    var currentQuestionIdx: nat
    var conversation: seq<Message>
    var feedback: string
    var interviewCompleted: bool
    var hasClient: bool

    /** The values of the keys, as the wizard's state. */
    function Snapshot(): State
      reads this
    {
      State(stage, resumeText, jobDetails, questions, currentQuestionIdx, conversation, feedback,
            interviewCompleted, hasClient)
    }

    /**
     * Between runs either every key is set and the values are consistent,
     * or a reset has left at most the client's key.
     */
    predicate Valid()
      reads this
    {
      (keys == AllKeys && Consistent(Snapshot())) || keys <= {GeminiClientKey}
    }

    /** A new browser session, with no key set. */
    constructor ()
      ensures keys == {} && Valid()
    {
      keys := {};
      stage, resumeText, jobDetails, questions := Upload, "", None, [];
      currentQuestionIdx, conversation, feedback := 0, [], "";
      interviewCompleted, hasClient := false, false;
    }

    /** Stores the default value of one key. */
    method SetDefault(k: Key)
      modifies this
      ensures keys == old(keys)
      ensures Snapshot() == WithDefaults(old(Snapshot()), AllKeys - {k})
    {
      EveryKeyIsStored(k);
      match k
      case StageKey => stage := Defaults().stage;
      case ResumeTextKey => resumeText := Defaults().resumeText;
      case JobDetailsKey => jobDetails := Defaults().jobDetails;
      case QuestionsKey => questions := Defaults().questions;
      case CurrentQuestionIdxKey => currentQuestionIdx := Defaults().currentQuestionIdx;
      case ConversationKey => conversation := Defaults().conversation;
      case FeedbackKey => feedback := Defaults().feedback;
      case InterviewCompletedKey => interviewCompleted := Defaults().interviewCompleted;
      case GeminiClientKey => hasClient := Defaults().hasClient;
    }

    /**
     * initialize_session_state: every missing key gets its default, in the
     * order of the defaults, then a client is created when none is stored.
     * The result says whether the run goes on.
     */
    method Initialize(init: ClientInit) returns (proceeds: bool)
      modifies this
      ensures keys == old(keys) + AllKeys
      ensures Snapshot() == Wizard.Initialize(old(Snapshot()), old(keys), init)
      ensures proceeds == InitializeProceeds(old(Snapshot()), old(keys), init)
    {
      InsertDefaults();
      proceeds := hasClient || init != ClientStopped;
      if !hasClient && init == ClientCreated {
        hasClient := true;
      }
    }

    /** The loop over the defaults: each key not yet set gets its default value. */
    method InsertDefaults()
      modifies this
      ensures keys == old(keys) + AllKeys
      ensures Snapshot() == WithDefaults(old(Snapshot()), old(keys))
    {
      ghost var s0 := Snapshot();
      ghost var keys0 := keys;
      WithAllKeys(s0, keys0 + AllKeys);
      for i := 0 to |DefaultKeys|
        invariant keys == keys0 + KeySet(DefaultKeys[..i])
        invariant Snapshot() == WithDefaults(s0, Pending(keys0, i))
      {
        InsertDefault(i, s0, keys0);
      }
      PendingDone(keys0);
    }

    /** One turn of that loop: the `i`-th key gets its default when it is not set. */
    method InsertDefault(i: nat, ghost s0: State, ghost keys0: set<Key>)
      requires i < |DefaultKeys|
      requires keys == keys0 + KeySet(DefaultKeys[..i])
      requires Snapshot() == WithDefaults(s0, Pending(keys0, i))
      modifies this
      ensures keys == keys0 + KeySet(DefaultKeys[..i + 1])
      ensures Snapshot() == WithDefaults(s0, Pending(keys0, i + 1))
    {
      var k := DefaultKeys[i];
      InsertDefaultStep(s0, keys0, i);
      if k !in keys {
        keys := keys + {k};
        SetDefault(k);
      }
    }

    /**
     * Both "new interview" buttons: each listed key that is set is deleted,
     * in order. The values stay behind, unreachable.
     */
    method Restart()
      modifies this`keys
      ensures keys == old(keys) - KeySet(ResetKeys)
    {
      for i := 0 to |ResetKeys|
        invariant keys == old(keys) - KeySet(ResetKeys[..i])
      {
        var k := ResetKeys[i];
        assert ResetKeys[..i + 1] == ResetKeys[..i] + [k];
        if k in keys {
          keys := keys - {k};
        }
      }
      assert ResetKeys[..|ResetKeys|] == ResetKeys;
    }

    /** render_upload_stage. */
    method RenderUpload(file: Option<UploadedFile>, extract: DocKind -> Result<string, string>, continuePressed: bool)
      requires stage == Upload
      modifies this
      ensures Snapshot() == UploadStep(old(Snapshot()), file, extract, continuePressed)
      ensures keys == old(keys)
    {
      if file.Some? {
        var processed := ProcessResume(file, extract);
        UploadStepOf(Snapshot(), file, extract, continuePressed, processed);
        if processed.0 {
          resumeText, stage := processed.1, if continuePressed then Details else stage;
        }
      }
    }

    /** render_details_stage: the question generation runs its line-by-line parse. */
    method RenderDetails(form: Option<Job>, generate: (string, Job) -> Result<string, string>,
                         decode: string -> Option<seq<string>>)
      requires stage == Details
      modifies this
      ensures Snapshot() == DetailsStep(old(Snapshot()), form, generate, decode)
      ensures keys == old(keys)
    {
      ghost var s0 := Snapshot();
      if form.Some? {
        var job := form.value;
        if job.title != "" && job.company != "" && job.description != "" {
          jobDetails := Some(job);
          if hasClient {
            var qs := GenerateQuestions(generate(resumeText, job), decode);
            questions := qs;
            stage := Interview;
            assert Snapshot() == s0.(jobDetails := Some(job), questions := qs, stage := Interview);
          } else {
            assert Snapshot() == s0.(jobDetails := Some(job));
          }
        }
      }
    }

    /** render_interview_stage. */
    method RenderInterview(event: InterviewEvent,
                           interviewer: (string, string, seq<Message>) -> Result<string, string>,
                           reviewer: (seq<QAPair>, Option<Job>) -> Result<string, string>)
      requires stage == Interview
      modifies this
      ensures Snapshot() == InterviewStep(old(Snapshot()), event, interviewer, reviewer)
      ensures keys == old(keys)
    {
      if questions == [] {
        return;
      }
      if currentQuestionIdx < |questions| {
        AskQuestion(event, interviewer, reviewer);
      } else {
        CompletionStepResult(Snapshot(), event, interviewer, reviewer);
        interviewCompleted := true;
        if event == FeedbackRequested {
          feedback := FeedbackText(reviewer(QAPairs(conversation), jobDetails));
          stage := Feedback;
        }
      }
    }

    /** The interview page while a question is left: show it, then handle the answer or the button. */
    method AskQuestion(event: InterviewEvent,
                       interviewer: (string, string, seq<Message>) -> Result<string, string>,
                       reviewer: (seq<QAPair>, Option<Job>) -> Result<string, string>)
      requires stage == Interview && currentQuestionIdx < |questions|
      modifies this
      ensures Snapshot() == InterviewStep(old(Snapshot()), event, interviewer, reviewer)
      ensures keys == old(keys)
    {
      ghost var s0 := Snapshot();
      ShowCurrentQuestion();
      if event.AnswerSubmitted? && Strip(event.answer) != "" {
        SubmitAnswer(s0, event.answer, interviewer, reviewer);
        AnswerStepResult(s0, event.answer, interviewer, reviewer);
      } else {
        ShownStepResult(s0, event, interviewer, reviewer);
        if event == NextQuestionPressed && conversation[|conversation| - 1].role == Assistant {
          currentQuestionIdx := currentQuestionIdx + 1;
        }
      }
    }

    /** Adds the current question to the conversation unless the conversation already ends with its text. */
    method ShowCurrentQuestion()
      requires currentQuestionIdx < |questions|
      modifies this`conversation
      ensures conversation == ShowQuestion(old(conversation), questions[currentQuestionIdx])
    {
      var q := questions[currentQuestionIdx];
      if conversation == [] || conversation[|conversation| - 1].content != q {
        conversation := conversation + [QuestionMessage(q)];
      }
    }

    /** A non-blank answer: store it stripped, ask the interviewer, store the reply, and maybe move on. */
    method SubmitAnswer(ghost s0: State, answer: string,
                        interviewer: (string, string, seq<Message>) -> Result<string, string>,
                        reviewer: (seq<QAPair>, Option<Job>) -> Result<string, string>)
      requires s0.stage == Interview && s0.currentQuestionIdx < |s0.questions| && Strip(answer) != ""
      requires Snapshot() == s0.(conversation := ShowQuestion(s0.conversation, CurrentQuestion(s0)))
      modifies this
      ensures Snapshot() == Answered(s0, answer, interviewer)
      ensures keys == old(keys)
    {
      var asked := conversation + [AnswerMessage(Strip(answer))];
      var reply := InterviewerReply(interviewer(questions[currentQuestionIdx], answer, HistoryWindow(asked)));
      assert reply == ReplyFor(s0, answer, interviewer);
      conversation := conversation + [AnswerMessage(Strip(answer)), ReplyMessage(reply)];
      if SignalsNextQuestion(reply) {
        currentQuestionIdx := currentQuestionIdx + 1;
      }
      assert conversation == Answered(s0, answer, interviewer).conversation;
      assert currentQuestionIdx == Answered(s0, answer, interviewer).currentQuestionIdx;
    }

    /** render_feedback_stage's two buttons; nothing happens while no feedback is stored. */
    method RenderFeedback(action: FeedbackAction)
      requires stage == Feedback
      modifies this
      ensures action == PracticeAgainPressed && old(feedback) != "" ==>
        Snapshot() == PracticeAgain(old(Snapshot())) && keys == old(keys)
      ensures action == NewInterviewPressed && old(feedback) != "" ==>
        Snapshot() == old(Snapshot()) && keys == old(keys) - KeySet(ResetKeys)
      ensures action == NoFeedbackAction || old(feedback) == "" ==>
        Snapshot() == old(Snapshot()) && keys == old(keys)
    {
      if feedback == "" {
        return;
      }
      if action == PracticeAgainPressed {
        stage, currentQuestionIdx, conversation, questions := Details, 0, [], [];
        feedback, interviewCompleted := "", false;
      } else if action == NewInterviewPressed {
        Restart();
      }
    }

    /**
     * One run of main: initialize; stop when no client could be made; the
     * sidebar's "Start New Interview" deletes the keys; otherwise the page of
     * the current stage runs on its widgets.
     */
    method Run(init: ClientInit, restartPressed: bool, input: PageInput, sv: Services) returns (proceeds: bool)
      requires Valid()
      modifies this
      ensures Valid()
      ensures proceeds == InitializeProceeds(old(Snapshot()), old(keys), init)
      ensures var s := Wizard.Initialize(old(Snapshot()), old(keys), init);
        if !proceeds then keys == AllKeys && Snapshot() == s
        else if restartPressed || NewInterviewRequested(s, input) then
          keys == AllKeys - KeySet(ResetKeys) && Snapshot() == s
        else keys == AllKeys && Snapshot() == PageStep(s, input, sv)
    {
      InitializeConsistent(Snapshot(), keys, init);
      proceeds := Initialize(init);
      AllKeysStored(keys);
      if !proceeds {
        return;
      }
      if restartPressed {
        Restart();
        KeyLists();
        return;
      }
      RunPage(input, sv);
    }

    /** The stage dispatch of main, on a session whose keys are all set. */
    method RunPage(input: PageInput, sv: Services)
      requires keys == AllKeys && Consistent(Snapshot())
      modifies this
      ensures Valid()
      ensures NewInterviewRequested(old(Snapshot()), input) ==>
        keys == AllKeys - KeySet(ResetKeys) && Snapshot() == old(Snapshot())
      ensures !NewInterviewRequested(old(Snapshot()), input) ==>
        keys == AllKeys && Snapshot() == PageStep(old(Snapshot()), input, sv)
    {
      PageStepConsistent(Snapshot(), input, sv);
      KeyLists();
      match input {
        case UploadInput(file, continuePressed) => RunUpload(file, continuePressed, sv);
        case DetailsInput(form) => RunDetails(form, sv);
        case InterviewInput(event) => RunInterview(event, sv);
        case FeedbackInput(action) => RunFeedback(action, sv);
      }
    }

    /** The upload page, drawn only in its own stage. */
    method RunUpload(file: Option<UploadedFile>, continuePressed: bool, sv: Services)
      modifies this
      ensures Snapshot() == PageStep(old(Snapshot()), UploadInput(file, continuePressed), sv)
      ensures keys == old(keys)
    {
      if stage == Upload { RenderUpload(file, sv.extract, continuePressed); }
    }

    /** The details page, drawn only in its own stage. */
    method RunDetails(form: Option<Job>, sv: Services)
      modifies this
      ensures Snapshot() == PageStep(old(Snapshot()), DetailsInput(form), sv)
      ensures keys == old(keys)
    {
      if stage == Details { RenderDetails(form, sv.generate, sv.decode); }
    }

    /** The interview page, drawn only in its own stage. */
    method RunInterview(event: InterviewEvent, sv: Services)
      modifies this
      ensures Snapshot() == PageStep(old(Snapshot()), InterviewInput(event), sv)
      ensures keys == old(keys)
    {
      if stage == Interview { RenderInterview(event, sv.interviewer, sv.reviewer); }
    }

    /** The feedback page, drawn only in its own stage. */
    method RunFeedback(action: FeedbackAction, sv: Services)
      modifies this
      ensures NewInterviewRequested(old(Snapshot()), FeedbackInput(action)) ==>
        Snapshot() == old(Snapshot()) && keys == old(keys) - KeySet(ResetKeys)
      ensures !NewInterviewRequested(old(Snapshot()), FeedbackInput(action)) ==>
        Snapshot() == PageStep(old(Snapshot()), FeedbackInput(action), sv) && keys == old(keys)
    {
      if stage == Feedback { RenderFeedback(action); }
    }
  }

  /** Initialization leaves every key set. */
  lemma AllKeysStored(keys: set<Key>)
    requires AllKeys <= keys
    ensures keys == AllKeys
  {
    forall k | k in keys ensures k in AllKeys { EveryKeyIsStored(k); }
  }

  /** The keys still missing after the first `i` defaults have been inserted, added to those set before. */
  ghost function Pending(keys0: set<Key>, i: nat): set<Key>
    requires i <= |DefaultKeys|
  {
    keys0 + (AllKeys - KeySet(DefaultKeys[..i]))
  }

  /** Once every default has been considered, only the keys set before are left as they were. */
  lemma PendingDone(keys0: set<Key>)
    ensures Pending(keys0, |DefaultKeys|) == keys0
    ensures keys0 + KeySet(DefaultKeys[..|DefaultKeys|]) == keys0 + AllKeys
  {
    KeyLists();
    assert DefaultKeys[..|DefaultKeys|] == DefaultKeys;
  }

  /** The values after inserting the `i`-th default, if it is missing. */
  lemma InsertDefaultStep(s0: State, keys0: set<Key>, i: nat)
    requires i < |DefaultKeys|
    ensures DefaultKeys[i] in keys0 + KeySet(DefaultKeys[..i]) <==> DefaultKeys[i] in keys0
    ensures DefaultKeys[i] in keys0 ==> Pending(keys0, i + 1) == Pending(keys0, i)
    ensures DefaultKeys[i] !in keys0 ==>
      WithDefaults(WithDefaults(s0, Pending(keys0, i)), AllKeys - {DefaultKeys[i]}) ==
      WithDefaults(s0, Pending(keys0, i + 1))
    ensures keys0 + KeySet(DefaultKeys[..i + 1]) == keys0 + KeySet(DefaultKeys[..i]) + {DefaultKeys[i]}
  {
    var k := DefaultKeys[i];
    PrefixKeySet(i);
    if k !in keys0 {
      PendingShrinks(keys0, i);
      WithDefaultsCompose(s0, Pending(keys0, i), AllKeys - {k});
    }
  }

  /** The keys of one more default are those of the shorter prefix and the new key, which is not among them. */
  lemma PrefixKeySet(i: nat)
    requires i < |DefaultKeys|
    ensures KeySet(DefaultKeys[..i + 1]) == KeySet(DefaultKeys[..i]) + {DefaultKeys[i]}
    ensures DefaultKeys[i] !in KeySet(DefaultKeys[..i])
  {
    assert DefaultKeys[..i + 1] == DefaultKeys[..i] + [DefaultKeys[i]];
    assert DefaultKeys[i] !in DefaultKeys[..i];
  }

  /** Inserting a missing key removes it from the pending ones. */
  lemma PendingShrinks(keys0: set<Key>, i: nat)
    requires i < |DefaultKeys| && DefaultKeys[i] !in keys0
    requires KeySet(DefaultKeys[..i + 1]) == KeySet(DefaultKeys[..i]) + {DefaultKeys[i]}
    ensures Pending(keys0, i) * (AllKeys - {DefaultKeys[i]}) == Pending(keys0, i + 1)
  {
    forall j | j in keys0 ensures j in AllKeys { EveryKeyIsStored(j); }
  }

  /** Defaulting twice defaults the keys missing from either set. */
  lemma WithDefaultsCompose(s: State, p: set<Key>, q: set<Key>)
    ensures WithDefaults(WithDefaults(s, p), q) == WithDefaults(s, p * q)
  {
  }
}
