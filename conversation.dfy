/**
 * The interview conversation and the views derived from it: how a question
 * is shown, when a reply moves the interview on, the interviewer's history
 * window, the question/answer pairing behind the feedback prompt, and the
 * word statistics of the feedback page.
 */
module Conversation {
  import opened Wrappers
  import opened PyText

  datatype Role = Assistant | User

  /** One entry of the conversation; `kind` is its "type" entry, "" where it has none. */
  datatype Message = Message(role: Role, content: string, kind: string)

  const QuestionKind: string := "question"

  /** The entry added when a question is shown. */
  function QuestionMessage(q: string): Message {
    Message(Assistant, q, QuestionKind)
  }

  /** The entry added for the candidate's (stripped) answer. */
  function AnswerMessage(a: string): Message {
    Message(User, a, "")
  }

  /** The entry added for the interviewer's reply. */
  function ReplyMessage(r: string): Message {
    Message(Assistant, r, "")
  }

  /**
   * The conversation after the current question is shown: the question is
   * appended unless the conversation already ends with a message carrying
   * exactly its text.
   */
  function ShowQuestion(conv: seq<Message>, q: string): (r: seq<Message>)
    ensures r != [] && r[|r| - 1].content == q
    ensures r == conv || r == conv + [QuestionMessage(q)]
    ensures r == conv <==> (conv != [] && conv[|conv| - 1].content == q)
  {
    if conv == [] || conv[|conv| - 1].content != q then conv + [QuestionMessage(q)] else conv
  }

  /** A message the feedback prompt uses as a question: from the assistant, with "question" in its type. */
  predicate IsQuestion(m: Message) {
    m.role == Assistant && Contains(m.kind, QuestionKind)
  }

  /** Shown questions are questions to the pairing; answers and replies are not. */
  lemma MessageKinds(q: string, a: string, r: string)
    ensures IsQuestion(QuestionMessage(q))
    ensures !IsQuestion(AnswerMessage(a)) && !IsQuestion(ReplyMessage(r))
  {
    assert QuestionKind[..|QuestionKind|] == QuestionKind;
  }

  /** The phrases whose presence in the lower-cased reply moves to the next question. */
  const ReadyPhrases: seq<string> := ["next question", "move on", "ready for", "great example"]

  predicate SignalsNextQuestion(reply: string) {
    exists p :: p in ReadyPhrases && Contains(Lower(reply), p)
  }

  /** A reply that contains a readiness phrase, in any letter case, moves on. */
  lemma PhraseInAnyCaseSignals(pre: string, mid: string, post: string)
    requires Lower(mid) in ReadyPhrases
    ensures SignalsNextQuestion(pre + mid + post)
  {
    LowerAppend(pre + mid, post);
    LowerAppend(pre, mid);
    ContainsInfix(Lower(pre), Lower(mid), Lower(post));
  }

  /**
   * The reply get_interview_response falls back to when the model call
   * raises, written in four pieces so that each can be checked character
   * by character.
   */
  const FollowUpFallback: string :=
    "Thank you for sharing that. " + "Could you tell me more about " +
    "the specific actions you took " + "in that situation?"

  /** No character of s is an x or a v, in either case. */
  predicate HasNoXOrV(s: string) {
    forall k :: 0 <= k < |s| ==> s[k] != 'x' && s[k] != 'X' && s[k] != 'v' && s[k] != 'V'
  }

  /** No e of s, in either case, is followed by an a, in either case. */
  predicate HasNoEA(s: string) {
    forall k :: 0 <= k < |s| - 1 ==> (s[k] == 'e' || s[k] == 'E') ==> s[k + 1] != 'a' && s[k + 1] != 'A'
  }

  /** A text with neither property broken keeps them when joined to another after a space. */
  lemma {:induction false} HarmlessJoin(a: string, b: string)
    requires HasNoXOrV(a) && HasNoEA(a) && HasNoXOrV(b) && HasNoEA(b)
    requires a != [] && a[|a| - 1] == ' '
    ensures HasNoXOrV(a + b) && HasNoEA(a + b)
  {
    var ab := a + b;
    forall k | 0 <= k < |ab| - 1 && (ab[k] == 'e' || ab[k] == 'E')
      ensures ab[k + 1] != 'a' && ab[k + 1] != 'A'
    {
      if k + 1 < |a| {
        assert ab[k] == a[k] && ab[k + 1] == a[k + 1];
      } else if k >= |a| {
        assert ab[k] == b[k - |a|] && ab[k + 1] == b[k + 1 - |a|];
      }
    }
  }

  /* Each piece of the follow-up, checked by itself to keep each proof small. */

  lemma FollowUpOpeningHarmless()
    ensures HasNoXOrV("Thank you for sharing that. ") && HasNoEA("Thank you for sharing that. ")
  {
  }

  lemma FollowUpRequestHarmless()
    ensures HasNoXOrV("Could you tell me more about ") && HasNoEA("Could you tell me more about ")
  {
  }

  lemma FollowUpSubjectHarmless()
    ensures HasNoXOrV("the specific actions you took ") && HasNoEA("the specific actions you took ")
  {
  }

  lemma FollowUpClosingHarmless()
    ensures HasNoXOrV("in that situation?") && HasNoEA("in that situation?")
  {
  }

  /**
   * The fixed follow-up holds no readiness phrase: "next question" and
   * "great example" need the pair "ex", "move on" the pair "ov" and
   * "ready for" the pair "ea", and the lower-cased follow-up has no x, no v
   * and no e followed by an a.
   */
  lemma FollowUpFallbackStays()
    ensures !SignalsNextQuestion(FollowUpFallback)
  {
    var a, b := "Thank you for sharing that. ", "Could you tell me more about ";
    var c, d := "the specific actions you took ", "in that situation?";
    FollowUpOpeningHarmless();
    FollowUpRequestHarmless();
    FollowUpSubjectHarmless();
    FollowUpClosingHarmless();
    HarmlessJoin(c, d);
    HarmlessJoin(b, c + d);
    HarmlessJoin(a, b + (c + d));
    assert FollowUpFallback == a + (b + (c + d));
    NoXVEASignalsNothing(FollowUpFallback);
  }

  /** A reply with no x, no v and no e followed by an a, in any case, holds no readiness phrase. */
  lemma NoXVEASignalsNothing(f: string)
    requires HasNoXOrV(f) && HasNoEA(f)
    ensures !SignalsNextQuestion(f)
  {
    var h := Lower(f);
    LowerChars(f);
    PairAbsent(h, "next question", 1);
    PairAbsent(h, "move on", 1);
    PairAbsent(h, "ready for", 1);
    PairAbsent(h, "great example", 6);
  }

  /** A text lacking some pair of adjacent characters of the needle does not contain it. */
  lemma PairAbsent(hay: string, needle: string, i: nat)
    requires i + 2 <= |needle|
    requires forall k :: 0 <= k < |hay| - 1 ==> hay[k] != needle[i] || hay[k + 1] != needle[i + 1]
    ensures !Contains(hay, needle)
  {
    if Contains(hay, needle) {
      ContainsPart(hay, needle, i, i + 2);
      assert needle[i..i + 2] == [needle[i], needle[i + 1]];
      ContainsPair(hay, needle[i], needle[i + 1]);
    }
  }

  /**
   * get_interview_response on the model's outcome: its stripped text, or the
   * fixed follow-up, which never moves the interview on.
   */
  function InterviewerReply(outcome: Result<string, string>): (r: string)
    ensures outcome.Failure? ==> r != "" && !SignalsNextQuestion(r)
    ensures outcome.Success? ==> (r == "" <==> forall k :: 0 <= k < |outcome.value| ==> IsSpace(outcome.value[k]))
  {
    FollowUpFallbackStays();
    match outcome
    case Success(text) => StripBlank(text); Strip(text)
    case Failure(_) => FollowUpFallback
  }

  const FeedbackErrorPrefix: string := "Error generating feedback: "

  /**
   * generate_feedback on the model's outcome: its stripped text, or the
   * error text. The result is blank, so that the feedback page shows no
   * report, exactly when the model answered with white space only.
   */
  function FeedbackText(outcome: Result<string, string>): (r: string)
    ensures outcome.Failure? ==> r != "" && FeedbackErrorPrefix <= r
    ensures outcome.Success? ==> (r == "" <==> forall k :: 0 <= k < |outcome.value| ==> IsSpace(outcome.value[k]))
  {
    match outcome
    case Success(text) => StripBlank(text); Strip(text)
    case Failure(e) => FeedbackErrorPrefix + e
  }

  /** The interviewer sees at most this many of the latest messages. */
  const HistorySize: nat := 4

  /** conversation_history[-4:]: the latest messages, at most four. */
  function HistoryWindow(conv: seq<Message>): (w: seq<Message>)
    ensures |w| == if |conv| < HistorySize then |conv| else HistorySize
    ensures w == conv[|conv| - |w|..]
  {
    if |conv| <= HistorySize then conv else conv[|conv| - HistorySize..]
  }

  /** Appending a message slides the window by one once it is full. */
  lemma HistoryWindowSlides(conv: seq<Message>, m: Message)
    ensures HistoryWindow(conv + [m]) ==
      if |conv| < HistorySize then HistoryWindow(conv) + [m] else HistoryWindow(conv)[1..] + [m]
  {
    var c := conv + [m];
    if |conv| >= HistorySize {
      assert c[|c| - HistorySize..] == conv[|conv| - HistorySize..][1..] + [m];
    }
  }

  /** One question of the feedback prompt and the answer given to it. */
  datatype QAPair = QAPair(question: string, answer: string)

  const NoResponse: string := "No response"

  /** The pair for the message at index i: its text and the next message's text, or "No response". */
  function PairAt(conv: seq<Message>, i: nat): QAPair
    requires i < |conv|
  {
    QAPair(conv[i].content, if i + 1 < |conv| then conv[i + 1].content else NoResponse)
  }

  /** The pairs for the questions at index i and later. */
  function PairsFrom(conv: seq<Message>, i: nat): seq<QAPair>
    requires i <= |conv|
    decreases |conv| - i
  {
    if i == |conv| then []
    else (if IsQuestion(conv[i]) then [PairAt(conv, i)] else []) + PairsFrom(conv, i + 1)
  }

  /** The question/answer pairs generate_feedback puts into its prompt. */
  function QAPairs(conv: seq<Message>): seq<QAPair> {
    PairsFrom(conv, 0)
  }

  /** The indices, from i on, of the messages that are questions, in increasing order. */
  function QuestionIndicesFrom(conv: seq<Message>, i: nat): (ix: seq<nat>)
    requires i <= |conv|
    ensures forall k :: 0 <= k < |ix| ==> i <= ix[k] < |conv| && IsQuestion(conv[ix[k]])
    decreases |conv| - i
  {
    if i == |conv| then []
    else (if IsQuestion(conv[i]) then [i] else []) + QuestionIndicesFrom(conv, i + 1)
  }

  /** Each index is smaller than every later one. */
  predicate Increasing(ix: seq<nat>) {
    forall k, l :: 0 <= k < l < |ix| ==> ix[k] < ix[l]
  }

  /** The question indices are increasing. */
  lemma {:induction false} QuestionIndicesIncreasing(conv: seq<Message>, i: nat)
    requires i <= |conv|
    ensures Increasing(QuestionIndicesFrom(conv, i))
    decreases |conv| - i
  {
    if i < |conv| {
      QuestionIndicesIncreasing(conv, i + 1);
      var rix := QuestionIndicesFrom(conv, i + 1);
      var ix := QuestionIndicesFrom(conv, i);
      if IsQuestion(conv[i]) {
        assert ix == [i] + rix;
        forall k, l | 0 <= k < l < |ix| ensures ix[k] < ix[l] {
          assert ix[l] == rix[l - 1] && i + 1 <= rix[l - 1];
          if k > 0 { assert ix[k] == rix[k - 1]; }
        }
      }
    }
  }

  /** No question message at index i or later is missing from the question indices. */
  lemma {:induction false} QuestionIndicesComplete(conv: seq<Message>, i: nat)
    requires i <= |conv|
    ensures forall j :: i <= j < |conv| && IsQuestion(conv[j]) ==> j in QuestionIndicesFrom(conv, i)
    decreases |conv| - i
  {
    if i < |conv| {
      QuestionIndicesComplete(conv, i + 1);
      var rix := QuestionIndicesFrom(conv, i + 1);
      var ix := QuestionIndicesFrom(conv, i);
      assert ix == (if IsQuestion(conv[i]) then [i] else []) + rix;
      forall j | i <= j < |conv| && IsQuestion(conv[j]) ensures j in ix {
        if j > i { assert j in rix; }
      }
    }
  }

  /**
   * The pairing takes the question messages in order, each with the message
   * right after it or "No response": the k-th pair belongs to the k-th
   * question index, and no other message gives a pair.
   */
  lemma {:induction false} PairsFollowQuestions(conv: seq<Message>, i: nat)
    requires i <= |conv|
    ensures PairedWith(conv, PairsFrom(conv, i), QuestionIndicesFrom(conv, i))
    decreases |conv| - i
  {
    if i < |conv| {
      PairsFollowQuestions(conv, i + 1);
      var rest, rix := PairsFrom(conv, i + 1), QuestionIndicesFrom(conv, i + 1);
      var pairs, ix := PairsFrom(conv, i), QuestionIndicesFrom(conv, i);
      if IsQuestion(conv[i]) {
        assert pairs == [PairAt(conv, i)] + rest;
        assert ix == [i] + rix;
        PairedWithCons(conv, i, rest, rix);
      } else {
        assert pairs == rest && ix == rix;
      }
    }
  }

  /** The k-th pair is the pair at the k-th index, for every k, and there are no others. */
  predicate PairedWith(conv: seq<Message>, pairs: seq<QAPair>, ix: seq<nat>) {
    |pairs| == |ix| && forall k :: 0 <= k < |ix| ==> ix[k] < |conv| && pairs[k] == PairAt(conv, ix[k])
  }

  /** A pair put in front of its index keeps the pairing. */
  lemma PairedWithCons(conv: seq<Message>, i: nat, pairs: seq<QAPair>, ix: seq<nat>)
    requires i < |conv| && PairedWith(conv, pairs, ix)
    ensures PairedWith(conv, [PairAt(conv, i)] + pairs, [i] + ix)
  {
    var pairs', ix' := [PairAt(conv, i)] + pairs, [i] + ix;
    forall k | 0 <= k < |ix'| ensures ix'[k] < |conv| && pairs'[k] == PairAt(conv, ix'[k]) {
      if k > 0 {
        assert pairs'[k] == pairs[k - 1] && ix'[k] == ix[k - 1];
      }
    }
  }

  /** Every pair's question is the text of some question message. */
  lemma PairQuestionsAreQuestionMessages(conv: seq<Message>)
    ensures forall p :: p in QAPairs(conv) ==>
      exists j :: 0 <= j < |conv| && IsQuestion(conv[j]) && p == PairAt(conv, j)
  {
    PairsFollowQuestions(conv, 0);
    var ix := QuestionIndicesFrom(conv, 0);
    forall p | p in QAPairs(conv)
      ensures exists j :: 0 <= j < |conv| && IsQuestion(conv[j]) && p == PairAt(conv, j)
    {
      var k :| 0 <= k < |QAPairs(conv)| && QAPairs(conv)[k] == p;
      assert p == PairAt(conv, ix[k]);
    }
  }

  /** The number of messages from the candidate. */
  function UserCount(conv: seq<Message>): (n: nat)
    ensures n <= |conv|
  {
    if conv == [] then 0 else (if conv[0].role == User then 1 else 0) + UserCount(conv[1..])
  }

  /** The total, over the candidate's messages, of the whitespace-separated words. */
  function TotalWords(conv: seq<Message>): nat {
    if conv == [] then 0
    else (if conv[0].role == User then |Words(conv[0].content)| else 0) + TotalWords(conv[1..])
  }

  /** Counting over two parts of a conversation adds up. */
  lemma {:induction false} CountsAppend(a: seq<Message>, b: seq<Message>)
    ensures TotalWords(a + b) == TotalWords(a) + TotalWords(b)
    ensures UserCount(a + b) == UserCount(a) + UserCount(b)
    decreases |a|
  {
    if a == [] {
      assert a + b == b;
    } else {
      assert (a + b)[0] == a[0];
      assert (a + b)[1..] == a[1..] + b;
      CountsAppend(a[1..], b);
    }
  }

  /** An answer typed as words separated by single spaces counts as that many words. */
  lemma AnswerWordCount(ws: seq<string>)
    requires forall k :: 0 <= k < |ws| ==> IsWord(ws[k])
    ensures TotalWords([AnswerMessage(Join(ws, " "))]) == |ws|
    ensures UserCount([AnswerMessage(Join(ws, " "))]) == 1
  {
    WordsJoin(ws);
    assert [AnswerMessage(Join(ws, " "))][1..] == [];
  }

  const ZeroDivisionMessage: string := "integer division or modulo by zero"

  /** The average answer length, 0 when the candidate never answered. */
  function AverageWords(conv: seq<Message>): nat {
    if UserCount(conv) == 0 then 0 else TotalWords(conv) / UserCount(conv)
  }

  /** The average is 0 without answers, and otherwise the total words per answer rounded down. */
  lemma AverageWordsBounds(conv: seq<Message>)
    ensures UserCount(conv) == 0 ==> AverageWords(conv) == 0
    ensures UserCount(conv) > 0 ==>
      AverageWords(conv) * UserCount(conv) <= TotalWords(conv) < (AverageWords(conv) + 1) * UserCount(conv)
  {
    if UserCount(conv) > 0 {
      DivisionBounds(TotalWords(conv), UserCount(conv));
    }
  }

  /** The quotient of Python's `//` on naturals is the largest multiple not above the dividend. */
  lemma DivisionBounds(t: nat, u: nat)
    requires u > 0
    ensures (t / u) * u <= t < (t / u + 1) * u
  {
    assert t == (t / u) * u + t % u;
    assert (t / u + 1) * u == (t / u) * u + u;
  }

  /**
   * The average answer length as the feedback page computes it: the total
   * integer-divided by the number of candidate messages, guarded only by
   * the conversation being non-empty, so it raises when the candidate never
   * answered. Where it does not raise it agrees with AverageWords.
   */
  function AverageWordsAsWritten(conv: seq<Message>): (r: Result<nat, string>)
    ensures r.Failure? <==> conv != [] && UserCount(conv) == 0
    ensures r.Success? ==> r.value == AverageWords(conv)
  {
    if conv == [] then Success(0)
    else if UserCount(conv) == 0 then Failure(ZeroDivisionMessage)
    else Success(AverageWords(conv))
  }

  /** A conversation of shown questions only makes the average raise. */
  lemma SkippedQuestionsRaise(q: string)
    ensures AverageWordsAsWritten([QuestionMessage(q)]).Failure?
  {
    assert [QuestionMessage(q)][1..] == [];
  }

  /** The figures of the statistics panel. */
  datatype Statistics = Statistics(questionsAnswered: nat, totalWords: nat, averageWords: nat)

  /**
   * The statistics panel: "Questions Answered" is the number of questions
   * generated, whether or not they were answered, and the average is the
   * corrected one, 0 when the candidate never answered.
   */
  function StatisticsOf(questions: seq<string>, conv: seq<Message>): (s: Statistics)
    ensures s.questionsAnswered == |questions| && s.totalWords == TotalWords(conv)
    ensures UserCount(conv) == 0 ==> s.averageWords == 0
    ensures UserCount(conv) > 0 ==>
      s.averageWords * UserCount(conv) <= s.totalWords < (s.averageWords + 1) * UserCount(conv)
  {
    AverageWordsBounds(conv);
    Statistics(|questions|, TotalWords(conv), AverageWords(conv))
  }
}
