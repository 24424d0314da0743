/**
 * The four stages of the wizard and the progress views over them: the stage
 * indicators of the progress bar, the bar's fill, and the sidebar's line
 * about the current stage.
 */
module Progress {
  import opened PyText

  datatype Stage = Upload | Details | Interview | Feedback

  /** The stages in wizard order. */
  const Stages: seq<Stage> := [Upload, Details, Interview, Feedback]

  /** stages.index(stage): the position of a stage in wizard order. */
  function StageIndex(s: Stage): (i: nat)
    ensures i < |Stages| && Stages[i] == s
  {
    match s
    case Upload => 0
    case Details => 1
    case Interview => 2
    case Feedback => 3
  }

  /** The three looks of a stage indicator. */
  datatype Mark = Completed | Active | Inactive

  /** The indicator of stage i while stage `current` is shown: its look and its icon. */
  function Indicator(i: nat, current: nat): (Mark, string) {
    if i < current then (Completed, "✓")
    else if i == current then (Active, NatToString(i + 1))
    else (Inactive, NatToString(i + 1))
  }

  /** The indicators of all four stages, left to right. */
  function Indicators(current: nat): (ms: seq<(Mark, string)>)
    requires current < |Stages|
    ensures |ms| == |Stages|
    ensures forall i :: 0 <= i < |ms| ==>
      (ms[i].0 == Completed <==> i < current) &&
      (ms[i].0 == Active <==> i == current) &&
      (ms[i].0 == Inactive <==> i > current)
    ensures forall i :: 0 <= i < |ms| && i >= current ==> IsDigits(ms[i].1) && DigitsValue(ms[i].1) == i + 1
  {
    var ms := seq(|Stages|, i requires 0 <= i < |Stages| => Indicator(i, current));
    forall i | 0 <= i < |ms| && i >= current ensures IsDigits(ms[i].1) && DigitsValue(ms[i].1) == i + 1 {
      NatToStringValue(i + 1);
    }
    ms
  }

  /** Exactly one indicator is active: the current stage's. */
  lemma ExactlyOneActive(current: nat)
    requires current < |Stages|
    ensures (set i | 0 <= i < |Stages| && Indicators(current)[i].0 == Active) == {current}
    ensures |set i | 0 <= i < |Stages| && Indicators(current)[i].0 == Active| == 1
  {
    var ms := Indicators(current);
    var act := set i | 0 <= i < |Stages| && ms[i].0 == Active;
    assert current in act;
    assert forall i :: i in act ==> i == current;
    assert act == {current};
  }

  /**
   * The progress bar's fill, current / 3 * 100 percent, kept as the exact
   * fraction num / den of a hundred.
   */
  function ProgressFill(current: nat): (r: (nat, nat))
    requires current < |Stages|
    ensures r.1 == |Stages| - 1 && r.0 <= 100 * r.1
    ensures r.0 == 0 <==> current == 0
    ensures r.0 == 100 * r.1 <==> current == |Stages| - 1
  {
    (current * 100, |Stages| - 1)
  }

  /** A later stage never shows less progress. */
  lemma ProgressFillMonotone(a: nat, b: nat)
    requires a <= b < |Stages|
    ensures ProgressFill(a).0 <= ProgressFill(b).0
  {
  }

  /**
   * The sidebar's line about the current stage. The source's fallback
   * "Unknown stage" for a key missing from its table is never reached, since
   * every stage has an entry.
   */
  function StageInfo(stage: Stage, questionIdx: nat, questions: seq<string>): string {
    match stage
    case Upload => "Upload your resume to get started"
    case Details => "Provide job details for tailored questions"
    case Interview =>
      if questions != [] then "Question " + NatToString(questionIdx + 1) + " of " + NatToString(|questions|)
      else "Preparing interview questions..."
    case Feedback => "Review your interview performance"
  }

  /**
   * During the interview the sidebar names the 1-based number of the
   * current question and the number of questions.
   */
  lemma InterviewInfoNumbers(questionIdx: nat, questions: seq<string>)
    requires questions != []
    ensures exists a, b :: (IsDigits(a) && IsDigits(b) &&
      StageInfo(Interview, questionIdx, questions) == "Question " + a + " of " + b &&
      DigitsValue(a) == questionIdx + 1 && DigitsValue(b) == |questions|)
  {
    NatToStringValue(questionIdx + 1);
    NatToStringValue(|questions|);
    var a, b := NatToString(questionIdx + 1), NatToString(|questions|);
    assert StageInfo(Interview, questionIdx, questions) == "Question " + a + " of " + b;
  }
}
