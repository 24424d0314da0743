/**
 * Question generation in GeminiClient.generate_questions: the reply of the
 * language model is a parameter (its text, or the exception the call raised),
 * and so is json.loads (the decoded list of questions, or None where it raises).
 * Only the choice between the JSON path and the line-by-line fallback, and
 * the fallback itself, are modelled.
 */
module QuestionParsing {
  import opened Wrappers
  import opened PyText

  /** The fallback parser keeps at most this many questions. */
  const MaxFallbackQuestions: nat := 6

  const LeadQuestion: string := "Tell me about a time when you had to lead a team through a difficult project. What was your approach?"
  const ResourcesQuestion: string := "Describe a situation where you had to solve a complex problem with limited resources. How did you handle it?"
  const StakeholderQuestion: string := "Can you share an example of when you had to work with a difficult team member or stakeholder?"
  const ChangeQuestion: string := "Tell me about a time when you had to adapt quickly to a significant change in your work environment."
  const MistakeQuestion: string := "Describe a situation where you made a mistake. How did you handle it and what did you learn?"
  const InfluenceQuestion: string := "Give me an example of when you had to influence others without having direct authority over them."

  /** GeminiClient._get_fallback_questions: the questions used when generation raises. */
  function FallbackQuestions(): (qs: seq<string>)
    ensures |qs| == 6
    ensures forall k :: 0 <= k < |qs| ==> qs[k] != ""
  {
    [LeadQuestion, ResourcesQuestion, StakeholderQuestion, ChangeQuestion, MistakeQuestion, InfluenceQuestion]
  }

  /** A stripped line that starts and ends with a double quote (one quote alone counts). */
  predicate IsQuotedLine(t: string) {
    |t| >= 1 && t[0] == '"' && t[|t| - 1] == '"'
  }

  /** t[1:-1]: the line without its first and last character. */
  function Unquote(t: string): (q: string)
    requires IsQuotedLine(t)
    ensures (|t| >= 2 && t == "\"" + q + "\"") || (t == "\"" && q == "")
  {
    if |t| >= 2 then t[1..|t| - 1] else ""
  }

  /** The question a line contributes, if any. */
  function QuestionOfLine(line: string): seq<string> {
    var t := Strip(line);
    if IsQuotedLine(t) then [Unquote(t)] else []
  }

  /** The questions of all quoted lines, in the order of the lines. */
  function QuotedLines(lines: seq<string>): (qs: seq<string>)
    ensures |qs| <= |lines|
  {
    if lines == [] then [] else QuestionOfLine(lines[0]) + QuotedLines(lines[1..])
  }

  /** The questions of two runs of lines are those of the first, then those of the second. */
  lemma {:induction false} QuotedLinesAppend(a: seq<string>, b: seq<string>)
    ensures QuotedLines(a + b) == QuotedLines(a) + QuotedLines(b)
    decreases |a|
  {
    if a == [] {
      assert a + b == b;
    } else {
      assert (a + b)[0] == a[0];
      assert (a + b)[1..] == a[1..] + b;
      QuotedLinesAppend(a[1..], b);
    }
  }

  lemma OneLine(line: string)
    ensures QuotedLines([line]) == QuestionOfLine(line)
  {
    assert [line][1..] == [];
  }

  /** One more line adds that line's question to those of the lines before it. */
  lemma QuotedPrefixStep(lines: seq<string>, i: nat)
    requires i < |lines|
    ensures QuotedLines(lines[..i + 1]) == QuotedLines(lines[..i]) + QuestionOfLine(lines[i])
  {
    OneLine(lines[i]);
    assert lines[..i + 1] == lines[..i] + [lines[i]];
    QuotedLinesAppend(lines[..i], [lines[i]]);
  }

  /** A question is kept exactly when some line, stripped, is quoted and unquotes to it. */
  lemma {:induction false} QuotedLinesMembers(lines: seq<string>, q: string)
    ensures q in QuotedLines(lines) <==>
      exists j :: 0 <= j < |lines| && IsQuotedLine(Strip(lines[j])) && q == Unquote(Strip(lines[j]))
    decreases |lines|
  {
    if lines != [] {
      QuotedLinesMembers(lines[1..], q);
      assert forall j :: 1 <= j < |lines| ==> lines[j] == lines[1..][j - 1];
      if exists j :: 0 <= j < |lines| && IsQuotedLine(Strip(lines[j])) && q == Unquote(Strip(lines[j])) {
        var j :| 0 <= j < |lines| && IsQuotedLine(Strip(lines[j])) && q == Unquote(Strip(lines[j]));
        if j > 0 { assert lines[1..][j - 1] == lines[j]; }
      }
    }
  }

  /** The fallback result: the first six questions of the quoted lines of the reply. */
  function FallbackParsed(text: string): (qs: seq<string>)
    ensures var all := QuotedLines(SplitOn(text, '\n'));
      |qs| == if |all| < MaxFallbackQuestions then |all| else MaxFallbackQuestions
    ensures qs == QuotedLines(SplitOn(text, '\n'))[..|qs|]
  {
    var all := QuotedLines(SplitOn(text, '\n'));
    if |all| <= MaxFallbackQuestions then all else all[..MaxFallbackQuestions]
  }

  /** The fallback loop over the lines of the (stripped) reply. */
  method FallbackParse(text: string) returns (questions: seq<string>)
    ensures questions == FallbackParsed(text)
  {
    var found := CollectQuoted(SplitOn(text, '\n'));
    questions := if |found| <= MaxFallbackQuestions then found else found[..MaxFallbackQuestions];
  }

  /** The loop body of the fallback: keep each stripped, quoted line without its quotes. */
  method CollectQuoted(lines: seq<string>) returns (found: seq<string>)
    ensures found == QuotedLines(lines)
  {
    found := [];
    for i := 0 to |lines|
      invariant found == QuotedLines(lines[..i])
    {
      var line := Strip(lines[i]);
      if IsQuotedLine(line) {
        found := found + [Unquote(line)];
      }
      assert found == QuotedLines(lines[..i]) + QuestionOfLine(lines[i]);
      QuotedPrefixStep(lines, i);
    }
    assert lines[..|lines|] == lines;
  }

  /** A reply treated as JSON: it starts with '[' and ends with ']'. */
  predicate IsBracketed(t: string) {
    |t| >= 1 && t[0] == '[' && t[|t| - 1] == ']'
  }

  /**
   * The questions generate_questions returns for a reply: the fixed six
   * when the call raised, the decoded array when the stripped reply is
   * bracketed (the fixed six when decoding raised), and otherwise the
   * fallback parse of the stripped reply.
   */
  function GeneratedQuestions(reply: Result<string, string>, decode: string -> Option<seq<string>>): (qs: seq<string>)
    ensures reply.Failure? ==> qs == FallbackQuestions()
    ensures reply.Success? && IsBracketed(Strip(reply.value)) ==>
      qs == (if decode(Strip(reply.value)).Some? then decode(Strip(reply.value)).value else FallbackQuestions())
    ensures reply.Success? && !IsBracketed(Strip(reply.value)) ==>
      var all := QuotedLines(SplitOn(Strip(reply.value), '\n'));
      |qs| == (if |all| < MaxFallbackQuestions then |all| else MaxFallbackQuestions) && qs == all[..|qs|]
  {
    match reply
    case Failure(_) => FallbackQuestions()
    case Success(raw) =>
      var text := Strip(raw);
      if IsBracketed(text) then
        (match decode(text)
         case None => FallbackQuestions()
         case Some(qs) => qs)
      else FallbackParsed(text)
  }

  /** GeminiClient.generate_questions, given the reply and the JSON decoder. */
  method GenerateQuestions(reply: Result<string, string>, decode: string -> Option<seq<string>>)
    returns (questions: seq<string>)
    ensures questions == GeneratedQuestions(reply, decode)
  {
    match reply {
      case Failure(_) =>
        questions := FallbackQuestions();
      case Success(raw) =>
        var text := Strip(raw);
        if IsBracketed(text) {
          match decode(text) {
            case None => questions := FallbackQuestions();
            case Some(qs) => questions := qs;
          }
        } else {
          questions := FallbackParse(text);
        }
    }
  }

  /** A question written as one line between double quotes. */
  function Quote(q: string): string {
    "\"" + q + "\""
  }

  /** The questions, each written as a quoted line. */
  function QuotedLinesOf(qs: seq<string>): (lines: seq<string>)
    ensures |lines| == |qs|
    ensures forall k :: 0 <= k < |qs| ==> lines[k] == Quote(qs[k])
  {
    if qs == [] then [] else [Quote(qs[0])] + QuotedLinesOf(qs[1..])
  }

  /** The questions of lines that each quote one question are those questions. */
  lemma {:induction false} QuotedLinesOfQuotes(qs: seq<string>)
    ensures QuotedLines(QuotedLinesOf(qs)) == qs
    decreases |qs|
  {
    if qs != [] {
      var lines := QuotedLinesOf(qs);
      assert lines[1..] == QuotedLinesOf(qs[1..]);
      QuotedLinesOfQuotes(qs[1..]);
      var t := Quote(qs[0]);
      assert Strip(t) == t;
      assert Unquote(t) == qs[0];
    }
  }

  /** Quoted lines of questions without a line break have no line break either. */
  lemma QuotedLinesShape(qs: seq<string>)
    requires forall k :: 0 <= k < |qs| ==> '\n' !in qs[k]
    ensures forall k :: 0 <= k < |qs| ==> '\n' !in QuotedLinesOf(qs)[k]
    ensures forall k :: 0 <= k < |qs| ==> IsQuotedLine(QuotedLinesOf(qs)[k])
  {
    forall k | 0 <= k < |qs| ensures '\n' !in QuotedLinesOf(qs)[k] && IsQuotedLine(QuotedLinesOf(qs)[k]) {
      assert QuotedLinesOf(qs)[k] == "\"" + qs[k] + "\"";
    }
  }

  /** The reply text holding the questions, one quoted line each. */
  function QuotedReply(qs: seq<string>): string {
    Join(QuotedLinesOf(qs), "\n")
  }

  /** Such a reply is already stripped and is no JSON list. */
  lemma QuotedReplyEnds(qs: seq<string>)
    requires qs != []
    requires forall k :: 0 <= k < |qs| ==> '\n' !in qs[k]
    ensures Strip(QuotedReply(qs)) == QuotedReply(qs)
    ensures !IsBracketed(QuotedReply(qs))
  {
    QuotedLinesShape(qs);
    JoinEnds(QuotedLinesOf(qs), "\n");
    var t := QuotedReply(qs);
    assert t[0] == '"' && t[|t| - 1] == '"';
  }

  /** Such a reply splits back into its lines. */
  lemma QuotedReplySplits(qs: seq<string>)
    requires qs != []
    requires forall k :: 0 <= k < |qs| ==> '\n' !in qs[k]
    ensures SplitOn(QuotedReply(qs), '\n') == QuotedLinesOf(qs)
  {
    QuotedLinesShape(qs);
    SplitOnJoin(QuotedLinesOf(qs), '\n');
  }

  /**
   * A reply that lists one to six questions, one per line between double
   * quotes, is parsed back into exactly those questions.
   */
  lemma QuotedReplyRoundTrip(qs: seq<string>, decode: string -> Option<seq<string>>)
    requires 1 <= |qs| <= MaxFallbackQuestions
    requires forall k :: 0 <= k < |qs| ==> '\n' !in qs[k]
    ensures GeneratedQuestions(Success(QuotedReply(qs)), decode) == qs
  {
    QuotedReplyEnds(qs);
    QuotedReplySplits(qs);
    QuotedLinesOfQuotes(qs);
    assert FallbackParsed(QuotedReply(qs)) == qs;
  }

  /** A join of quoted lines starts and ends with a double quote. */
  lemma {:induction false} JoinEnds(lines: seq<string>, sep: string)
    requires lines != []
    requires forall k :: 0 <= k < |lines| ==> IsQuotedLine(lines[k])
    ensures var t := Join(lines, sep); |t| >= 1 && t[0] == '"' && t[|t| - 1] == '"'
    decreases |lines|
  {
    if |lines| > 1 {
      JoinEnds(lines[1..], sep);
    }
  }
}
