/**
 The interview session controller of hrms_app.py: the session reset done when
 an application is accepted, the guarded opening message, and the turn step
 that appends each answer followed by either a follow-up question or the
 closing text, analysis and result submission.

 The language model is an oracle. Each render of the interview page gets one
 `Pass`: the text the model would return for a question request given a
 transcript (`ask`), the text it would return for an analysis request given the
 user responses (`analyze`), and the chat input of that render.
 */
module Interview {
  import opened Wrappers
  import opened Transcript
  import opened ScoreExtraction
  import opened SummarySplit

  /** A job posting as the job service returns it. */
  datatype Job = Job(id: int, roleName: string, roleDescription: string)

  /** The body `submit_interview` posts. */
  datatype Payload = Payload(
    candidateId: int,
    jobDescId: int,
    summary: string,
    similarityScore: int,
    interviewScore: nat)

  /** The `summary` and `interview_score` kept after an analysis; `score` is None when extraction failed. */
  datatype Outcome = Outcome(summary: string, score: Option<nat>)

  /**
   The interview part of the session state. `submitted` records every call of
   `submit_interview`, in order, in place of the network request.
   */
  datatype Session = Session(
    job: Job,
    candidateName: string,
    candidateEmail: string,
    candidateId: int,
    questionIndex: int,
    messages: seq<Message>,
    started: bool,
    outcome: Option<Outcome>,
    submitted: seq<Payload>)

  /** A text-generation call: the reply the model gives to a list of messages. */
  type Oracle = seq<Message> -> string

  /** One render of the interview page. */
  datatype Pass = Pass(input: Option<string>, ask: Oracle, analyze: Oracle)

  /** Follow-up questions are requested while the question index is below this. */
  const FollowUpLimit: int := 4

  /** The fixed text appended in place of a question once the limit is reached. */
  const ClosingText: string := "Thank you for your time. We will get back to you soon."

  /** The constant `similarity_score` of every interview result. */
  const SimilarityPlaceholder: int := 0

  /** The state written by the application form when a candidate id comes back. */
  predicate IsReset(s: Session) {
    && s.questionIndex == 0
    && s.messages == []
    && !s.started
    && s.outcome == None
    && s.submitted == []
  }

  /**
   The submit branch of the application form. The candidate service is only
   asked when name and email are non-empty; `candidateId` is what it returned.
   Python truthiness rejects a missing id and the id 0.
   */
  function Apply(job: Job, name: string, email: string, candidateId: Option<int>): (r: Option<Session>)
    ensures r.Some? <==> name != "" && email != "" && candidateId.Some? && candidateId.value != 0
    ensures r.Some? ==> IsReset(r.value)
    ensures r.Some? ==> r.value.job == job && r.value.candidateId == candidateId.value
    ensures r.Some? ==> r.value.candidateName == name && r.value.candidateEmail == email
  {
    if name != "" && email != "" then
      match candidateId
      case Some(id) =>
        if id != 0 then Some(Session(job, name, email, id, 0, [], false, None, [])) else None
      case None => None
    else None
  }

  /**
   The result submission guarded by the score: one payload when a score is
   extracted from the analysis, none otherwise.
   */
  function SubmissionFor(candidateId: int, jobDescId: int, analysis: string): (r: seq<Payload>)
    ensures |r| <= 1
    ensures |r| == 1 <==> ExtractScore(analysis).Some?
    ensures |r| == 1 ==> r[0].candidateId == candidateId && r[0].jobDescId == jobDescId
    ensures |r| == 1 ==> r[0].summary == Summary(analysis) && r[0].similarityScore == 0
    ensures |r| == 1 ==> r[0].interviewScore == ExtractScore(analysis).value
  {
    match ExtractScore(analysis)
    case None => []
    case Some(score) =>
      [Payload(candidateId, jobDescId, Summary(analysis), SimilarityPlaceholder, score)]
  }

  /** The guarded opening: appended once, when the interview has not started. */
  function Start(s: Session, opening: string): (r: Session)
    ensures r.started
    ensures !s.started ==> r.messages == s.messages + [Message(Assistant, opening)]
    ensures s.started ==> r == s
    ensures r == s.(messages := r.messages, started := true)
  {
    if s.started then s
    else s.(messages := s.messages + [Message(Assistant, opening)], started := true)
  }

  /**
   One user answer. The answer is appended; below the limit a follow-up question,
   asked with the whole transcript, is appended; otherwise the closing text is
   appended, the user responses are analysed and the result is submitted if a
   score can be extracted. The index increases by one in both branches.
   */
  function Answer(s: Session, answer: string, ask: Oracle, analyze: Oracle): (r: Session)
    ensures r.questionIndex == s.questionIndex + 1
    ensures |r.messages| == |s.messages| + 2
    ensures r.messages[..|s.messages| + 1] == s.messages + [Message(User, answer)]
    ensures s.questionIndex < FollowUpLimit ==>
      && r.messages[|s.messages| + 1] == Message(Assistant, ask(s.messages + [Message(User, answer)]))
      && r.outcome == s.outcome
      && r.submitted == s.submitted
    ensures s.questionIndex >= FollowUpLimit ==>
      var analysis := analyze(UserResponses(r.messages));
      && r.messages[|s.messages| + 1] == Message(Assistant, ClosingText)
      && r.outcome == Some(Outcome(Summary(analysis), ExtractScore(analysis)))
      && r.submitted == s.submitted + SubmissionFor(s.candidateId, s.job.id, analysis)
    ensures r == s.(messages := r.messages, questionIndex := r.questionIndex,
                    outcome := r.outcome, submitted := r.submitted)
  {
    var asked := s.messages + [Message(User, answer)];
    if s.questionIndex < FollowUpLimit then
      s.(messages := asked + [Message(Assistant, ask(asked))],
         questionIndex := s.questionIndex + 1)
    else
      var closed := asked + [Message(Assistant, ClosingText)];
      var analysis := analyze(UserResponses(closed));
      s.(messages := closed,
         questionIndex := s.questionIndex + 1,
         outcome := Some(Outcome(Summary(analysis), ExtractScore(analysis))),
         submitted := s.submitted + SubmissionFor(s.candidateId, s.job.id, analysis))
  }

  /** A render whose chat input holds a non-empty answer. */
  predicate Answered(p: Pass) {
    p.input.Some? && p.input.value != ""
  }

  /**
   One render of `interview_page`: the opening is requested with an empty
   transcript and appended only if the interview has not started; then a
   non-empty chat input is processed as an answer.
   */
  function Render(s: Session, p: Pass): (r: Session)
    ensures r.started
    ensures Answered(p) ==> r == Answer(Start(s, p.ask([])), p.input.value, p.ask, p.analyze)
    ensures !Answered(p) ==> r == Start(s, p.ask([]))
  {
    var s1 := Start(s, p.ask([]));
    match p.input
    case Some(answer) => if answer != "" then Answer(s1, answer, p.ask, p.analyze) else s1
    case None => s1
  }

  /** The session after a sequence of renders. */
  function Run(s: Session, passes: seq<Pass>): Session
  {
    if |passes| == 0 then s
    else Render(Run(s, passes[..|passes| - 1]), passes[|passes| - 1])
  }

  /** The user message of the `k`-th answer. */
  function AnswerOf(ms: seq<Message>, k: nat): Message
    requires 1 + 2 * k < |ms|
  {
    ms[1 + 2 * k]
  }

  /** The assistant message that follows the `k`-th answer. */
  function ReplyOf(ms: seq<Message>, k: nat): Message
    requires 2 + 2 * k < |ms|
  {
    ms[2 + 2 * k]
  }

  /**
   The invariant of the interview state: once started, the transcript is the
   opening followed by one (answer, reply) pair per processed answer; the index
   counts the user messages; replies from the fifth answer on are the closing
   text; there is an outcome exactly when a closing happened; and there is at
   most one submission per closing.
   */
  ghost predicate Consistent(s: Session) {
    && s.questionIndex == CountRole(s.messages, User)
    && (s.started <==> |s.messages| > 0)
    && (s.started ==>
          && s.messages[0].role == Assistant
          && Alternates(s.messages, s.questionIndex)
          && ClosingsAre(s.messages, s.questionIndex))
    && (s.outcome.Some? <==> s.questionIndex > FollowUpLimit)
    && |s.submitted| <= (if s.questionIndex > FollowUpLimit then s.questionIndex - FollowUpLimit else 0)
  }

  /** `ms` is an opening followed by `answers` pairs of a user message and an assistant message. */
  ghost predicate Alternates(ms: seq<Message>, answers: nat)
  {
    && |ms| == 1 + 2 * answers
    && forall k: nat :: k < answers ==>
         AnswerOf(ms, k).role == User && ReplyOf(ms, k).role == Assistant
  }

  lemma AlternatesStep(ms: seq<Message>, answers: nat, answer: Message, reply: Message)
    requires Alternates(ms, answers)
    requires answer.role == User && reply.role == Assistant
    ensures Alternates(ms + [answer, reply], answers + 1)
  {
    var ms' := ms + [answer, reply];
    forall k: nat | k < answers + 1
      ensures AnswerOf(ms', k).role == User && ReplyOf(ms', k).role == Assistant
    {
      if k < answers {
        assert AnswerOf(ms', k) == AnswerOf(ms, k);
        assert ReplyOf(ms', k) == ReplyOf(ms, k);
      }
    }
  }

  /** The session written by an accepted application satisfies the invariant. */
  lemma ApplyConsistent(job: Job, name: string, email: string, candidateId: Option<int>)
    requires Apply(job, name, email, candidateId).Some?
    ensures Consistent(Apply(job, name, email, candidateId).value)
  {
  }

  lemma CountRoleSnoc(ms: seq<Message>, m: Message, role: Role)
    ensures CountRole(ms + [m], role) == CountRole(ms, role) + (if m.role == role then 1 else 0)
  {
    assert (ms + [m])[..|ms|] == ms;
  }

  /** The guarded opening keeps the invariant. */
  lemma StartConsistent(s: Session, opening: string)
    requires Consistent(s)
    ensures Consistent(Start(s, opening))
  {
    var r := Start(s, opening);
    if s.started {
      assert r == s;
    } else {
      assert s.messages == [] && s.questionIndex == 0;
      assert r.messages == [Message(Assistant, opening)];
      CountRoleSnoc(s.messages, Message(Assistant, opening), User);
      assert r.questionIndex == CountRole(r.messages, User);
      assert Alternates(r.messages, 0) && ClosingsAre(r.messages, 0);
      assert r.outcome == s.outcome && r.submitted == s.submitted;
    }
  }

  /** An answer step from a started, consistent session keeps the invariant. */
  lemma SteppedConsistent(s: Session, r: Session, answer: string, ask: Oracle, analyze: Oracle)
    requires Consistent(s) && s.started
    requires Stepped(s, r, answer, ask, analyze)
    ensures Consistent(r)
  {
    var n := |s.messages|;
    var user := Message(User, answer);
    var reply := r.messages[n + 1];
    assert r.messages == s.messages + [user, reply];
    assert s.messages + [user] + [reply] == r.messages;
    CountRoleSnoc(s.messages, user, User);
    CountRoleSnoc(s.messages + [user], reply, User);
    AlternatesStep(s.messages, s.questionIndex, user, reply);
    ClosingsStep(s.messages, s.questionIndex, user, reply);
    assert r.messages[0] == s.messages[0];
  }

  /** An answer to a started interview keeps the invariant. */
  lemma AnswerConsistent(s: Session, answer: string, ask: Oracle, analyze: Oracle)
    requires Consistent(s) && s.started
    ensures Consistent(Answer(s, answer, ask, analyze))
  {
    AnswerStepped(s, answer, ask, analyze);
    SteppedConsistent(s, Answer(s, answer, ask, analyze), answer, ask, analyze);
  }

  /** Every render keeps the invariant. */
  lemma RenderConsistent(s: Session, p: Pass)
    requires Consistent(s)
    ensures Consistent(Render(s, p))
  {
    StartConsistent(s, p.ask([]));
    if Answered(p) {
      AnswerConsistent(Start(s, p.ask([])), p.input.value, p.ask, p.analyze);
    }
  }

  /** Any sequence of renders from a consistent state keeps the invariant. */
  lemma {:induction false} RunConsistent(s: Session, passes: seq<Pass>)
    requires Consistent(s)
    ensures Consistent(Run(s, passes))
  {
    if |passes| > 0 {
      RunConsistent(s, passes[..|passes| - 1]);
      RenderConsistent(Run(s, passes[..|passes| - 1]), passes[|passes| - 1]);
    }
  }

  /** A run of renders from a reset session: a first render without an answer, then one answer per render. */
  predicate AnsweredAfterOpening(passes: seq<Pass>) {
    |passes| >= 1 && !Answered(passes[0]) && forall k :: 1 <= k < |passes| ==> Answered(passes[k])
  }

  /** The user messages the answers of `ps` produce, in order. */
  function AnswerMessages(ps: seq<Pass>): seq<Message>
    requires forall k :: 0 <= k < |ps| ==> Answered(ps[k])
  {
    if |ps| == 0 then []
    else
      var last := ps[|ps| - 1];
      assert Answered(last);
      AnswerMessages(ps[..|ps| - 1]) + [Message(User, last.input.value)]
  }

  /**
   The submissions a run should record: for every answer from the fifth on,
   whatever `SubmissionFor` gives for the analysis of all answers so far.
   */
  function ExpectedSubmissions(candidateId: int, jobDescId: int, passes: seq<Pass>): seq<Payload>
    requires AnsweredAfterOpening(passes)
  {
    if |passes| <= FollowUpLimit + 1 then []
    else
      ExpectedSubmissions(candidateId, jobDescId, passes[..|passes| - 1])
      + SubmissionFor(candidateId, jobDescId, passes[|passes| - 1].analyze(AnswerMessages(passes[1..])))
  }

  lemma UserResponsesOfPair(ms: seq<Message>, answer: string, reply: string)
    ensures UserResponses(ms + [Message(User, answer), Message(Assistant, reply)])
         == UserResponses(ms) + [Message(User, answer)]
  {
    var ms' := ms + [Message(User, answer), Message(Assistant, reply)];
    assert ms'[..|ms'| - 1] == ms + [Message(User, answer)];
    assert (ms + [Message(User, answer)])[..|ms|] == ms;
  }

  /** The `k`-th answer of the transcript `ms` is the input of render `k + 1`, for every answer. */
  ghost predicate AnswersAre(ms: seq<Message>, passes: seq<Pass>)
    requires AnsweredAfterOpening(passes)
  {
    && |ms| == 2 * |passes| - 1
    && forall k: nat :: k < |passes| - 1 ==>
         AnswerOf(ms, k) == Message(User, passes[k + 1].input.value)
  }

  /** The reply to each of the first four answers is the question the model gives for the transcript up to that answer. */
  ghost predicate QuestionsAre(ms: seq<Message>, passes: seq<Pass>)
    requires AnsweredAfterOpening(passes)
  {
    && |ms| == 2 * |passes| - 1
    && forall k: nat :: k < |passes| - 1 && k < FollowUpLimit ==> QuestionAt(ms, passes, k)
  }

  /** The reply to the `k`-th answer is the question the model of render `k + 1` gives for the transcript up to that answer. */
  ghost predicate QuestionAt(ms: seq<Message>, passes: seq<Pass>, k: nat)
    requires k + 1 < |passes| && 2 + 2 * k < |ms|
  {
    ReplyOf(ms, k) == Message(Assistant, passes[k + 1].ask(ms[..2 + 2 * k]))
  }

  /** The reply to every answer from the fifth on is the closing text. */
  ghost predicate ClosingsAre(ms: seq<Message>, answers: nat)
  {
    && |ms| == 1 + 2 * answers
    && forall k: nat :: FollowUpLimit <= k < answers ==>
         ReplyOf(ms, k) == Message(Assistant, ClosingText)
  }

  lemma AnswersStep(ms: seq<Message>, front: seq<Pass>, p: Pass, reply: Message)
    requires Answered(p) && AnsweredAfterOpening(front) && AnsweredAfterOpening(front + [p])
    requires AnswersAre(ms, front)
    ensures AnswersAre(ms + [Message(User, p.input.value), reply], front + [p])
  {
    var passes := front + [p];
    var ms' := ms + [Message(User, p.input.value), reply];
    forall k: nat | k < |passes| - 1
      ensures AnswerOf(ms', k) == Message(User, passes[k + 1].input.value)
    {
      if k < |front| - 1 {
        assert AnswerOf(ms', k) == AnswerOf(ms, k);
        assert passes[k + 1] == front[k + 1];
      }
    }
  }

  lemma QuestionsStep(ms: seq<Message>, front: seq<Pass>, p: Pass, reply: Message)
    requires Answered(p) && AnsweredAfterOpening(front) && AnsweredAfterOpening(front + [p])
    requires QuestionsAre(ms, front)
    requires |front| - 1 < FollowUpLimit ==>
      reply == Message(Assistant, p.ask(ms + [Message(User, p.input.value)]))
    ensures QuestionsAre(ms + [Message(User, p.input.value), reply], front + [p])
  {
    var passes := front + [p];
    var ms' := ms + [Message(User, p.input.value), reply];
    forall k: nat | k < |passes| - 1 && k < FollowUpLimit
      ensures QuestionAt(ms', passes, k)
    {
      if k < |front| - 1 {
        assert QuestionAt(ms, front, k);
        assert ReplyOf(ms', k) == ReplyOf(ms, k);
        assert ms'[..2 + 2 * k] == ms[..2 + 2 * k];
        assert passes[k + 1] == front[k + 1];
      } else {
        assert ms'[..2 + 2 * k] == ms + [Message(User, p.input.value)];
      }
    }
  }

  lemma ClosingsStep(ms: seq<Message>, answers: nat, answer: Message, reply: Message)
    requires ClosingsAre(ms, answers)
    requires FollowUpLimit <= answers ==> reply == Message(Assistant, ClosingText)
    ensures ClosingsAre(ms + [answer, reply], answers + 1)
  {
    var ms' := ms + [answer, reply];
    forall k: nat | FollowUpLimit <= k < answers + 1
      ensures ReplyOf(ms', k) == Message(Assistant, ClosingText)
    {
      if k < answers {
        assert ReplyOf(ms', k) == ReplyOf(ms, k);
      }
    }
  }

  /**
   `r` is `s` after the answer `answer`: the answer and its reply appended, the
   index one higher, and the gated submission added in the closing branch.
   */
  ghost predicate Stepped(s: Session, r: Session, answer: string, ask: Oracle, analyze: Oracle) {
    var asked := s.messages + [Message(User, answer)];
    var reply := if s.questionIndex < FollowUpLimit then ask(asked) else ClosingText;
    && r.started == s.started && r.job == s.job && r.candidateId == s.candidateId
    && r.questionIndex == s.questionIndex + 1
    && r.messages == asked + [Message(Assistant, reply)]
    && (r.outcome.Some? <==> s.outcome.Some? || s.questionIndex >= FollowUpLimit)
    && r.submitted == s.submitted
         + (if s.questionIndex < FollowUpLimit then []
            else SubmissionFor(s.candidateId, s.job.id, analyze(UserResponses(r.messages))))
  }

  lemma AnswerStepped(s: Session, answer: string, ask: Oracle, analyze: Oracle)
    ensures Stepped(s, Answer(s, answer, ask, analyze), answer, ask, analyze)
  {
    var r := Answer(s, answer, ask, analyze);
    assert r.messages == r.messages[..|s.messages| + 1] + [r.messages[|s.messages| + 1]];
  }

  /** A render after the opening, with an answer, is that answer. */
  lemma RunAnswerStep(s0: Session, passes: seq<Pass>)
    requires |passes| >= 2 && Answered(passes[|passes| - 1])
    requires Run(s0, passes[..|passes| - 1]).started
    ensures var p := passes[|passes| - 1];
      Stepped(Run(s0, passes[..|passes| - 1]), Run(s0, passes), p.input.value, p.ask, p.analyze)
  {
    var p := passes[|passes| - 1];
    var prev := Run(s0, passes[..|passes| - 1]);
    assert Run(s0, passes) == Answer(prev, p.input.value, p.ask, p.analyze);
    AnswerStepped(prev, p.input.value, p.ask, p.analyze);
  }

  /**
   What `InterviewTranscript` promises of the session `r` reached from the reset
   session `s0` by the renders `passes`.
   */
  ghost predicate TranscriptOfRun(r: Session, s0: Session, passes: seq<Pass>)
    requires AnsweredAfterOpening(passes)
  {
    && r.started
    && r.questionIndex == |passes| - 1
    && ClosingsAre(r.messages, |passes| - 1)
    && r.messages[0] == Message(Assistant, passes[0].ask([]))
    && AnswersAre(r.messages, passes)
    && UserResponses(r.messages) == AnswerMessages(passes[1..])
    && r.submitted == ExpectedSubmissions(s0.candidateId, s0.job.id, passes)
    && r.job == s0.job && r.candidateId == s0.candidateId
  }

  lemma AnswerMessagesSnoc(front: seq<Pass>, p: Pass)
    requires Answered(p) && AnsweredAfterOpening(front) && AnsweredAfterOpening(front + [p])
    ensures AnswerMessages((front + [p])[1..]) == AnswerMessages(front[1..]) + [Message(User, p.input.value)]
  {
    var tail := (front + [p])[1..];
    assert tail[..|tail| - 1] == front[1..];
    assert tail[|tail| - 1] == p;
  }

  lemma ExpectedSubmissionsSnoc(candidateId: int, jobDescId: int, front: seq<Pass>, p: Pass)
    requires Answered(p) && AnsweredAfterOpening(front) && AnsweredAfterOpening(front + [p])
    ensures ExpectedSubmissions(candidateId, jobDescId, front + [p])
         == ExpectedSubmissions(candidateId, jobDescId, front)
            + (if |front| - 1 >= FollowUpLimit
               then SubmissionFor(candidateId, jobDescId, p.analyze(AnswerMessages((front + [p])[1..])))
               else [])
  {
    assert (front + [p])[..|front|] == front;
  }

  lemma TranscriptStep(prev: Session, r: Session, s0: Session, front: seq<Pass>, p: Pass)
    requires Answered(p) && AnsweredAfterOpening(front) && AnsweredAfterOpening(front + [p])
    requires TranscriptOfRun(prev, s0, front)
    requires Stepped(prev, r, p.input.value, p.ask, p.analyze)
    ensures TranscriptOfRun(r, s0, front + [p])
  {
    var passes := front + [p];
    var m := |passes|;
    var n := |prev.messages|;
    var reply := r.messages[n + 1];
    var answer := Message(User, p.input.value);
    assert r.messages == prev.messages + [answer, reply];
    AnswersStep(prev.messages, front, p, reply);
    ClosingsStep(prev.messages, m - 2, answer, reply);
    UserResponsesOfPair(prev.messages, p.input.value, reply.content);
    AnswerMessagesSnoc(front, p);
    ExpectedSubmissionsSnoc(s0.candidateId, s0.job.id, front, p);
  }

  /**
   The transcript of an interview run from a reset session with n answers: the
   opening, then n (answer, reply) pairs whose replies from the fifth answer on
   are the closing text. The index is n, the analysis sees exactly the answers,
   and a result is submitted after every answer from the fifth on whose analysis
   yields a score.
   */
  lemma {:induction false} InterviewTranscript(s0: Session, passes: seq<Pass>)
    requires IsReset(s0) && AnsweredAfterOpening(passes)
    ensures TranscriptOfRun(Run(s0, passes), s0, passes)
  {
    var m := |passes|;
    if m == 1 {
      assert passes[..0] == [];
      assert Run(s0, passes) == Start(s0, passes[0].ask([]));
      assert passes[1..] == [];
    } else {
      var front := passes[..m - 1];
      var p := passes[m - 1];
      assert passes == front + [p];
      FrontAnswered(passes, m - 1);
      InterviewTranscript(s0, front);
      RunAnswerStep(s0, passes);
      TranscriptStep(Run(s0, front), Run(s0, passes), s0, front, p);
    }
  }

  lemma QuestionsAfterAnswer(prev: Session, r: Session, front: seq<Pass>, p: Pass)
    requires Answered(p) && AnsweredAfterOpening(front) && AnsweredAfterOpening(front + [p])
    requires prev.questionIndex == |front| - 1
    requires QuestionsAre(prev.messages, front)
    requires Stepped(prev, r, p.input.value, p.ask, p.analyze)
    ensures QuestionsAre(r.messages, front + [p])
  {
    var reply := r.messages[|prev.messages| + 1];
    assert r.messages == prev.messages + [Message(User, p.input.value), reply];
    QuestionsStep(prev.messages, front, p, reply);
  }

  lemma RunShape(s0: Session, passes: seq<Pass>)
    requires IsReset(s0) && AnsweredAfterOpening(passes)
    ensures Run(s0, passes).started
    ensures Run(s0, passes).questionIndex == |passes| - 1
    ensures |Run(s0, passes).messages| == 2 * |passes| - 1
  {
    InterviewTranscript(s0, passes);
  }

  /**
   The first min(n, 4) replies of an interview run are the follow-up questions
   the model gives for the whole transcript up to the answer they follow.
   */
  lemma {:induction false} InterviewQuestions(s0: Session, passes: seq<Pass>)
    requires IsReset(s0) && AnsweredAfterOpening(passes)
    ensures QuestionsAre(Run(s0, passes).messages, passes)
  {
    var m := |passes|;
    RunShape(s0, passes);
    if m > 1 {
      var front := passes[..m - 1];
      var p := passes[m - 1];
      assert passes == front + [p];
      FrontAnswered(passes, m - 1);
      InterviewQuestions(s0, front);
      RunShape(s0, front);
      RunAnswerStep(s0, passes);
      QuestionsAfterAnswer(Run(s0, front), Run(s0, passes), front, p);
    }
  }

  /** The opening is appended at most once: a second render's opening is ignored. */
  lemma OpeningOnce(s: Session, first: string, second: string)
    ensures Start(Start(s, first), second) == Start(s, first)
    ensures CountRole(Start(s, first).messages, User) == CountRole(s.messages, User)
  {
    if !s.started {
      CountRoleSnoc(s.messages, Message(Assistant, first), User);
    }
  }

  /** Once the limit is reached, an answer does not depend on the question oracle: no question is requested. */
  lemma NoQuestionAfterLimit(s: Session, answer: string, ask1: Oracle, ask2: Oracle, analyze: Oracle)
    requires s.questionIndex >= FollowUpLimit
    ensures Answer(s, answer, ask1, analyze) == Answer(s, answer, ask2, analyze)
  {
  }

  /** Below the limit, an answer does not depend on the analysis oracle: nothing is analysed or submitted. */
  lemma NoAnalysisBeforeLimit(s: Session, answer: string, ask: Oracle, analyze1: Oracle, analyze2: Oracle)
    requires s.questionIndex < FollowUpLimit
    ensures Answer(s, answer, ask, analyze1) == Answer(s, answer, ask, analyze2)
  {
  }

  lemma FrontAnswered(passes: seq<Pass>, m: nat)
    requires AnsweredAfterOpening(passes) && 1 <= m <= |passes|
    ensures AnsweredAfterOpening(passes[..m])
    ensures passes[..m][1..] == passes[1..m]
  {
    assert forall k :: 1 <= k < m ==> passes[..m][k] == passes[k];
  }

  /** With five answers, only the fifth answer's analysis is gated for submission. */
  lemma ExpectedSubmissionsFive(candidateId: int, jobDescId: int, passes: seq<Pass>)
    requires AnsweredAfterOpening(passes) && |passes| == 6
    ensures ExpectedSubmissions(candidateId, jobDescId, passes)
         == SubmissionFor(candidateId, jobDescId, passes[5].analyze(AnswerMessages(passes[1..])))
  {
    FrontAnswered(passes, 5);
    assert ExpectedSubmissions(candidateId, jobDescId, passes[..5]) == [];
  }

  /** With six answers, the fifth and the sixth answers' analyses are gated for submission, in that order. */
  lemma ExpectedSubmissionsSix(candidateId: int, jobDescId: int, passes: seq<Pass>)
    requires AnsweredAfterOpening(passes) && |passes| == 7
    ensures ExpectedSubmissions(candidateId, jobDescId, passes)
         == SubmissionFor(candidateId, jobDescId, passes[5].analyze(AnswerMessages(passes[1..6])))
          + SubmissionFor(candidateId, jobDescId, passes[6].analyze(AnswerMessages(passes[1..])))
  {
    FrontAnswered(passes, 6);
    var front := passes[..6];
    ExpectedSubmissionsFive(candidateId, jobDescId, front);
    assert front[5] == passes[5];
  }

  /**
   Five answers give eleven messages: the opening, five answers, four questions
   and one closing text; the one analysis of the five answers decides the one
   possible submission.
   */
  lemma FiveAnswers(s0: Session, passes: seq<Pass>)
    requires IsReset(s0) && AnsweredAfterOpening(passes) && |passes| == 6
    ensures |Run(s0, passes).messages| == 11
    ensures CountRole(Run(s0, passes).messages, User) == 5
    ensures CountRole(Run(s0, passes).messages, Assistant) == 6
    ensures ReplyOf(Run(s0, passes).messages, 4) == Message(Assistant, ClosingText)
    ensures Run(s0, passes).submitted
         == SubmissionFor(s0.candidateId, s0.job.id, passes[5].analyze(AnswerMessages(passes[1..])))
  {
    InterviewTranscript(s0, passes);
    RunConsistent(s0, passes);
    CountRolesPartition(Run(s0, passes).messages);
    ExpectedSubmissionsFive(s0.candidateId, s0.job.id, passes);
  }

  /**
   The session never becomes terminal: a sixth answer appends a second closing
   text, is analysed again, and the gate may submit a second result.
   */
  lemma SixthAnswerResubmits(s0: Session, passes: seq<Pass>)
    requires IsReset(s0) && AnsweredAfterOpening(passes) && |passes| == 7
    ensures |Run(s0, passes).messages| == 13
    ensures ReplyOf(Run(s0, passes).messages, 4) == Message(Assistant, ClosingText)
    ensures ReplyOf(Run(s0, passes).messages, 5) == Message(Assistant, ClosingText)
    ensures Run(s0, passes).submitted
         == SubmissionFor(s0.candidateId, s0.job.id, passes[5].analyze(AnswerMessages(passes[1..6])))
          + SubmissionFor(s0.candidateId, s0.job.id, passes[6].analyze(AnswerMessages(passes[1..])))
  {
    InterviewTranscript(s0, passes);
    ExpectedSubmissionsSix(s0.candidateId, s0.job.id, passes);
  }

  /** The summary of the worked example's analysis is "Great communicator.". */
  lemma ExampleAnalysisSummary()
    ensures Summary("Great communicator.\n\nScore: 91") == "Great communicator."
  {
    var paragraph := "Great communicator.";
    assert forall k :: 0 <= k < |paragraph| ==> paragraph[k] != '\n';
    assert forall k: nat :: !SeparatorAt(paragraph, k);
    assert paragraph + Separator + "Score: 91" == "Great communicator.\n\nScore: 91";
    SummaryOfParagraphs(paragraph, "Score: 91");
  }

  /** The score of the worked example's analysis is 91. */
  lemma ExampleAnalysisScore()
    ensures ExtractScore("Great communicator.\n\nScore: 91") == Some(91)
  {
    var analysis := "Great communicator.\n\nScore: 91";
    var prefix := "Great communicator.\n\n";
    assert forall k :: 0 <= k < |prefix| ==> prefix[k] != 's' && prefix[k] != 'S';
    assert DecimalString(91) == "91";
    assert prefix + ShortLabel + "91" + "" == analysis;
    LabelRoundTrip(prefix, ShortLabel, 91, "");
  }

  /**
   An application by "Ada" (id 7) for job 1, five answers, and an analysis
   "Great communicator.\n\nScore: 91" submit exactly one result: summary
   "Great communicator.", score 91, similarity score 0.
   */
  lemma ApplicationToSubmission(passes: seq<Pass>)
    requires AnsweredAfterOpening(passes) && |passes| == 6
    requires passes[5].analyze(AnswerMessages(passes[1..])) == "Great communicator.\n\nScore: 91"
    ensures Apply(Job(1, "Engineer", "Builds things"), "Ada", "ada@x.com", Some(7)).Some?
    ensures Run(Apply(Job(1, "Engineer", "Builds things"), "Ada", "ada@x.com", Some(7)).value, passes).submitted
         == [Payload(7, 1, "Great communicator.", 0, 91)]
  {
    var s0 := Apply(Job(1, "Engineer", "Builds things"), "Ada", "ada@x.com", Some(7)).value;
    FiveAnswers(s0, passes);
    ExampleAnalysisSummary();
    ExampleAnalysisScore();
  }
}
