/** The decision policy of the submit handler (main.py:151-166): the score
    picks one of three branches, each with a fixed message and subject; a
    rejection also carries improvement feedback from a second model call. */
module Decision {

  datatype Branch = Interview | FutureShortlist | Reject

  /** The three-way ladder: above 80 is an interview, 50 to 79 inclusive
      a future shortlist, anything else a rejection.  Because the middle
      test stops at 79, a score of exactly 80, or anything strictly between
      79 and 80, is rejected. */
  function Decide(score: real): (b: Branch)
    ensures b == Interview <==> score > 80.0
    ensures b == FutureShortlist <==> 50.0 <= score <= 79.0
    ensures b == Reject <==> score < 50.0 || (79.0 < score <= 80.0)
  {
    if score > 80.0 then Interview
    else if 50.0 <= score <= 79.0 then FutureShortlist
    else Reject
  }

  /** The boundaries of the ladder. */
  lemma DecideBoundaries()
    ensures Decide(80.0) == Reject
    ensures Decide(79.5) == Reject
    ensures Decide(80.5) == Interview
    ensures Decide(81.0) == Interview
    ensures Decide(79.0) == FutureShortlist
    ensures Decide(50.0) == FutureShortlist
    ensures Decide(49.9) == Reject
    ensures Decide(0.0) == Reject
  {
  }

  /** The ladder is not monotone: a higher score can get a worse outcome. */
  lemma DecideNotMonotone()
    ensures exists lo: real, hi: real :: lo < hi && Decide(lo) == FutureShortlist && Decide(hi) == Reject
  {
    assert Decide(79.0) == FutureShortlist && Decide(80.0) == Reject;
  }

  /** An integer score, as the model usually gives, never lands in the
      gap except at 80 itself. */
  lemma IntegerScores(n: int)
    ensures Decide(n as real) == FutureShortlist <==> 50 <= n < 80
    ensures Decide(n as real) == Reject <==> n < 50 || n == 80
  {
  }

  /** The email subject of each branch; the first letter tells the three
      apart. */
  function Subject(b: Branch): (r: string)
    ensures r != []
    ensures r[0] == 'I' <==> b == Interview
    ensures r[0] == 'S' <==> b == FutureShortlist
    ensures r[0] == 'R' <==> b == Reject
  {
    match b
    case Interview => "Interview Invitation"
    case FutureShortlist => "Shortlist Notification"
    case Reject => "Rejection Email"
  }

  /** The decision text before any feedback: one sentence or two, ending
      in a full stop, opened by an emoji that tells the branches apart
      (party popper, check mark, cross mark). */
  function BaseMessage(b: Branch): (m: string)
    ensures |m| >= 2 && m[|m| - 1] == '.'
    ensures m[0] == '\U{1F389}' <==> b == Interview
    ensures m[0] == '\U{2705}' <==> b == FutureShortlist
    ensures m[0] == '\U{274C}' <==> b == Reject
  {
    match b
    case Interview => "\U{1F389}" + " Congratulations! You have been shortlisted for an interview."
    case FutureShortlist => "\U{2705}" + " You have been shortlisted for future opportunities."
    case Reject => "\U{274C}" + " Thank you for applying. We\U{2019}ve decided to move forward with other candidates."
  }

  /** The header put between a rejection and its feedback. */
  const FeedbackHeader: string := "\n\n\U{1F9E0} **AI Feedback:**\n"

  /** The subject each score range is sent. */
  lemma LadderSubjects(s: real)
    ensures s > 80.0 ==> Subject(Decide(s)) == "Interview Invitation"
    ensures 50.0 <= s <= 79.0 ==> Subject(Decide(s)) == "Shortlist Notification"
    ensures s < 50.0 || (79.0 < s <= 80.0) ==> Subject(Decide(s)) == "Rejection Email"
  {
  }

  /** The three branches have three different subjects. */
  lemma SubjectsDistinct(a: Branch, b: Branch)
    requires a != b
    ensures Subject(a) != Subject(b)
  {
  }

  /** The three branches have three different messages. */
  lemma MessagesDistinct(a: Branch, b: Branch)
    requires a != b
    ensures BaseMessage(a) != BaseMessage(b)
  {
  }

  /** What `llm.invoke(feedback_prompt)` returned: a plain string or a
      dictionary. */
  datatype FeedbackReply = Text(text: string) | Structured(fields: map<string, string>)

  /** The placeholder used when a dictionary reply has no `"text"`. */
  const NoFeedback: string := "No feedback available."

  /** The feedback text: a plain-string reply as it is; a dictionary
      reply's `"text"` entry, or the placeholder when it has none. */
  function FeedbackText(reply: FeedbackReply): (f: string)
    ensures reply.Text? ==> f == reply.text
    ensures reply.Structured? && "text" in reply.fields ==> f == reply.fields["text"]
    ensures reply.Structured? && "text" !in reply.fields ==> f == NoFeedback
  {
    match reply
    case Text(s) => s
    case Structured(m) => if "text" in m then m["text"] else NoFeedback
  }

  /** The decision text.  Only a rejection carries feedback: the other
      texts are the bare message whatever feedback is given, while a
      rejection starts with its message and ends with the header followed
      by exactly the feedback. */
  function DecisionText(b: Branch, feedback: string): (d: string)
    ensures b != Reject ==> d == BaseMessage(b)
    ensures b == Reject ==>
              var n := |BaseMessage(Reject)|;
              && n + |FeedbackHeader| <= |d|
              && d[..n] == BaseMessage(Reject)
              && d[n..n + |FeedbackHeader|] == FeedbackHeader
              && d[n + |FeedbackHeader|..] == feedback
  {
    if b == Reject then BaseMessage(b) + FeedbackHeader + feedback else BaseMessage(b)
  }

  /** Different feedback gives different rejection texts. */
  lemma RejectionKeepsFeedback(f1: string, f2: string)
    requires DecisionText(Reject, f1) == DecisionText(Reject, f2)
    ensures f1 == f2
  {
  }
}
