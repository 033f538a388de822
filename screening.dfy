/** The submit handler (main.py:137-177) as one function from a form
    submission to the outcome it renders.  Every foreign call is a field of
    `Env`: pdfplumber, the screening chain, `json.loads`, the feedback
    model call and the SMTP session. */
module Screening {
  import opened Base
  import opened EmailSyntax
  import opened Extractor
  import opened Evaluator
  import opened Decision
  import opened Notifier

  /** The fixed job description the résumé is compared with. */
  const JobDescription: string := "Looking for a Python Developer with AI expertise."

  /** The form: candidate name, candidate email and the uploaded file's
      bytes (`None` when nothing was uploaded). */
  datatype Submission = Submission(name: string, email: string, resume: Option<seq<Byte>>)

  /** The collaborators the handler calls out to. */
  datatype Env = Env(
    readPages: seq<Byte> -> Option<seq<PageText>>,   // pdfplumber; None: not a PDF
    screener: (string, string) -> ChainResponse,    // the chain, given résumé and job text
    parse: JsonParser,                              // json.loads
    feedbackModel: seq<string> -> FeedbackReply,    // llm.invoke on the missing skills
    transport: Transport)                           // SMTP login and send

  /** An exception that escapes the handler. */
  datatype Fault =
    | NotAPdf          // pdfplumber cannot open the upload
    | ReplyNotObject   // json.loads gave a non-object, so `.get` raises

  datatype Outcome =
    | MissingFields    // the warning; nothing is attempted
    | Failed(fault: Fault)
    | Screened(
        screening: Screening,
        branch: Branch,
        decision: string,
        hrNotice: Option<Delivery>,
        feedbackRequested: bool,
        candidateNotice: Delivery)

  /** The name and the email are non-empty and a file was uploaded. */
  predicate FormComplete(s: Submission) {
    s.name != [] && s.email != [] && s.resume.Some?
  }

  /** What `json.loads` makes of the cleaned chain reply for a résumé's pages. */
  function ParsedReply(env: Env, pages: seq<PageText>): Option<Reply> {
    env.parse(CleanResponse(ResponseText(env.screener(ExtractText(pages), JobDescription))))
  }

  /** The score and missing skills the handler reads for a résumé's pages:
      an undecodable reply reads as score 0 with no missing skills, there
      is no reading exactly when the reply decodes to a non-object, and an
      object reply gives its own `score` and `missing_skills`, 0 and no
      skills standing in for absent keys. */
  function Evaluate(env: Env, pages: seq<PageText>): (r: Option<Screening>)
    ensures ParsedReply(env, pages).None? ==> r == Some(Screening(0.0, []))
    ensures ParsedReply(env, pages).Some? ==> (r.None? <==> ParsedReply(env, pages).value.NotObject?)
    ensures ParsedReply(env, pages).Some? && ParsedReply(env, pages).value.Object? ==>
              var reply := ParsedReply(env, pages).value;
              && r.Some?
              && r.value.score == (if reply.score.Some? then reply.score.value else 0.0)
              && r.value.missingSkills == (if reply.missingSkills.Some? then reply.missingSkills.value else [])
  {
    ReadScreening(CalculateSimilarity(env.screener(ExtractText(pages), JobDescription), env.parse))
  }

  /** The handler, from the button press to the send-status message. */
  function Submit(config: Config, env: Env, s: Submission): (o: Outcome)
    ensures o.MissingFields? <==> !FormComplete(s)
    ensures o.Screened? ==>
              && o.branch == Decide(o.screening.score)
              && (o.hrNotice.Some? <==> o.branch == Interview)
              && (o.feedbackRequested <==> o.branch == Reject)
    ensures o.Screened? ==>
              o.hrNotice == if o.branch == Interview
                            then Some(NotifyHR(config, s.name, s.resume.value, env.transport)) else None
    ensures o.Screened? ==> CandidateNoticeFits(o, config, s.email, env.transport)
    ensures o.Screened? ==>
              o.decision == DecisionText(o.branch, if o.branch == Reject
                                                   then FeedbackText(env.feedbackModel(o.screening.missingSkills))
                                                   else "")
    ensures FormComplete(s) ==> (env.readPages(s.resume.value).None? <==> o == Failed(NotAPdf))
    ensures FormComplete(s) && env.readPages(s.resume.value).Some? ==>
              var pages := env.readPages(s.resume.value).value;
              && (Evaluate(env, pages).None? ==> o == Failed(ReplyNotObject))
              && (Evaluate(env, pages).Some? ==> o.Screened? && o.screening == Evaluate(env, pages).value)
  {
    if !FormComplete(s) then MissingFields
    else
      match env.readPages(s.resume.value)
      case None => Failed(NotAPdf)
      case Some(pages) =>
        match Evaluate(env, pages)
        case None => Failed(ReplyNotObject)
        case Some(screening) => Conclude(config, env, s.name, s.email, s.resume.value, screening)
  }

  /** The candidate's email is refused exactly when the address is invalid;
      otherwise it goes from the configured sender to that address with
      the branch's subject, the decision text as body and no attachment,
      and it counts as sent exactly when the server accepts it. */
  predicate CandidateNoticeFits(o: Outcome, config: Config, email: string, transport: Transport)
    requires o.Screened?
  {
    && (o.candidateNotice.InvalidAddress? <==> !IsValidEmail(email))
    && (o.candidateNotice.Attempted? ==>
          && o.candidateNotice.message.sender == config.emailUser
          && o.candidateNotice.message.recipient == email
          && o.candidateNotice.message.subject == Subject(o.branch)
          && o.candidateNotice.message.body == o.decision
          && o.candidateNotice.message.attachment.None?
          && (o.candidateNotice.Succeeded() <==> transport(o.candidateNotice.message)))
  }

  /** main.py:151-175 once the screening result is known: choose the
      branch, notify HR or ask for feedback, and email the candidate. */
  function Conclude(config: Config, env: Env, name: string, email: string, resume: seq<Byte>,
                    screening: Screening): (o: Outcome)
    ensures o.Screened? && o.screening == screening
    ensures o.branch == Decide(screening.score)
    ensures o.hrNotice == if o.branch == Interview
                          then Some(NotifyHR(config, name, resume, env.transport)) else None
    ensures o.feedbackRequested <==> o.branch == Reject
    ensures o.decision == DecisionText(o.branch, if o.branch == Reject
                                                 then FeedbackText(env.feedbackModel(screening.missingSkills))
                                                 else "")
    ensures CandidateNoticeFits(o, config, email, env.transport)
  {
    var b := Decide(screening.score);
    var hr := if b == Interview then Some(NotifyHR(config, name, resume, env.transport)) else None;
    var feedback := if b == Reject then FeedbackText(env.feedbackModel(screening.missingSkills)) else "";
    var decision := DecisionText(b, feedback);
    Screened(screening, b, decision, hr, b == Reject,
             SendEmail(config, email, Subject(b), decision, None, None, env.transport))
  }

  /** A high score notifies HR with the résumé attached and sends the
      candidate an interview invitation whose text is the bare
      congratulation. */
  lemma InterviewNotifiesHR(config: Config, env: Env, s: Submission, pages: seq<PageText>)
    requires FormComplete(s) && env.readPages(s.resume.value) == Some(pages)
    requires Evaluate(env, pages).Some? && Evaluate(env, pages).value.score > 80.0
    ensures var o := Submit(config, env, s);
            && o.Screened? && o.branch == Interview && !o.feedbackRequested
            && o.decision == BaseMessage(Interview)
            && o.hrNotice == Some(NotifyHR(config, s.name, s.resume.value, env.transport))
  {
  }

  /** A reply that `json.loads` cannot decode ends in a rejection with
      feedback and no HR notice: it reads as score 0. */
  lemma UndecodableReplyRejects(config: Config, env: Env, s: Submission, pages: seq<PageText>)
    requires FormComplete(s) && env.readPages(s.resume.value) == Some(pages)
    requires ParsedReply(env, pages).None?
    ensures var o := Submit(config, env, s);
            && o.Screened? && o.screening == Screening(0.0, [])
            && o.branch == Reject && o.feedbackRequested && o.hrNotice.None?
            && o.decision == DecisionText(Reject, FeedbackText(env.feedbackModel([])))
  {
    ParseFailureDefaults(env.screener(ExtractText(pages), JobDescription), env.parse);
  }

  /** An incomplete form calls nothing: the outcome does not depend on the
      collaborators at all. */
  lemma IncompleteFormDoesNothing(config: Config, e1: Env, e2: Env, s: Submission)
    requires !FormComplete(s)
    ensures Submit(config, e1, s) == MissingFields && Submit(config, e2, s) == MissingFields
  {
  }

  /** Jane Doe, jane@example.com, a résumé scored 90: HR gets the résumé
      as "Jane Doe_Resume.pdf" and she gets the interview invitation. */
  lemma JaneDoeInterview(config: Config, env: Env, s: Submission, pages: seq<PageText>)
    requires s.name == "Jane Doe" && s.email == "jane@example.com"
    requires s.resume.Some? && s.resume.value != []
    requires env.readPages(s.resume.value) == Some(pages)
    requires Evaluate(env, pages).Some? && Evaluate(env, pages).value.score == 90.0
    requires IsValidEmail(config.hrEmail)
    ensures var o := Submit(config, env, s);
            && o.Screened? && o.branch == Interview
            && o.hrNotice.Some? && o.hrNotice.value.Attempted?
            && o.hrNotice.value.message.recipient == config.hrEmail
            && o.hrNotice.value.message.attachment
                 == Some(Attachment(s.resume.value, "Jane Doe_Resume.pdf"))
            && o.candidateNotice.Attempted?
            && o.candidateNotice.message.recipient == "jane@example.com"
            && o.candidateNotice.message.subject == "Interview Invitation"
  {
    JaneEmailValid(s.email);
    InterviewNotifiesHR(config, env, s, pages);
    JaneFileName(s.name);
  }

  lemma JaneFileName(n: string)
    requires n == "Jane Doe"
    ensures n + "_Resume.pdf" == "Jane Doe_Resume.pdf"
  {
    var joined := n + "_Resume.pdf";
    var whole := "Jane Doe_Resume.pdf";
    assert |joined| == |whole|;
    assert forall k :: 0 <= k < |whole| ==> joined[k] == whole[k];
  }

  lemma JaneEmailValid(e: string)
    requires e == "jane@example.com"
    ensures IsValidEmail(e)
  {
    assert e[4] == '@' && e[12] == '.';
    assert IsLocalPart(e[..4]) && IsDomainBody(e[5..12]) && IsTld(e[13..]);
    SplitIsValidAddress(e, 4, 12);
  }
}
