/** The notifier: `send_email` (main.py:65-86) and `notify_hr`
    (main.py:89-94).  Only the decision logic is modelled: the message that
    would be handed to the mail server, or none when the address is
    refused.  The SMTP session is a parameter that says whether the server
    accepted a given message. */
module Notifier {
  import opened Base
  import opened EmailSyntax
  import opened Strings

  /** Process configuration read at start-up (`EMAIL_USER`, `HR_EMAIL`). */
  datatype Config = Config(emailUser: string, hrEmail: string)

  /** A PDF attachment (`maintype='application', subtype='pdf'`). */
  datatype Attachment = Attachment(data: seq<Byte>, filename: string)

  datatype EmailMessage = EmailMessage(
    sender: string,
    recipient: string,
    subject: string,
    body: string,
    attachment: Option<Attachment>)

  /** Logging in to the server and sending one message: true when it went
      through, false when any exception was raised. */
  type Transport = EmailMessage -> bool

  /** What one call of `send_email` did: refused the address before any
      message or connection existed, or built a message and tried to send
      it. */
  datatype Delivery =
    | InvalidAddress
    | Attempted(message: EmailMessage, delivered: bool)
  {
    /** The value `send_email` returns. */
    predicate Succeeded() {
      Attempted? && delivered
    }
  }

  /** Python truthiness of the optional attachment arguments: `None` and the
      empty value are false. */
  predicate PresentBytes(b: Option<seq<Byte>>) { b.Some? && b.value != [] }
  predicate PresentName(n: Option<string>) { n.Some? && n.value != [] }

  /** `send_email(to, subject, body, attachment, attachment_name)`. */
  function SendEmail(config: Config, to: string, subject: string, body: string,
                     attachment: Option<seq<Byte>>, attachmentName: Option<string>,
                     transport: Transport): (d: Delivery)
    ensures d.InvalidAddress? <==> !IsValidEmail(to)
    ensures d.Attempted? ==>
              && d.message.sender == config.emailUser
              && d.message.recipient == to
              && d.message.subject == subject
              && d.message.body == body
    ensures d.Attempted? ==>
              (d.message.attachment.Some? <==> PresentBytes(attachment) && PresentName(attachmentName))
    ensures d.Attempted? && d.message.attachment.Some? ==>
              d.message.attachment.value == Attachment(attachment.value, attachmentName.value)
    ensures d.Succeeded() <==> IsValidEmail(to) && transport(d.message)
  {
    if !IsValidEmail(to) then InvalidAddress
    else
      var attached :=
        if PresentBytes(attachment) && PresentName(attachmentName)
        then Some(Attachment(attachment.value, attachmentName.value))
        else None;
      var message := EmailMessage(config.emailUser, to, subject, body, attached);
      Attempted(message, transport(message))
  }

  /** An address that fails validation is refused whatever the server would
      have done: no message is built and the call returns false. */
  lemma InvalidAddressNeverSent(config: Config, to: string, subject: string, body: string,
                                attachment: Option<seq<Byte>>, attachmentName: Option<string>,
                                t1: Transport, t2: Transport)
    requires !IsValidEmail(to)
    ensures SendEmail(config, to, subject, body, attachment, attachmentName, t1) == InvalidAddress
    ensures SendEmail(config, to, subject, body, attachment, attachmentName, t1)
              == SendEmail(config, to, subject, body, attachment, attachmentName, t2)
    ensures !SendEmail(config, to, subject, body, attachment, attachmentName, t1).Succeeded()
  {
  }

  /** The HR subject: a party emoji, the name, then "shortlisted for
      Interview".  It names the candidate. */
  function HrSubject(candidateName: string): (r: string)
    ensures Contains(r, candidateName)
  {
    ContainsMiddle("\U{1F389} ", candidateName, " shortlisted for Interview");
    "\U{1F389} " + candidateName + " shortlisted for Interview"
  }

  /** The HR body, naming the candidate and asking HR to review the
      application. */
  function HrBody(candidateName: string): (r: string)
    ensures Contains(r, candidateName)
  {
    ContainsMiddle("The candidate ", candidateName,
                   " has been shortlisted for an interview. Please review their application.");
    "The candidate " + candidateName
      + " has been shortlisted for an interview. Please review their application."
  }

  /** The file name the résumé is attached under: the name, then `_Resume.pdf`. */
  function ResumeFileName(candidateName: string): (n: string)
    ensures |n| == |candidateName| + |"_Resume.pdf"|
    ensures n[..|candidateName|] == candidateName
    ensures n[|candidateName|..] == "_Resume.pdf"
  {
    candidateName + "_Resume.pdf"
  }

  /** The HR notice, sent to the configured HR address with the HR subject
      and body: it carries the résumé under "{candidate_name}_Resume.pdf"
      exactly when the résumé has at least one byte, it is refused
      exactly when the HR address is not valid, and otherwise it counts as
      sent exactly when the server accepts it. */
  function NotifyHR(config: Config, candidateName: string, resume: seq<Byte>,
                    transport: Transport): (d: Delivery)
    ensures d.InvalidAddress? <==> !IsValidEmail(config.hrEmail)
    ensures d.Attempted? ==>
              && d.message.sender == config.emailUser
              && d.message.recipient == config.hrEmail
              && d.message.subject == HrSubject(candidateName)
              && d.message.body == HrBody(candidateName)
              && d.message.attachment ==
                   (if resume == [] then None
                    else Some(Attachment(resume, candidateName + "_Resume.pdf")))
              && (d.Succeeded() <==> transport(d.message))
  {
    SendEmail(config, config.hrEmail, HrSubject(candidateName), HrBody(candidateName),
              Some(resume), Some(ResumeFileName(candidateName)), transport)
  }
}
