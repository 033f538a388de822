# Résumé screener — a Dafny model of its decision and string logic

The screener is a single Streamlit script (`main.py`). A candidate submits a
name, an email address and a PDF résumé. The script extracts the résumé's
text, asks a language model to score it against a fixed job description,
picks interview / future shortlist / rejection from the score, and emails the
candidate. HR is emailed too, with the résumé attached, when the candidate
gets an interview.

This project models the deterministic logic inside that glue as pure Dafny
functions. Every foreign call is a parameter: pdfplumber's page texts, the
screening chain's reply, `json.loads`, the feedback model call and the SMTP
session. The modules follow the script's parts:

- `Strings` (`strings.dfy`): the Python `str` operations used. These are
  `replace(p, "")` (`RemoveAll`), `strip` (`Trim`) and `join` (`Join`).
  The script never calls `split`; `Strings.Split` is there only as the
  inverse of `Join`, so that a lemma can state that the page join loses
  nothing.
- `Extractor` (`extractor.dfy`): `extract_text_from_pdf`, the newline-join of
  the pages that have text.
- `Evaluator` (`evaluator.dfy`): `calculate_similarity`, which cleans the
  code fences out of the reply and falls back to score 0 when the reply does
  not decode. It also covers how the handler reads `score` and
  `missing_skills`.
- `EmailSyntax` (`email_syntax.dfy`): `is_valid_email`. `IsValidEmail` is a
  decision procedure. `MatchesPattern` says the address can be cut into local
  part, `@`, domain body, `.` and TLD. A lemma proves the two agree.
- `Notifier` (`notifier.dfy`): `send_email`'s guard and attachment rule, and
  `notify_hr`.
- `Decision` (`decision.dfy`): the score ladder, subjects, messages and
  feedback selection.
- `Screening` (`screening.dfy`): the submit handler, as one function from a
  submission to the outcome it renders.

Scores are `real`, because the model may answer with an integer or a float.
The ladder is followed exactly as written. `50 <= score <= 79` is the middle
branch, so a score of exactly 80, or any score strictly between 79 and 80, is
**rejected**. A reader might expect 80 to be shortlisted, since it sits
between the two thresholds; the code rejects it, and the model follows the
code (`Decision.Decide`, `Decision.IntegerScores`). Likewise the reply
cleaning does not only strip a leading `json` fence and a trailing fence:
it removes every occurrence of both, and the model does the same.

## Model

| member | source | states |
|---|---|---|
| Strings.RemoveAll | main.py:55 | `replace(p, "")` never lengthens the string, and an empty pattern leaves it unchanged |
| Strings.RemoveAllDropsOnly | main.py:55 | `replace(p, "")` only drops characters: no character occurs in the result more often than in the input |
| Strings.RemoveAllAbsent | main.py:55 | `replace(p, "")` leaves a string in which `p` does not occur unchanged |
| Strings.RemoveFenceLeavesNone | main.py:55 | after removing every ```` ``` ```` left to right, no ```` ``` ```` remains in the result |
| Strings.TrimLeft | main.py:55 | leading-whitespace removal keeps a suffix; everything it dropped is whitespace and the result does not start with whitespace |
| Strings.TrimRight | main.py:55 | trailing-whitespace removal keeps a prefix; everything it dropped is whitespace and the result does not end with whitespace |
| Strings.Trim | main.py:55 | `strip()` gives a string with no whitespace at either end |
| Strings.TrimIsSlice | main.py:55 | `strip()` keeps a contiguous slice of the input and drops only whitespace around it |
| Strings.TrimIdempotent | main.py:55 | stripping twice is stripping once |
| Strings.Join | main.py:30 | `sep.join(xs)` of no pieces is empty; otherwise its length is the pieces' total length plus one separator between each two neighbours |
| Strings.JoinSnoc | main.py:30 | joining one more piece adds the separator only when a piece came before it |
| Strings.SplitJoin | main.py:30 | splitting a join at the separator gives back the pieces when none of them holds the separator |
| Extractor.PageTexts | main.py:30 | the filtered list has only non-empty texts and is no longer than the page list |
| Extractor.PageTextsAppend | main.py:30 | the filter keeps page order: the texts of `a + b` are those of `a` then those of `b` |
| Extractor.PageTextsMembers | main.py:30 | a text is kept exactly when it is non-empty and some page yields it |
| Extractor.EmptyPageIgnored | main.py:30 | a page with no text (None or "") adds neither text nor a newline, wherever it sits |
| Extractor.AppendPage | main.py:30 | a page with text is appended after a newline, or stands alone when no earlier page had text |
| Extractor.ExtractText | main.py:28-31 | the extracted text is empty exactly when no page has text |
| Extractor.SplitRecoversPages | main.py:28-31 | when no page text holds a newline, splitting the result at newlines gives the non-empty page texts in page order |
| Extractor.HelloAndBlankPage | main.py:28-31 | one page "Hello" and one page without text give exactly "Hello" |
| Evaluator.ResponseText | main.py:54 | the chain's `"text"` field, or `"{}"` when it is absent |
| Evaluator.CleanResponse | main.py:55 | the cleaned reply has no whitespace at either end |
| Evaluator.CleanLeavesNoFence | main.py:55 | the cleaned reply contains no ```` ``` ```` |
| Evaluator.CleanFenceFree | main.py:55 | a reply without fences is only stripped |
| Evaluator.CleanIdempotent | main.py:55 | cleaning a cleaned reply changes nothing |
| Evaluator.CleanFencedBlock | main.py:55 | a reply that is one `json`-fenced block, with the body on its own lines, cleans to exactly the body |
| Evaluator.CleanFencedExample | main.py:55 | the fenced reply holding `{"score": 85, "missing_skills": []}` cleans to that JSON object |
| Evaluator.CalculateSimilarity | main.py:52-59 | the parser's value for the cleaned reply text, or `{score: 0, missing_skills: []}` when decoding fails |
| Evaluator.ReadScreening | main.py:143-144 | an absent `score` reads as 0 and an absent `missing_skills` as empty; a non-object reply has no reading, because `.get` raises |
| Evaluator.ParseFailureDefaults | main.py:56-59 | an undecodable reply never raises and reads as score 0 with no missing skills, whatever the chain said |
| Evaluator.MissingTextReadsAsEmptyObject | main.py:54-59 | a chain response without `"text"` is parsed as `{}`, so it reads as score 0 with no missing skills |
| EmailSyntax.IsValidEmail | main.py:62-63 | `re.match` succeeds exactly when the pattern matches the whole address, or the whole address but one final newline |
| EmailSyntax.MatchesPattern | main.py:63 | a match cuts the address into local part, `@`, domain body, `.` and TLD, so it has at least six characters |
| EmailSyntax.ValidAddress | main.py:63 | an address accepted up to its end holds exactly one `@`, the first one |
| EmailSyntax.ValidHost | main.py:63 | the text after the `@` of an accepted address holds no `@` |
| EmailSyntax.FirstIndex | main.py:63 | the first position of a character, or None exactly when it does not occur |
| EmailSyntax.LastIndex | main.py:63 | the last position of a character, or None exactly when it does not occur |
| EmailSyntax.ValidAddressIffMatches | main.py:63 | the decision procedure holds exactly when the address cuts into local part, `@`, domain body, `.`, TLD of 2+ ASCII letters |
| EmailSyntax.ValidEmailParts | main.py:63 | every accepted address is `L + "@" + D + "." + T`, optionally followed by the one newline `$` tolerates, with `L` and `D` non-empty over `[\w.-]`, no `@` in `L`, and `T` of 2+ letters |
| EmailSyntax.PartsAreValidEmail | main.py:63 | every `L + "@" + D + "." + T` built from such parts is accepted |
| EmailSyntax.TwoAtSignsInvalid | main.py:63 | an address holding two `@` is rejected |
| EmailSyntax.OnlyAtSign | main.py:63 | in a match, the `@` that separates the parts is the only one |
| EmailSyntax.ValidExamples | main.py:63 | "a@b.co" is accepted, and so is "a@b.co" with a trailing newline |
| EmailSyntax.NoTldExample | main.py:63 | "a@b" is rejected |
| EmailSyntax.NoAtSignExample | main.py:63 | "not-an-email" is rejected |
| EmailSyntax.ShortTldExample | main.py:63 | "a@b.c" is rejected, because its TLD has one letter |
| Notifier.SendEmail | main.py:65-86 | an invalid address is refused with no message built; otherwise the message has the sender, recipient, subject and body given, and carries an attachment iff both the bytes and the name are non-empty; the call returns true iff the address is valid and the server accepted the message |
| Notifier.InvalidAddressNeverSent | main.py:66-68 | for an invalid address the result is the same whatever the server would do, and the call returns false |
| Notifier.ResumeFileName | main.py:93 | the attachment name is the candidate's name followed by `_Resume.pdf` |
| Notifier.HrSubject | main.py:90 | the HR subject names the candidate |
| Notifier.HrBody | main.py:91 | the HR body names the candidate |
| Notifier.NotifyHR | main.py:89-94 | the HR notice goes from the configured sender to the configured HR address with the HR subject and body; it carries the résumé as `<name>_Resume.pdf` exactly when the résumé has bytes; it is refused iff the HR address is invalid, and otherwise reports success exactly when the server accepted it |
| Decision.Decide | main.py:151-160 | Interview iff score > 80; FutureShortlist iff 50 <= score <= 79; Reject iff score < 50 or 79 < score <= 80 |
| Decision.DecideBoundaries | main.py:151-158 | 80 and 79.5 are rejected; 80.5 and 81 get an interview; 50 and 79 are shortlisted; 49.9 and 0 are rejected |
| Decision.DecideNotMonotone | main.py:151-160 | a higher score can get a worse outcome (79 is shortlisted, 80 rejected) |
| Decision.IntegerScores | main.py:151-160 | for whole-number scores, shortlist iff 50 <= n < 80 and reject iff n < 50 or n == 80 |
| Decision.Subject | main.py:153-160 | each branch has a subject, and its first letter tells the branch: I, S or R |
| Decision.BaseMessage | main.py:152-159 | each branch's message ends in a full stop and opens with its own emoji: party popper, check mark or cross mark |
| Decision.MessagesDistinct | main.py:152-159 | the three branches have three different messages |
| Decision.LadderSubjects | main.py:151-160 | a score above 80 gets "Interview Invitation", 50 to 79 "Shortlist Notification", and every other score "Rejection Email" |
| Decision.SubjectsDistinct | main.py:153-160 | the three branches have three different subjects |
| Decision.FeedbackText | main.py:165 | a plain-string reply is the feedback itself; a dictionary reply gives its `"text"` field, or "No feedback available." when it has none |
| Decision.DecisionText | main.py:151-166 | interview and shortlist texts are the bare message whatever the feedback; a rejection is the message, then the AI-feedback header, then exactly the feedback |
| Decision.RejectionKeepsFeedback | main.py:166 | two rejection texts are equal only when their feedback is equal |
| Screening.FormComplete | main.py:138 | the gate: the name and the email are non-empty and a file was uploaded |
| Screening.Evaluate | main.py:140-144 | an undecodable reply reads as score 0 with no missing skills; a reply that decodes to a non-object has no reading; an object reply reads as its own `score` and `missing_skills`, with 0 and no skills for absent keys |
| Screening.Submit | main.py:137-177 | nothing is attempted iff name, email or file is missing; a complete form whose upload is not a PDF fails with `NotAPdf` and with nothing else; a non-object reply fails with `ReplyNotObject`; otherwise the outcome is screened with exactly the read score and skills, the branch is the ladder's, the HR notice is `notify_hr` on the candidate's name and résumé exactly on Interview and absent otherwise, feedback is requested iff Reject, the decision text is the branch's message plus, on Reject only, the feedback model's answer for the missing skills, and the candidate's email follows `send_email`'s guard: from the configured sender, with the branch's subject and the decision text as body, reported sent exactly when the server accepted it |
| Screening.Conclude | main.py:151-175 | once a screening result exists: the branch is the ladder's, the HR notice is `notify_hr` exactly on Interview, feedback is requested exactly on Reject, the decision text carries the feedback model's answer for the missing skills exactly on Reject, and the candidate's email goes from the configured sender to the candidate with that branch's subject, reported sent exactly when the server accepted it |
| Screening.InterviewNotifiesHR | main.py:151-154 | a score above 80 notifies HR with the résumé, asks for no feedback and sends the bare congratulation |
| Screening.UndecodableReplyRejects | main.py:142-166 | an undecodable model reply ends as score 0, a rejection, a feedback request on no missing skills, and no HR notice |
| Screening.IncompleteFormDoesNothing | main.py:138 | an incomplete form gives the warning whatever the collaborators would do |
| Screening.JaneDoeInterview | main.py:137-172 | "Jane Doe", jane@example.com and score 90: HR receives the résumé as "Jane Doe_Resume.pdf" at the HR address, and the candidate is sent "Interview Invitation" |

## Left out

- Streamlit calls (`st.*`, the CSS, the score and skill display): presentation only. The handler's outcome is returned as a value instead.
- Screening.Submit: `st.progress(int(match_score))` raises before the decision is reached when the score, truncated toward zero, lies outside 0..100 (at or below -1, at or above 101). This is not modelled: the ladder runs for every score. A score such as 100.5 or -0.5 passes the call and reaches the ladder in the script too.
- pdfplumber: the page texts are an input (`Env.readPages`). An upload that cannot be opened becomes `Failed(NotAPdf)`. `extract_text()` is called twice per page and is taken as giving the same answer both times.
- The language model calls (`LLMChain.invoke`, `llm.invoke`) and the prompt templates: these are remote services. The chain is given the extracted text and the job description. The feedback call is given the missing skills; the wording of its prompt, including Python's list formatting, is not modelled.
- `json.loads`: the parser is a parameter (`JsonParser`), and its value is reduced to the `score` and `missing_skills` keys. A non-object value is `NotObject`, on which the handler's `.get` raises (`Failed(ReplyNotObject)`).
- Evaluator.ReadScreening: a `score` that is not a number, or a `missing_skills` that is not a list of strings, cannot be represented, because the reply type only holds numbers and string lists. In the script such a score meets `int(match_score)` first (main.py:147). A null, a list, an object or a non-numeric string raises there. A numeral string such as `"85"` passes `int()` and raises at the comparison (main.py:151). A boolean raises nothing, and the candidate is rejected, since `int(True)` is 1 and `True` compares as 1.
- Decision.FeedbackText: dictionary replies are taken to hold string values. The f-string's `str()` of other values is not modelled.
- SMTP login and sending, and MIME building beyond the attachment rule: these are network I/O. The server's verdict is the `Transport` parameter. The error printing is left out.
- `load_dotenv` / `os.getenv`: the sender and HR addresses are the `Config` value. A missing `HR_EMAIL` (`None`, which makes `re.match` raise) is not modelled.
- EmailSyntax.IsWordChar: `\w` is modelled as ASCII letters, digits and `_`. Python also counts non-ASCII letters and digits.
- The form gate: an uploaded file counts as present even when it has no bytes, as Python's truthiness of the upload object does. An empty résumé then simply gets no HR attachment.
