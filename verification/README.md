# HRMS interview chatbot: a Dafny model of the interview controller

`hrms_app.py` is a Streamlit hiring app. A candidate picks a job and applies.
Then a language model interviews them in a chat, and the transcript is analysed,
scored and posted to a backend. This project models the deterministic part of
that flow and proves properties of it:

- the session reset written when an application is accepted (`Interview.Apply`);
- the guarded opening message and the turn step of `interview_page`
  (`Interview.Start`, `Interview.Answer`, `Interview.Render`, `Interview.Run`).
  Each answer is followed by a follow-up question while the question index is
  below 4. Otherwise it is followed by the closing text, an analysis, and a
  result submission that happens only when a score is found;
- `extract_score`, a leftmost scan for `score out of 100: <digits>` or
  `Score: <digits>` (`ScoreExtraction`);
- the summary split `analysis.split("\n\n")[0]` (`SummarySplit`);
- the user-response filter of `analyze_responses` (`Transcript`);
- the `submit_interview` payload (`Interview.SubmissionFor`).

The language model is an oracle. Each render of the interview page is a `Pass`.
It holds the chat input of that render and two functions from a message list to
the model's reply: one for question requests (`ask`), one for analysis requests
(`analyze`). With this framing the proofs can show what each request is given.
A question request receives the whole transcript up to the latest answer. An
analysis request receives exactly the user answers. The opening is the `ask`
reply to the empty transcript, as on line 127. Network calls are not modelled.
A submission is recorded in the session's `submitted` list instead.

Files: `wrappers.dfy` (Option), `transcript.dfy`, `score.dfy`, `summary.dfy`,
`interview.dfy`.

The model follows the code as written. In particular:
- Nothing makes the session terminal after the fifth answer. The chat input is
  still read. A sixth answer takes the closing branch again: it appends a second
  closing text, analyses again, and can submit a second result
  (`Interview.SixthAnswerResubmits`).
- The question index reaches 5 after five answers, and keeps growing after that.
  When no model call fails, it equals the number of user messages. It does not
  stay at or below 4.
- Score matching is case-sensitive. It needs exactly one space after the colon.
  It is not tolerant of other spellings. "Score out of 100: 87" yields no score
  (`ScoreExtraction.ExampleWrongCase`).
- There is no 0..100 range check. "Score: 150" yields 150.
- The opening message is requested again on every render. Only the first one is
  appended.
- `if candidate_id:` uses Python truthiness, so a candidate id of 0 does not
  start an interview. Neither does a missing id.

## Model

| member | source | states |
|---|---|---|
| `ScoreExtraction.DigitRun` | hrms_app.py:95 | the greedy `\d+` group: the run of digits at a position is all digits, and it stops at a non-digit or at the end of the text |
| `ScoreExtraction.FindMatch` | hrms_app.py:96 | the position `re.search` tries first that matches: no position before it matches either alternative, and None means no position from there on matches |
| `ScoreExtraction.CapturedAt` | hrms_app.py:98 | `match.group(1) or match.group(2)` is a non-empty digit string |
| `ScoreExtraction.MatchOfLabel` | hrms_app.py:95-98 | a label followed by the digits ds, and then a non-digit or the end of the text, is a match there whose captured group is exactly ds: the maximal digit run right after the label |
| `ScoreExtraction.ExtractScoreSpec` | hrms_app.py:94-101 | None exactly when no position matches either alternative; otherwise the decimal value of the digits captured at the leftmost match |
| `ScoreExtraction.DecimalRoundTrip` | hrms_app.py:98 | `int()` of the decimal numeral of n is n |
| `ScoreExtraction.LabelRoundTrip` | hrms_app.py:95-98 | after text with no 's'/'S', either label followed by the numeral of n and then a non-digit or the end gives Some(n), for every n |
| `ScoreExtraction.NoLetterSNoScore` | hrms_app.py:96-101 | a text with no 's' or 'S' gives no score |
| `ScoreExtraction.MatchNeedsLetterS` | hrms_app.py:95 | no match starts at a character other than 's' or 'S' |
| `ScoreExtraction.ExampleLongLabel` | hrms_app.py:95-98 | "score out of 100: 87" gives 87 |
| `ScoreExtraction.ExampleShortLabel` | hrms_app.py:95-98 | "Score: 42" gives 42 |
| `ScoreExtraction.ExampleAboveHundred` | hrms_app.py:98 | "Score: 150" gives 150: no range check |
| `ScoreExtraction.ExampleNoScore` | hrms_app.py:99-101 | "no number here" gives None |
| `ScoreExtraction.ExampleWrongCase` | hrms_app.py:95-96 | matching is case-sensitive: "Score out of 100: 87" gives None |
| `ScoreExtraction.ExampleTwoSpaces` | hrms_app.py:95-96 | exactly one space: "Score:  42" gives None |
| `SummarySplit.FindSeparator` | hrms_app.py:161 | the first "\n\n" at or after a position: nothing before it is a separator, and None means there is no separator from there on |
| `SummarySplit.Summary` | hrms_app.py:161 | the summary is a prefix of the text, no separator starts inside it, and it is the whole text or is followed by "\n\n" |
| `SummarySplit.SummaryUnique` | hrms_app.py:161 | those three properties determine the summary: any prefix that has them is the summary |
| `SummarySplit.SummaryHasNoSeparator` | hrms_app.py:161 | the summary contains no "\n\n" |
| `SummarySplit.SummarySplitsText` | hrms_app.py:161 | the summary is the whole text exactly when the text has no "\n\n"; otherwise text == summary + "\n\n" + rest |
| `SummarySplit.SummaryIdempotent` | hrms_app.py:161 | splitting a summary again returns it unchanged |
| `SummarySplit.SummaryOfParagraphs` | hrms_app.py:161 | a paragraph without "\n\n" that does not end in a line feed, followed by "\n\n" and anything, is the summary |
| `SummarySplit.ExampleTwoParagraphs` | hrms_app.py:161 | "First part.\n\nSecond part." gives "First part." |
| `SummarySplit.ExampleOneParagraph` | hrms_app.py:161 | "Only one paragraph" gives itself |
| `Transcript.UserResponses` | hrms_app.py:83 | the filtered list has one entry per user message, and every entry has the user role |
| `Transcript.UserPositions` | hrms_app.py:83 | the positions of the user messages, strictly increasing, each one a user message, and every user message's position included |
| `Transcript.UserResponsesAreUserMessages` | hrms_app.py:83 | the k-th filtered response equals the message at the k-th user position: exactly the user messages, in order, content unchanged |
| `Transcript.UserResponsesAppend` | hrms_app.py:83 | the filter of a concatenation is the concatenation of the filters |
| `Interview.Apply` | hrms_app.py:64-76 | a session starts exactly when name and email are non-empty and the candidate service returned a truthy id; it is then reset (index 0, empty transcript, not started) and holds that job and candidate |
| `Interview.SubmissionFor` | hrms_app.py:168-174 | one payload exactly when a score is extracted, none otherwise; it carries candidate id, job id, the summary and the score, with similarity score 0 |
| `Interview.Start` | hrms_app.py:134-138 | the opening is appended only when the interview has not started; afterwards it is started and nothing else changed |
| `Interview.Answer` | hrms_app.py:141-174 | the index rises by exactly 1 in both branches; the answer is appended, then the question asked with the whole transcript while the index is below 4, else the closing text; only the closing branch records an outcome and adds the gated submission; nothing else changes |
| `Interview.Render` | hrms_app.py:126-174 | a render always leaves the interview started; it processes an answer exactly when the chat input is non-empty |
| `Interview.ApplyConsistent` | hrms_app.py:68-76 | the reset session satisfies the transcript invariant |
| `Interview.StartConsistent` | hrms_app.py:134-138 | the guarded opening preserves the invariant |
| `Interview.AnswerConsistent` | hrms_app.py:141-157 | an answer preserves the invariant: the index equals the number of user messages, the transcript is the opening plus one (answer, reply) pair per answer, replies from the fifth answer on are the closing text, there is an outcome exactly after a closing, and there is at most one submission per closing |
| `Interview.RenderConsistent` | hrms_app.py:126-174 | every render preserves the invariant |
| `Interview.RunConsistent` | hrms_app.py:134-174 | any sequence of renders preserves the invariant |
| `Interview.OpeningOnce` | hrms_app.py:134-138 | a second opening is ignored, and the opening adds no user message |
| `Interview.NoQuestionAfterLimit` | hrms_app.py:146-157 | from index 4 on, an answer does not depend on the question oracle: no question is requested |
| `Interview.NoAnalysisBeforeLimit` | hrms_app.py:146-151 | below index 4, an answer does not depend on the analysis oracle: nothing is analysed or submitted |
| `Interview.InterviewTranscript` | hrms_app.py:134-174 | after an opening render and n answers from a reset session: the index is n, the transcript is the opening followed by n (answer, reply) pairs with the answers in order, replies from the fifth answer on are the closing text, the analysis sees exactly the answers, and the submissions are one gated payload per answer from the fifth on |
| `Interview.InterviewQuestions` | hrms_app.py:146-151 | the replies to the first min(n, 4) answers are the questions the model gives for the whole transcript up to that answer, so at most four follow-up questions are ever asked |
| `Interview.FiveAnswers` | hrms_app.py:134-174 | five answers give 11 messages (5 user, 6 assistant), the fifth reply is the closing text, and the submissions are exactly the gated payload for the analysis of the five answers |
| `Interview.SixthAnswerResubmits` | hrms_app.py:152-174 | a sixth answer appends a second closing text, and the submissions are the gated payload of the fifth answer's analysis followed by that of the sixth: two results when both yield a score |
| `Interview.ExampleAnalysisSummary` | hrms_app.py:161 | "Great communicator.\n\nScore: 91" gives summary "Great communicator." |
| `Interview.ExampleAnalysisScore` | hrms_app.py:162 | "Great communicator.\n\nScore: 91" gives score 91 |
| `Interview.ApplicationToSubmission` | hrms_app.py:64-174 | Ada (id 7) applying for job 1, five answers and that analysis submit exactly one payload (7, 1, "Great communicator.", 0, 91) |

## Left out

- Streamlit rendering and widgets (`st.title`, `st.selectbox`, `st.text_input`, `st.button`, `st.chat_message`, `st.markdown`), `st.experimental_rerun` and the page routing in `main`: user-interface plumbing. The chat input of a render is an input of `Interview.Render`.
- `fetch_job_data` and the HTTP side of `submit_candidate` and `submit_interview`: network I/O. The id returned by `submit_candidate` is a parameter of `Interview.Apply`. A submission is recorded as a payload, and its HTTP success or failure is not modelled.
- The job selection dictionary in `display_jobs_and_form` (lines 53-58), where a later job with the same role name replaces an earlier one: the selected job is a parameter of `Interview.Apply`.
- `openai.ChatCompletion.create`, the model name, the API key and the token limits: opaque foreign calls. They are oracles (`Pass.ask`, `Pass.analyze`), and a failing call is not modelled.
- The `.strip()` applied to every model reply (lines 90 and 115): part of what the oracle returns.
- `generate_interview_prompt`: plain string formatting with no behaviour to verify.
- The error and success messages shown by `st.error` and `st.success`.
- ScoreExtraction.ExtractScoreSpec: digits are ASCII `0`-`9` only. Python's `\d` on a `str` also matches other Unicode decimal digits, and `int()` accepts them.
- ScoreExtraction.ExtractScoreSpec: CPython 3.11 (and the 3.8.14, 3.9.14 and 3.10.7 security releases) makes `int()` raise `ValueError` on a numeral longer than `sys.int_max_str_digits` (4300 by default). The exception would escape `interview_page` after the closing text is appended and the index is incremented, so no outcome is stored and nothing is submitted. The model returns the value of a numeral of any length. The 500-token cap on the analysis reply (line 88) keeps real replies far below that length.
- ScoreExtraction.DecimalRoundTrip: states that `int()` reads back the numeral of every n. Under the same 4300-digit limit, CPython raises instead for numerals longer than that.
- ScoreExtraction.LabelRoundTrip: holds for every n in the model. In CPython with the 4300-digit limit, `extract_score` raises instead of returning n when n has more than 4300 digits.
- Interview.Apply: ids are integers whose truthiness is "non-zero". A JSON id of another type (a string, say) is not modelled.
- Interview.Apply: the reset builds a fresh session. The source's `session_state.update` would leave `summary` and `interview_score` from an earlier interview in place, but nothing reads them.
