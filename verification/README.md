# Auto-apply engine for Dice job listings — a Dafny model

This project models the engine of a small tool that applies to Dice job
postings automatically (`apply_to_dice` in `main.py`), together with its
history view (`view_history`). One run of the engine does the following:

- Split the keyword string and the blacklist string into words.
- Refuse to start without a resume.
- Load the user's list of ids already applied to.
- Log in. A failed login is logged and the run carries on.
- Walk the search results from page 1. On each page:
  - Keep the cards whose id is not in the list and which do not carry the
    "applied" ribbon.
  - For each kept card, check its title against the keywords (all must
    occur) and the blacklist (none may occur). Both checks ignore case and
    match plain substrings.
  - Submit an application for a title that passes.
  - After every submission, write the user's list back to the history file.
    A successful submission has appended its id to the list first.
- The walk ends at the first page without cards. The log is then returned
  as its entries joined by line breaks; an entry's own text (a job title, an
  error message) may itself span several lines.

The browser is not modelled. A `Session.Browser` value supplies what the live
site would:

- whether the login form was found;
- the cards of each results page (a page past the end has no cards);
- the error text when a page has no cards;
- the answer to the n-th submission attempt: success, failure with an error
  text, or the daily-limit captcha.

The run is a pure function, `Session.ApplyToDice`. It returns the final state
(log, in-memory history, every history write, every attempt, whether the
browser is still open) and how the run ended:

- `NoResume`: no resume was supplied;
- `Exhausted(page)`: the first page without cards;
- `Crashed(...)`: an exception escaped the function.

`Session.Reply` gives the text returned to the caller. `Session.DurableHistory`
gives the history file as left after the run.

Two behaviours of the code are modelled as written, and differ from what a
reader might expect:

- **Daily limit.** Meeting the limit closes the browser and leaves only the
  per-job loop. The page loop then fetches the next page on the closed
  browser, which raises. So a run that meets the daily limit returns no text.
  Its history writes up to that point persist.
- **Missing title link.** A card without a title link raises during
  selection, because that lookup is not guarded.

The code has no rate limiter, no resume catalog and no per-session record,
and a failed login does not stop the run. The history is written after every
submission rather than once at the end.

Files:

- `wrappers.dfy`: `Option`.
- `text.dfy`: the string operations the engine relies on:
  - `str.split()` over Python's whitespace;
  - ASCII lowercasing;
  - substring search;
  - `"\n".join` and its inverse split;
  - decimal rendering of counts.
- `filter.dfy`: the title filter.
- `cards.dfy`: candidate selection on one page.
- `history.dfy`: the history lookup and `view_history`.
- `session.dfy`: the run itself.
- `session_facts.dfy`: the run's invariants, proved job by job and page by
  page.
- `log_facts.dfy`: what the log says about each candidate.
- `run_properties.dfy`: the statements about a whole run.

## Model

| member | source | states |
|---|---|---|
| Text.Tokenise | main.py:34 | every token of `split()` is a non-empty string with no whitespace |
| Text.TokeniseWord | main.py:34 | a single word (non-empty, no whitespace) splits to itself |
| Text.TokeniseSplitsAtSpace | main.py:34-35 | every whitespace character separates: splitting `a`, one whitespace character, `b` gives the words of `a` followed by the words of `b`; with the two rows above this fixes `split()` on every string |
| Text.TokeniseTabScenario | main.py:34 | "python", a tab, "engineer" splits into the two words "python" and "engineer" |
| Text.TokeniseKeepsNonSpace | main.py:34-35 | splitting loses exactly the whitespace: the tokens concatenate to the non-space characters of the input |
| Text.TokeniseEmptyIffBlank | main.py:34-35 | the word list is empty iff the input is empty or all whitespace |
| Text.TokeniseJoinRoundTrip | main.py:34 | splitting words joined by single spaces gives the same words back |
| Text.ContainsIsSubstring | main.py:96-99 | the executable `in` test on strings holds iff the needle occurs at some offset of the haystack |
| Text.SplitOn | main.py:146 | splitting on a character gives at least one piece, and no piece contains that character |
| Text.SplitJoinRoundTrip | main.py:146 | joining newline-free lines with newlines and splitting again gives the lines back |
| Text.SplitOnAppend | main.py:146 | a separator splits: the pieces of `a`, `c`, `b` are the pieces of `a` followed by the pieces of `b` |
| Text.SplitJoinAll | main.py:146 | splitting any non-empty list of strings joined by `c` gives the pieces of each string in turn, whatever the strings contain |
| Text.SplitAllPlain | main.py:146 | when no string contains `c`, the pieces are the strings themselves |
| Text.JoinSplitRoundTrip | main.py:155 | joining the pieces of a split with the separator restores the text |
| Text.NatToString | main.py:155 | a count renders as a non-empty string of decimal digits, with no leading zero except for 0 |
| Text.NatToStringRoundTrip | main.py:155 | reading back the rendered count gives the count |
| TitleFilter.MentionsMeaning | main.py:96 | `kw.lower() in title.lower()` holds iff the lowercased word occurs in the lowercased title |
| TitleFilter.MentionsAllMeaning | main.py:96 | the keyword test holds iff every keyword occurs in the title, ignoring case |
| TitleFilter.MentionsAnyMeaning | main.py:99 | the blacklist test holds iff some blacklisted word occurs in the title, ignoring case |
| TitleFilter.CheckMeaning | main.py:96-101 | a title is accepted iff all keywords occur and no blacklisted word does; "missing keywords" iff some keyword is absent, whatever the blacklist; "blacklisted" iff all keywords occur and some blacklisted word does |
| TitleFilter.EmptyKeywordsPass | main.py:96-101 | with no keywords the keyword check never rejects, and only the blacklist decides |
| TitleFilter.CheckIgnoresCase | main.py:96-99 | titles that lowercase alike get the same verdict |
| TitleFilter.BlacklistedScenario | main.py:96-101 | "Senior Python Engineer" with keywords "python engineer" and blacklist "senior" is skipped as blacklisted |
| TitleFilter.MissingKeywordScenario | main.py:96-98 | "Junior Python Developer" with keywords "python engineer" is skipped for a missing keyword |
| Cards.Select | main.py:80-92 | selection fails iff some card has no title link; otherwise no selected id is in the history |
| Cards.SelectIsOrderedFilter | main.py:80-92 | the candidates are exactly the cards with an id outside the history and no "applied" ribbon, in page order, each taken as (id, link text, href) |
| Cards.SelectedJobFromCard | main.py:81-92 | every candidate is the job of one such card of the page |
| Cards.SelectKeepsDistinct | main.py:80-92 | a page whose cards have distinct ids yields candidates with distinct ids |
| History.ViewHistory | main.py:149-155 | the fixed "no history" message is returned iff the user has no ids |
| History.ViewHistoryLines | main.py:149-155 | when the user has ids and no id contains a line break, the view reads back line by line as the count line followed by the ids in order, and the count read back is the number of ids |
| SessionFacts.RejectedJobLeavesNoTrace | main.py:94-101 | a job whose title fails the filter causes no attempt and no write, and only adds "Processing" and the skip line whose reason matches which test failed |
| SessionFacts.SubmissionStep | main.py:127-143 | after a submission that is not cut short, with the id appended on success only and the list then written, the bookkeeping invariant still holds: the list is the loaded list plus the applied ids, and the k-th write is the list after the k-th attempt |
| SessionFacts.DailyLimitStep | main.py:121-125 | after the daily limit is met, with the attempt recorded, the stop logged, the browser closed and nothing written, the bookkeeping invariant still holds, with that attempt as the only one without a write |
| LogFacts.SubmittedJobLog | main.py:94-143 | a candidate whose title passes is submitted once with the site's answer for that attempt and adds exactly "Processing" and one more line: "applied" iff the answer was success, "failed" with the site's error text iff it was a failure, the daily-limit line iff the limit was met; a success appends the id, every answer but the limit is followed by a write, and the limit closes the browser |
| LogFacts.ProcessJobsLog | main.py:94-138 | the log a page adds is, job by job, "Processing" followed by the skip reason or by the line of the recorded attempt's answer, ending after the daily limit |
| LogFacts.CrawlKeepsLogged | main.py:69-143 | from any page on, every attempt's "Processing" line stays directly followed by the line of its answer |
| LogFacts.CrawlLog | main.py:69-143 | a page loop that ends at an empty page logs exactly, page after page, each page's candidates as `PageLog` gives them (candidates selected against the history as it stood when the page was reached, with the attempts made on that page), and then the "no jobs found" line for the empty page |
| SessionFacts.ProcessJobsFacts | main.py:94-143 | the per-job loop keeps the bookkeeping invariant, only appends to attempts and log, and attempts only candidates of its page whose title passed, with the site's answer for that attempt number; the lines it logs are stated by the LogFacts rows |
| SessionFacts.ProcessJobsAttemptsAccepted | main.py:94-125 | the loop's attempts are a prefix of the page's accepted candidates in order, and all of them unless the daily limit was met |
| SessionFacts.AcceptedKeepsDistinct | main.py:94-101 | filtering candidates with distinct ids leaves distinct ids |
| SessionFacts.NewAttemptsFromPage | main.py:80-92 | attempts for a page's candidates are for cards of that page, outside the history they were selected against |
| SessionFacts.PageStep | main.py:80-143 | one page's processing keeps attempts in page order, never resubmits, and leaves a state ready for the next page |
| SessionFacts.CrawlStops | main.py:69-82 | where the page loop stops (closed browser, page without cards, card without a link) the run's invariants hold |
| SessionFacts.CrawlKeepsFacts | main.py:69-143 | the page loop keeps every invariant of the run, from the current page to wherever it ends |
| SessionFacts.CrawlKeepsPagesDistinct | main.py:80-136 | when each page has distinct ids, no two attempts on one page share an id |
| SessionFacts.PageInRun | main.py:80-125 | in the final attempts, a processed page's attempts are a prefix of its accepted candidates, selected against the history as it stood when the page was reached, and all of them if the browser is still open |
| SessionFacts.CrawlKeepsComplete | main.py:69-143 | from the current page on, every page before the one the loop stopped at is processed to the end, and the page where the daily limit was met is processed up to that point |
| SessionFacts.AppliedIdsFresh | main.py:84-136 | the ids a run appends are new to the loaded history and, when no two attempts on one page share an id, pairwise distinct |
| RunProperties.RunFacts | main.py:33-146 | with a resume, the run is the page loop from page 1 after the login line, and every invariant holds of its result |
| RunProperties.MissingResumeStopsRun | main.py:39-40 | the run ends with the resume error iff no resume is supplied, with no attempt, no write and the history file unchanged |
| RunProperties.HistoryAppendOnly | main.py:136 | the user's list only grows: it ends as the loaded list followed by the ids of the successful submissions, in order |
| RunProperties.WritesFollowSubmissions | main.py:140-143 | the k-th write holds the list after the k-th attempt; writes only grow; there is one write per attempt except the attempt that met the daily limit |
| RunProperties.OnlyFilteredCandidatesSubmitted | main.py:80-103 | every attempt is for a card of its page with that link and no "applied" ribbon, whose id is not in the loaded history and whose title passed the filter |
| RunProperties.NoResubmissionAcrossPages | main.py:84-136 | no id in the loaded history is attempted; no id applied to on one page is attempted on a later page; pages are visited in increasing order |
| RunProperties.AcceptedCandidatesSubmitted | main.py:69-143 | every accepted candidate is submitted: on each page before the one where the run stopped, the attempts are exactly the page's candidates that pass the filter, in order, selected against the loaded history plus the ids applied to on earlier pages; on the page where the daily limit was met they are a prefix of them |
| RunProperties.EveryAttemptLogged | main.py:95-146 | every submission of a run carries the site's answer for its attempt number and is reported in the log: its "Processing" line is directly followed by "applied", "failed" with the error text, or the daily-limit line, according to that answer |
| RunProperties.ReturnedLogIsWhole | main.py:61-146 | the log starts with "logged in" iff the login form was found, and with the login error otherwise; a run that returns its text logged nothing but that line, each page's candidates in order ("Processing" and then the skip reason or the site's answer), and the "no jobs found" line for the first empty page |
| RunProperties.HistoryStaysDuplicateFree | main.py:84-136 | when every page lists each id at most once, a duplicate-free history stays duplicate-free |
| RunProperties.DailyLimitEndsRun | main.py:121-125 | the daily limit is met at most once, by the last attempt, which gets no write and is the last log line; the run then fails on the next page fetch with no text returned, and fails that way only after the daily limit |
| RunProperties.RunEndsAtEmptyPage | main.py:69-82 | the log is returned only after a page without cards, every earlier page having cards, and the last line names that page; a run that fails on a missing title link had such a card on that page |
| RunProperties.DurableHistoryMatchesRun | main.py:140-143 | the history file after the run holds the in-memory list for this user, and every other user's entry as loaded |
| RunProperties.ReplyLinesAreLog | main.py:146 | splitting the returned text on newlines gives each rendered log entry's own lines in turn (an error text may hold line breaks); when no entry holds one, the lines are exactly the rendered entries |

## Left out

- Selenium is replaced by the `Browser` value: the login form, waits and timeouts, navigation, the shadow-DOM click, the resume upload field and the captcha flag. Each job's submission is reduced to its outcome.
- A failure of `driver.get(job_url)` (main.py:103, outside the `try`) would end the run with an exception. The model folds it into the submission outcome.
- A title link without an `id` attribute (Python `None`) is not distinguished from an id string.
- The URL building (main.py:50, 70) is not modelled. The keyword text is pasted verbatim into the template that main.py:70 then fills with the page number by `%` formatting. A `%` in the keywords that is not part of a `%%` therefore makes that formatting raise on page 1, after the login line and outside any `try`. "100%" raises because of an unsupported format character; "100% remote" consumes the page number early, so the later `page=%s` has no argument. The run then returns no text and never closes the browser. The model does not produce that crash: `Session.ApplyToDice` walks the pages for such keywords as for any others. Python's `%`-formatting rules are not modelled.
- The resume is a flag: copying it into the `resumes` folder is file I/O and is left out.
- JSON loading and saving of the history file is reduced to a map; a missing or unreadable file is not modelled.
- The module-level setup (main.py:16-30: `.env` defaults, creating the resumes folder and an empty history file) and the Gradio interface (main.py:158 on) are left out.
- Text.LowerChar: lowercases ASCII letters only, not the full Unicode mapping of Python's `str.lower`.
- The text of an exception that escapes the run is not modelled. `Session.Reply` gives `None` for such a run.
- The results are a finite list of pages. The live site could in principle keep returning cards forever, and the model does not cover such a run.
- The login and per-job error texts are opaque strings supplied by the `Browser` value.
- SessionFacts.AppliedIdsFresh: distinctness of the appended ids is stated only when no two attempts on one page share an id, for the reason given in the next line.
- RunProperties.HistoryStaysDuplicateFree: assumes each page lists an id at most once. Candidates are selected against the history as it was before the page was processed, so two cards with the same id on one page are both submitted.
