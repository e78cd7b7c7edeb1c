/**
 One run of the application engine (`apply_to_dice`), with the browser
 replaced by a `Browser` value that supplies what the live site would: the
 login result, the cards of each results page, and the outcome of each
 submission attempt, in order.

 The run tokenises the keyword and blacklist strings, checks that a resume
 was supplied, loads the user's history, and then walks the results pages
 from page 1. On each page it selects the candidate cards, then for each
 candidate applies the title filter and, if the title passes, submits an
 application. A successful submission appends the job id to the history;
 every submission that is not cut short by the daily limit is followed by a
 history write. The daily limit closes the browser and abandons the rest of
 the page; the next page fetch then fails on the closed browser. The walk
 ends normally at the first page with no cards.
 */
module Session {
  import opened Wrappers
  import opened Text
  import opened TitleFilter
  import opened Cards
  import opened History

  /** What one submission attempt came to. */
  datatype Outcome = Applied | Failed(error: string) | DailyLimit

  /** A submission attempt: the job, the results page it was on (from 1), and its outcome. */
  datatype Attempt = Attempt(job: Job, page: nat, outcome: Outcome)

  /** One line of the returned log. */
  datatype LogEntry =
    | LoggedIn
    | LoginFailed(error: string)
    | NoJobsOnPage(page: nat, error: string)
    | Processing(title: string)
    | SkippedMissingKeywords
    | SkippedBlacklisted
    | DailyLimitReached
    | AppliedTo(title: string)
    | FailedTo(title: string, error: string)

  /** Why a run ended with an exception instead of returning its log. */
  datatype Crash =
    | MissingTitleLink(page: nat)   // a card on this page has no title link
    | DriverClosed(page: nat)       // fetching this page after the daily limit closed the browser

  datatype Ending = NoResume | Exhausted(page: nat) | Crashed(crash: Crash)

  /**
   What the live site supplies: the login error (None when the login form was
   filled in), the cards of pages 1, 2, ... (a page past the end has no cards),
   the error text of the wait that finds no cards, and the outcome of the n-th
   submission attempt of the run.
   */
  datatype Browser = Browser(login: Option<string>, pages: seq<seq<Card>>, noCardsError: string, submit: nat -> Outcome)

  /**
   The run's state: the user's in-memory history, the log so far, the user's
   list as written by each history write, the submission attempts so far, and
   whether the browser is still open.
   */
  datatype State = State(user: seq<string>, log: seq<LogEntry>, writes: seq<seq<string>>, attempts: seq<Attempt>, alive: bool)

  datatype Run = Run(state: State, ending: Ending)

  /** The cards of page `p` (numbered from 1). */
  function PageCards(b: Browser, p: nat): seq<Card> {
    if 1 <= p <= |b.pages| then b.pages[p - 1] else []
  }

  function SkipEntry(v: Verdict): LogEntry {
    if v == MissingKeywords then SkippedMissingKeywords else SkippedBlacklisted
  }

  /** The per-job loop over one page's candidates; stops early on the daily limit. */
  function ProcessJobs(jobs: seq<Job>, page: nat, keywords: seq<string>, blacklist: seq<string>,
                       submit: nat -> Outcome, st: State): State
    decreases |jobs|
  {
    if jobs == [] then st
    else
      var j := jobs[0];
      var logged := st.log + [Processing(j.title)];
      var v := Check(j.title, keywords, blacklist);
      if v != Accept then
        ProcessJobs(jobs[1..], page, keywords, blacklist, submit, st.(log := logged + [SkipEntry(v)]))
      else
        var o := submit(|st.attempts|);
        var attempts := st.attempts + [Attempt(j, page, o)];
        match o
        case DailyLimit =>
          st.(log := logged + [DailyLimitReached], attempts := attempts, alive := false)
        case Applied =>
          var user := st.user + [j.id];
          ProcessJobs(jobs[1..], page, keywords, blacklist, submit,
            st.(log := logged + [AppliedTo(j.title)], attempts := attempts, user := user, writes := st.writes + [user]))
        case Failed(e) =>
          ProcessJobs(jobs[1..], page, keywords, blacklist, submit,
            st.(log := logged + [FailedTo(j.title, e)], attempts := attempts, writes := st.writes + [st.user]))
  }

  /** The page loop from page `p` on. */
  function Crawl(b: Browser, keywords: seq<string>, blacklist: seq<string>, p: nat, st: State): Run
    requires p >= 1
    decreases |b.pages| + 1 - p
  {
    if !st.alive then Run(st, Crashed(DriverClosed(p)))
    else if PageCards(b, p) == [] then
      Run(st.(log := st.log + [NoJobsOnPage(p, b.noCardsError)]), Exhausted(p))
    else match Select(PageCards(b, p), st.user)
      case None => Run(st, Crashed(MissingTitleLink(p)))
      case Some(jobs) => Crawl(b, keywords, blacklist, p + 1, ProcessJobs(jobs, p, keywords, blacklist, b.submit, st))
  }

  /** `keywords.split()`. */
  function KeywordTokens(keywords: string): seq<string> {
    Tokenise(keywords)
  }

  /** `blacklist.split() if blacklist else []`. */
  function BlacklistTokens(blacklist: string): seq<string> {
    if blacklist == "" then [] else Tokenise(blacklist)
  }

  /** The state the page loop starts from: the loaded history and the login line, browser open. */
  function InitialState(history: map<string, seq<string>>, username: string, b: Browser): State {
    var first := if b.login.None? then LoggedIn else LoginFailed(b.login.value);
    State(UserHistory(history, username), [first], [], [], true)
  }

  /** `apply_to_dice`, with the browser's behaviour supplied by `b`. */
  function ApplyToDice(history: map<string, seq<string>>, username: string, keywords: string, blacklist: string,
                       hasResume: bool, b: Browser): Run
  {
    if !hasResume then Run(State(UserHistory(history, username), [], [], [], true), NoResume)
    else Crawl(b, KeywordTokens(keywords), BlacklistTokens(blacklist), 1, InitialState(history, username, b))
  }

  // ---------------------------------------------------------------------------
  // What the run returns and what it leaves in the history file
  // ---------------------------------------------------------------------------

  const ResumeError: string := "Error: Please upload a resume file."

  function Render(e: LogEntry): string {
    match e
    case LoggedIn => "Logged in successfully."
    case LoginFailed(err) => "Login skipped or failed: " + err + ". Continuing."
    case NoJobsOnPage(p, err) => "No jobs found on page " + NatToString(p) + ": " + err + "."
    case Processing(t) => "Processing: " + t
    case SkippedMissingKeywords => "Skipped: Missing keywords in job title."
    case SkippedBlacklisted => "Skipped: Blacklisted word found."
    case DailyLimitReached => "Daily application limit reached. Stopping."
    case AppliedTo(t) => "Successfully applied to " + t + "."
    case FailedTo(t, err) => "Failed to apply to " + t + ": " + err
  }

  function RenderAll(log: seq<LogEntry>): seq<string> {
    seq(|log|, i requires 0 <= i < |log| => Render(log[i]))
  }

  /** The text handed back to the caller, or None when the run ended in an exception. */
  function Reply(r: Run): Option<string> {
    match r.ending
    case NoResume => Some(ResumeError)
    case Exhausted(_) => Some(Join(RenderAll(r.state.log), "\n"))
    case Crashed(_) => None
  }

  /** The history file after the run: the last write, or the file as loaded when nothing was written. */
  function DurableHistory(history: map<string, seq<string>>, username: string, r: Run): map<string, seq<string>> {
    if r.state.writes == [] then history
    else history[username := r.state.writes[|r.state.writes| - 1]]
  }
}
