/**
 What the run writes to its log about each candidate: "Processing" with the
 title, then either the reason the title was skipped or the site's answer to
 the submission. The log is the text the run returns, and the only record of
 a failed submission and its error.
 */
module LogFacts {
  import opened Wrappers
  import opened TitleFilter
  import opened Cards
  import opened Session
  import opened SessionFacts

  /** The log line that reports the site's answer to a submission attempt. */
  function OutcomeEntry(a: Attempt): LogEntry {
    match a.outcome
    case Applied => AppliedTo(a.job.title)
    case Failed(e) => FailedTo(a.job.title, e)
    case DailyLimit => DailyLimitReached
  }

  /**
   The log a page's candidates produce, given the attempts made for them in
   order: "Processing" and the skip reason for a rejected title; "Processing"
   and the answer's line for a submitted one, the page ending at the daily limit.
   */
  function PageLog(jobs: seq<Job>, keywords: seq<string>, blacklist: seq<string>, atts: seq<Attempt>): seq<LogEntry>
    decreases |jobs|
  {
    if jobs == [] then []
    else
      var v := Check(jobs[0].title, keywords, blacklist);
      if v != Accept then [Processing(jobs[0].title), SkipEntry(v)] + PageLog(jobs[1..], keywords, blacklist, atts)
      else if atts == [] then []
      else [Processing(jobs[0].title), OutcomeEntry(atts[0])]
           + (if atts[0].outcome.DailyLimit? then [] else PageLog(jobs[1..], keywords, blacklist, atts[1..]))
  }

  /** The attempt's "Processing" line is directly followed by the line of its answer. */
  ghost predicate Logged(log: seq<LogEntry>, a: Attempt) {
    exists i :: 0 <= i && i + 1 < |log| && log[i] == Processing(a.job.title) && log[i + 1] == OutcomeEntry(a)
  }

  /** Every attempt of the state is logged. */
  ghost predicate AllLogged(st: State) {
    forall k :: 0 <= k < |st.attempts| ==> Logged(st.log, st.attempts[k])
  }

  /**
   A candidate whose title passes the filter is submitted once, with the
   site's answer for that attempt number, and adds exactly two log lines:
   "Processing", then "applied" iff the answer was success, "failed" with the
   site's error text iff it was a failure, and the daily-limit line iff the
   limit was met. A success appends the id; every answer but the daily limit
   is followed by a history write; the daily limit closes the browser.
   */
  lemma SubmittedJobLog(j: Job, page: nat, keywords: seq<string>, blacklist: seq<string>,
                        submit: nat -> Outcome, st: State)
    requires Check(j.title, keywords, blacklist) == Accept
    ensures var r := ProcessJobs([j], page, keywords, blacklist, submit, st);
      var o := submit(|st.attempts|);
      var n := |st.log|;
      && r.attempts == st.attempts + [Attempt(j, page, o)]
      && |r.log| == n + 2 && r.log[..n] == st.log && r.log[n] == Processing(j.title)
      && (r.log[n + 1] == AppliedTo(j.title) <==> o == Applied)
      && (r.log[n + 1] == DailyLimitReached <==> o == DailyLimit)
      && (r.log[n + 1].FailedTo? <==> o.Failed?)
      && (o.Failed? ==> r.log[n + 1] == FailedTo(j.title, o.error))
      && r.user == (if o == Applied then st.user + [j.id] else st.user)
      && r.writes == (if o == DailyLimit then st.writes else st.writes + [r.user])
      && (r.alive <==> st.alive && o != DailyLimit)
  {
    var r := ProcessJobs([j], page, keywords, blacklist, submit, st);
    var o := submit(|st.attempts|);
    var logged := st.log + [Processing(j.title)];
    assert [j][1..] == [];
    var attempts := st.attempts + [Attempt(j, page, o)];
    if o.Applied? {
      var user := st.user + [j.id];
      var st' := st.(log := logged + [AppliedTo(j.title)], attempts := attempts, user := user, writes := st.writes + [user]);
      assert r == ProcessJobs([], page, keywords, blacklist, submit, st') == st';
    } else if o.Failed? {
      var st' := st.(log := logged + [FailedTo(j.title, o.error)], attempts := attempts, writes := st.writes + [st.user]);
      assert r == ProcessJobs([], page, keywords, blacklist, submit, st') == st';
    } else {
      assert r.log == logged + [DailyLimitReached];
    }
    assert r.log[..|st.log|] == st.log;
  }

  lemma PageLogSubmitted(jobs: seq<Job>, keywords: seq<string>, blacklist: seq<string>, a: Attempt, tail: seq<Attempt>)
    requires jobs != [] && Check(jobs[0].title, keywords, blacklist) == Accept && !a.outcome.DailyLimit?
    ensures PageLog(jobs, keywords, blacklist, [a] + tail) ==
      [Processing(jobs[0].title), OutcomeEntry(a)] + PageLog(jobs[1..], keywords, blacklist, tail)
  {
    assert ([a] + tail)[1..] == tail;
  }

  lemma PageLogSkipped(jobs: seq<Job>, keywords: seq<string>, blacklist: seq<string>, atts: seq<Attempt>)
    requires jobs != [] && Check(jobs[0].title, keywords, blacklist) != Accept
    ensures PageLog(jobs, keywords, blacklist, atts) ==
      [Processing(jobs[0].title), SkipEntry(Check(jobs[0].title, keywords, blacklist))] + PageLog(jobs[1..], keywords, blacklist, atts)
  {
  }

  /** Each step of the page loop logs exactly `PageLog` of the attempts it made. */
  lemma {:induction false} ProcessJobsLog(jobs: seq<Job>, page: nat, keywords: seq<string>, blacklist: seq<string>,
                                          submit: nat -> Outcome, st: State)
    ensures var r := ProcessJobs(jobs, page, keywords, blacklist, submit, st);
      && st.attempts <= r.attempts
      && r.log == st.log + PageLog(jobs, keywords, blacklist, r.attempts[|st.attempts|..])
    decreases |jobs|
  {
    var r := ProcessJobs(jobs, page, keywords, blacklist, submit, st);
    if jobs != [] {
      var j := jobs[0];
      var v := Check(j.title, keywords, blacklist);
      if v != Accept {
        var st' := st.(log := st.log + [Processing(j.title), SkipEntry(v)]);
        assert st.log + [Processing(j.title)] + [SkipEntry(v)] == st'.log;
        assert r == ProcessJobs(jobs[1..], page, keywords, blacklist, submit, st');
        ProcessJobsLog(jobs[1..], page, keywords, blacklist, submit, st');
        PageLogSkipped(jobs, keywords, blacklist, r.attempts[|st.attempts|..]);
      } else {
        var o := submit(|st.attempts|);
        var a := Attempt(j, page, o);
        if o.DailyLimit? {
          assert r.attempts[|st.attempts|..] == [a];
        } else {
          SubmittedStep(jobs, page, keywords, blacklist, submit, st);
        }
      }
    }
  }

  /** The per-job loop past a first job that is submitted and not cut short by the daily limit. */
  lemma SubmittedUnfold(jobs: seq<Job>, page: nat, keywords: seq<string>, blacklist: seq<string>,
                        submit: nat -> Outcome, st: State)
    requires jobs != [] && Check(jobs[0].title, keywords, blacklist) == Accept
    requires !submit(|st.attempts|).DailyLimit?
    ensures var j, o := jobs[0], submit(|st.attempts|);
      var entry := if o.Applied? then AppliedTo(j.title) else FailedTo(j.title, o.error);
      var user := if o.Applied? then st.user + [j.id] else st.user;
      ProcessJobs(jobs, page, keywords, blacklist, submit, st) ==
        ProcessJobs(jobs[1..], page, keywords, blacklist, submit,
          st.(log := st.log + [Processing(j.title), entry], attempts := st.attempts + [Attempt(j, page, o)],
              user := user, writes := st.writes + [user]))
  {
    var j, o := jobs[0], submit(|st.attempts|);
    var entry := if o.Applied? then AppliedTo(j.title) else FailedTo(j.title, o.error);
    assert st.log + [Processing(j.title)] + [entry] == st.log + [Processing(j.title), entry];
  }

  /** `ProcessJobsLog` for a first job that is submitted and not cut short by the daily limit. */
  lemma {:induction false} SubmittedStep(jobs: seq<Job>, page: nat, keywords: seq<string>, blacklist: seq<string>,
                                         submit: nat -> Outcome, st: State)
    requires jobs != [] && Check(jobs[0].title, keywords, blacklist) == Accept
    requires !submit(|st.attempts|).DailyLimit?
    ensures var r := ProcessJobs(jobs, page, keywords, blacklist, submit, st);
      && st.attempts <= r.attempts
      && r.log == st.log + PageLog(jobs, keywords, blacklist, r.attempts[|st.attempts|..])
    decreases |jobs|, 0
  {
    var j := jobs[0];
    var o := submit(|st.attempts|);
    var a := Attempt(j, page, o);
    var entry := if o.Applied? then AppliedTo(j.title) else FailedTo(j.title, o.error);
    var user := if o.Applied? then st.user + [j.id] else st.user;
    var st' := st.(log := st.log + [Processing(j.title), entry], attempts := st.attempts + [a], user := user,
                   writes := st.writes + [user]);
    SubmittedUnfold(jobs, page, keywords, blacklist, submit, st);
    var r := ProcessJobs(jobs[1..], page, keywords, blacklist, submit, st');
    ProcessJobsLog(jobs[1..], page, keywords, blacklist, submit, st');
    assert entry == OutcomeEntry(a);
    LogAssembled(jobs, keywords, blacklist, st.log, st.attempts, a, r.log, r.attempts);
  }

  /** The sequence reasoning behind `SubmittedStep`, on plain sequences. */
  lemma LogAssembled(jobs: seq<Job>, keywords: seq<string>, blacklist: seq<string>, log0: seq<LogEntry>,
                     atts0: seq<Attempt>, a: Attempt, log: seq<LogEntry>, atts: seq<Attempt>)
    requires jobs != [] && Check(jobs[0].title, keywords, blacklist) == Accept && !a.outcome.DailyLimit?
    requires a.job.title == jobs[0].title
    requires atts0 + [a] <= atts
    requires log == log0 + [Processing(jobs[0].title), OutcomeEntry(a)] +
                    PageLog(jobs[1..], keywords, blacklist, atts[|atts0| + 1..])
    ensures atts0 <= atts
    ensures log == log0 + PageLog(jobs, keywords, blacklist, atts[|atts0|..])
  {
    var tail := atts[|atts0| + 1..];
    var pair := [Processing(jobs[0].title), OutcomeEntry(a)];
    var rest := PageLog(jobs[1..], keywords, blacklist, tail);
    assert atts[|atts0|..] == [a] + tail;
    PageLogSubmitted(jobs, keywords, blacklist, a, tail);
    assert log0 + pair + rest == log0 + (pair + rest);
  }

  lemma LoggedGrows(log: seq<LogEntry>, log': seq<LogEntry>, a: Attempt)
    requires log <= log' && Logged(log, a)
    ensures Logged(log', a)
  {
    var i :| 0 <= i && i + 1 < |log| && log[i] == Processing(a.job.title) && log[i + 1] == OutcomeEntry(a);
    assert log'[i] == log[i] && log'[i + 1] == log[i + 1];
  }

  /** The per-job loop logs each attempt it makes, and keeps what was logged before. */
  lemma {:induction false} ProcessJobsLogsAttempts(jobs: seq<Job>, page: nat, keywords: seq<string>, blacklist: seq<string>,
                                                   submit: nat -> Outcome, st: State)
    ensures var r := ProcessJobs(jobs, page, keywords, blacklist, submit, st);
      && st.attempts <= r.attempts && st.log <= r.log
      && forall k :: |st.attempts| <= k < |r.attempts| ==> Logged(r.log, r.attempts[k])
    decreases |jobs|
  {
    var r := ProcessJobs(jobs, page, keywords, blacklist, submit, st);
    if jobs != [] {
      var j := jobs[0];
      var logged := st.log + [Processing(j.title)];
      var v := Check(j.title, keywords, blacklist);
      if v != Accept {
        var st' := st.(log := logged + [SkipEntry(v)]);
        ProcessJobsLogsAttempts(jobs[1..], page, keywords, blacklist, submit, st');
      } else {
        var o := submit(|st.attempts|);
        var a := Attempt(j, page, o);
        var n := |st.log|;
        if o.DailyLimit? {
          assert r.log[n] == Processing(a.job.title) && r.log[n + 1] == OutcomeEntry(a);
        } else {
          var entry := if o.Applied? then AppliedTo(j.title) else FailedTo(j.title, o.error);
          var user := if o.Applied? then st.user + [j.id] else st.user;
          var st' := st.(log := logged + [entry], attempts := st.attempts + [a], user := user, writes := st.writes + [user]);
          assert r == ProcessJobs(jobs[1..], page, keywords, blacklist, submit, st');
          ProcessJobsLogsAttempts(jobs[1..], page, keywords, blacklist, submit, st');
          assert st'.log[n] == Processing(a.job.title) && st'.log[n + 1] == OutcomeEntry(a);
          LoggedGrows(st'.log, r.log, a);
          assert r.attempts[|st.attempts|] == a;
        }
      }
    }
  }

  /** Processing one page keeps every attempt of the run logged. */
  lemma PageKeepsLogged(jobs: seq<Job>, page: nat, keywords: seq<string>, blacklist: seq<string>,
                        submit: nat -> Outcome, st: State)
    requires AllLogged(st)
    ensures AllLogged(ProcessJobs(jobs, page, keywords, blacklist, submit, st))
  {
    var r := ProcessJobs(jobs, page, keywords, blacklist, submit, st);
    ProcessJobsLogsAttempts(jobs, page, keywords, blacklist, submit, st);
    forall k | 0 <= k < |st.attempts|
      ensures Logged(r.log, r.attempts[k])
    {
      assert r.attempts[k] == st.attempts[k];
      LoggedGrows(st.log, r.log, st.attempts[k]);
    }
  }

  /** The page loop keeps every attempt of the run logged, wherever it ends. */
  lemma {:induction false} CrawlKeepsLogged(b: Browser, keywords: seq<string>, blacklist: seq<string>, p: nat, st: State)
    requires p >= 1 && AllLogged(st)
    ensures AllLogged(Crawl(b, keywords, blacklist, p, st).state)
    decreases |b.pages| + 1 - p
  {
    if st.alive {
      if PageCards(b, p) == [] {
        var log' := st.log + [NoJobsOnPage(p, b.noCardsError)];
        forall k | 0 <= k < |st.attempts|
          ensures Logged(log', st.attempts[k])
        {
          LoggedGrows(st.log, log', st.attempts[k]);
        }
      } else if Select(PageCards(b, p), st.user).Some? {
        var jobs := Select(PageCards(b, p), st.user).value;
        CrawlUnfold(b, keywords, blacklist, p, st, jobs);
        PageKeepsLogged(jobs, p, keywords, blacklist, b.submit, st);
        CrawlKeepsLogged(b, keywords, blacklist, p + 1, ProcessJobs(jobs, p, keywords, blacklist, b.submit, st));
      }
    }
  }

  // ---------------------------------------------------------------------------
  // The whole log
  // ---------------------------------------------------------------------------

  /** The log line the run starts with: the login succeeded, or the error it failed with. */
  function LoginEntry(b: Browser): LogEntry {
    match b.login
    case None => LoggedIn
    case Some(e) => LoginFailed(e)
  }

  /**
   What page `q` contributes to the log, given the run's final attempts: the
   `PageLog` of its candidates (selected against the history as it stood when
   the page was reached) and of the attempts made on it.
   */
  function PageLogAt(b: Browser, keywords: seq<string>, blacklist: seq<string>, user0: seq<string>,
                     atts: seq<Attempt>, q: nat): seq<LogEntry> {
    match CandidatesOf(b, user0, atts, q)
    case None => []
    case Some(jobs) => PageLog(jobs, keywords, blacklist, InPages(atts, q, q + 1))
  }

  /** The log of pages `lo` to `hi - 1`, page after page. */
  function PagesLog(b: Browser, keywords: seq<string>, blacklist: seq<string>, user0: seq<string>,
                    atts: seq<Attempt>, lo: nat, hi: nat): seq<LogEntry>
    decreases hi - lo
  {
    if lo >= hi then [] else PageLogAt(b, keywords, blacklist, user0, atts, lo) + PagesLog(b, keywords, blacklist, user0, atts, lo + 1, hi)
  }

  /** Page `p` processed, and the whole log from page `p + 1` on, give the whole log from page `p` on. */
  lemma PagesLogStep(b: Browser, keywords: seq<string>, blacklist: seq<string>, p: nat, st: State, user0: seq<string>,
                     jobs: seq<Job>, r: Run)
    requires st.alive && CrawlReady(p, st, user0)
    requires Select(PageCards(b, p), st.user) == Some(jobs)
    requires var st1 := ProcessJobs(jobs, p, keywords, blacklist, b.submit, st);
      && st1.attempts <= r.state.attempts
      && (forall k :: |st1.attempts| <= k < |r.state.attempts| ==> p + 1 <= r.state.attempts[k].page)
      && r.ending.Exhausted? && p + 1 <= r.ending.page
      && r.state.log == st1.log + PagesLog(b, keywords, blacklist, user0, r.state.attempts, p + 1, r.ending.page)
                                + [NoJobsOnPage(r.ending.page, b.noCardsError)]
    ensures r.state.log == st.log + PagesLog(b, keywords, blacklist, user0, r.state.attempts, p, r.ending.page)
                                  + [NoJobsOnPage(r.ending.page, b.noCardsError)]
  {
    var st1 := ProcessJobs(jobs, p, keywords, blacklist, b.submit, st);
    var atts := r.state.attempts;
    PageIdentified(b, keywords, blacklist, p, st, user0, jobs, atts);
    ProcessJobsLog(jobs, p, keywords, blacklist, b.submit, st);
    PagesLogUnfold(b, keywords, blacklist, user0, atts, p, r.ending.page, jobs);
    LogConcat(st.log, st1.log, PageLog(jobs, keywords, blacklist, InPages(atts, p, p + 1)),
              PagesLog(b, keywords, blacklist, user0, atts, p + 1, r.ending.page),
              [NoJobsOnPage(r.ending.page, b.noCardsError)], r.state.log);
  }

  lemma PagesLogUnfold(b: Browser, keywords: seq<string>, blacklist: seq<string>, user0: seq<string>,
                       atts: seq<Attempt>, p: nat, e: nat, jobs: seq<Job>)
    requires p < e && CandidatesOf(b, user0, atts, p) == Some(jobs)
    ensures PagesLog(b, keywords, blacklist, user0, atts, p, e) ==
      PageLog(jobs, keywords, blacklist, InPages(atts, p, p + 1)) + PagesLog(b, keywords, blacklist, user0, atts, p + 1, e)
  {
  }

  lemma LogConcat(log0: seq<LogEntry>, log1: seq<LogEntry>, here: seq<LogEntry>, later: seq<LogEntry>,
                  last: seq<LogEntry>, log: seq<LogEntry>)
    requires log1 == log0 + here && log == log1 + later + last
    ensures log == log0 + (here + later) + last
  {
  }

  /**
   A page loop from page `p` that ends at an empty page `e` logs exactly the
   pages `p` to `e - 1`, each by its `PageLog`, and then the line reporting
   the empty page.
   */
  lemma {:induction false} CrawlLog(b: Browser, keywords: seq<string>, blacklist: seq<string>, p: nat, st: State,
                                    user0: seq<string>)
    requires CrawlReady(p, st, user0)
    ensures var r := Crawl(b, keywords, blacklist, p, st);
      r.ending.Exhausted? ==>
        r.state.log == st.log + PagesLog(b, keywords, blacklist, user0, r.state.attempts, p, r.ending.page)
                              + [NoJobsOnPage(r.ending.page, b.noCardsError)]
    decreases |b.pages| + 1 - p
  {
    var r := Crawl(b, keywords, blacklist, p, st);
    if st.alive && PageCards(b, p) != [] && Select(PageCards(b, p), st.user).Some? {
      var jobs := Select(PageCards(b, p), st.user).value;
      var st1 := ProcessJobs(jobs, p, keywords, blacklist, b.submit, st);
      CrawlUnfold(b, keywords, blacklist, p, st, jobs);
      PageReady(b, keywords, blacklist, p, st, user0, jobs);
      CrawlLog(b, keywords, blacklist, p + 1, st1, user0);
      if r.ending.Exhausted? {
        CrawlKeepsFacts(b, keywords, blacklist, p + 1, st1, user0);
        PagesLogStep(b, keywords, blacklist, p, st, user0, jobs, r);
      }
    } else if r.ending.Exhausted? {
      assert r.ending.page == p;
    }
  }
}
