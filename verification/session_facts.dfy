/**
 Invariants of a run and the lemmas that establish them, page by page and
 job by job. The top-level statements about `apply_to_dice` are in
 `run_properties.dfy`.
 */
module SessionFacts {
  import opened Wrappers
  import opened TitleFilter
  import opened Cards
  import opened Session

  /** The ids of the successful attempts, in order: what the run appends to the history. */
  function AppliedIds(attempts: seq<Attempt>): seq<string> {
    if attempts == [] then []
    else
      var last := attempts[|attempts| - 1];
      AppliedIds(attempts[..|attempts| - 1]) + (if last.outcome.Applied? then [last.job.id] else [])
  }

  /** The jobs of a run of attempts. */
  function JobsOf(attempts: seq<Attempt>): seq<Job> {
    seq(|attempts|, k requires 0 <= k < |attempts| => attempts[k].job)
  }

  /** The candidates of a page that pass the title filter, in order. */
  function Accepted(jobs: seq<Job>, keywords: seq<string>, blacklist: seq<string>): seq<Job> {
    if jobs == [] then []
    else (if Check(jobs[0].title, keywords, blacklist) == Accept then [jobs[0]] else [])
         + Accepted(jobs[1..], keywords, blacklist)
  }

  /**
   The bookkeeping of a run, relative to the user's history `user0` as loaded:
   the in-memory history is `user0` followed by the ids of the successful
   attempts; the k-th history write holds the history right after the k-th
   attempt; every attempt but one cut short by the daily limit is followed by a
   write; the daily limit is hit at most once, by the last attempt, and exactly
   when the browser has been closed, which is the last thing logged.
   */
  ghost predicate Consistent(user0: seq<string>, st: State) {
    && st.user == user0 + AppliedIds(st.attempts)
    && |st.writes| == |st.attempts| - (if st.alive then 0 else 1)
    && (forall k :: 0 <= k < |st.writes| ==> st.writes[k] == user0 + AppliedIds(st.attempts[..k + 1]))
    && (forall k :: 0 <= k < |st.attempts| && st.attempts[k].outcome.DailyLimit? ==>
          k == |st.attempts| - 1 && !st.alive)
    && (!st.alive ==> |st.attempts| > 0 && st.attempts[|st.attempts| - 1].outcome.DailyLimit?
                      && |st.log| > 0 && st.log[|st.log| - 1] == DailyLimitReached)
  }

  /** Attempts are made page by page, never going back to an earlier page. */
  ghost predicate PagesOrdered(attempts: seq<Attempt>) {
    forall i, j :: 0 <= i < j < |attempts| ==> attempts[i].page <= attempts[j].page
  }

  /**
   No attempt is made for an id in the history as loaded, and no id applied
   to successfully on one page is attempted on a later page.
   */
  ghost predicate NeverResubmits(user0: seq<string>, attempts: seq<Attempt>) {
    && (forall k :: 0 <= k < |attempts| ==> attempts[k].job.id !in user0)
    && (forall i, j :: 0 <= i < j < |attempts| && attempts[i].page < attempts[j].page && attempts[i].outcome.Applied? ==>
          attempts[j].job.id != attempts[i].job.id)
  }

  /** The attempt's job is a card of its page with that link and no "applied" ribbon. */
  ghost predicate FromPage(b: Browser, a: Attempt) {
    exists c :: c in PageCards(b, a.page) && c.link == Some(Link(a.job.id, a.job.title, a.job.url))
                && c.ribbon != Some(AppliedRibbon)
  }

  /** The k-th attempt of a run: its title passed the filter, it came from its page, and its outcome is the site's k-th answer. */
  ghost predicate Legitimate(b: Browser, keywords: seq<string>, blacklist: seq<string>, a: Attempt, k: nat) {
    && a.outcome == b.submit(k)
    && Check(a.job.title, keywords, blacklist) == Accept
    && FromPage(b, a)
  }

  // ---------------------------------------------------------------------------
  // Small facts about AppliedIds
  // ---------------------------------------------------------------------------

  lemma AppliedIdsSnoc(attempts: seq<Attempt>, a: Attempt)
    ensures AppliedIds(attempts + [a]) == AppliedIds(attempts) + (if a.outcome.Applied? then [a.job.id] else [])
  {
    assert (attempts + [a])[..|attempts|] == attempts;
  }

  lemma {:induction false} AppliedIdsHasApplied(attempts: seq<Attempt>, i: nat)
    requires i < |attempts| && attempts[i].outcome.Applied?
    ensures attempts[i].job.id in AppliedIds(attempts)
    decreases |attempts|
  {
    if i < |attempts| - 1 {
      var init := attempts[..|attempts| - 1];
      assert init[i] == attempts[i];
      AppliedIdsHasApplied(init, i);
    }
  }

  lemma {:induction false} AppliedIdsFromAttempts(attempts: seq<Attempt>, x: string)
    requires x in AppliedIds(attempts)
    ensures exists i :: 0 <= i < |attempts| && attempts[i].outcome.Applied? && attempts[i].job.id == x
    decreases |attempts|
  {
    var init := attempts[..|attempts| - 1];
    var last := attempts[|attempts| - 1];
    if x in AppliedIds(init) {
      AppliedIdsFromAttempts(init, x);
      var i :| 0 <= i < |init| && init[i].outcome.Applied? && init[i].job.id == x;
      assert attempts[i] == init[i];
    } else {
      assert last.outcome.Applied? && last.job.id == x;
    }
  }

  // ---------------------------------------------------------------------------
  // One job at a time
  // ---------------------------------------------------------------------------

  /** A submission that is not cut short keeps the bookkeeping consistent. */
  lemma SubmissionStep(user0: seq<string>, st: State, a: Attempt, entry: LogEntry)
    requires st.alive && Consistent(user0, st)
    requires !a.outcome.DailyLimit?
    ensures var user := if a.outcome.Applied? then st.user + [a.job.id] else st.user;
      Consistent(user0, st.(log := st.log + [entry], attempts := st.attempts + [a], user := user,
                            writes := st.writes + [user]))
  {
    var user := if a.outcome.Applied? then st.user + [a.job.id] else st.user;
    var attempts := st.attempts + [a];
    var writes := st.writes + [user];
    AppliedIdsSnoc(st.attempts, a);
    forall k | 0 <= k < |writes|
      ensures writes[k] == user0 + AppliedIds(attempts[..k + 1])
    {
      if k < |st.writes| {
        assert attempts[..k + 1] == st.attempts[..k + 1];
      } else {
        assert attempts[..k + 1] == attempts;
      }
    }
  }

  /** The daily limit keeps the bookkeeping consistent: no write, browser closed. */
  lemma DailyLimitStep(user0: seq<string>, st: State, a: Attempt, log: seq<LogEntry>)
    requires st.alive && Consistent(user0, st)
    requires a.outcome.DailyLimit?
    ensures Consistent(user0, st.(log := log + [DailyLimitReached], attempts := st.attempts + [a], alive := false))
  {
    var attempts := st.attempts + [a];
    AppliedIdsSnoc(st.attempts, a);
    forall k | 0 <= k < |st.writes|
      ensures st.writes[k] == user0 + AppliedIds(attempts[..k + 1])
    {
      assert attempts[..k + 1] == st.attempts[..k + 1];
    }
  }

  /**
   A candidate whose title fails the filter leaves no trace but two log lines:
   "Processing", then the reason, which is "missing keywords" whenever some
   keyword is absent (even if a blacklisted word is present too) and
   "blacklisted" otherwise. It is not submitted and causes no history write.
   */
  lemma RejectedJobLeavesNoTrace(j: Job, page: nat, keywords: seq<string>, blacklist: seq<string>,
                                 submit: nat -> Outcome, st: State)
    requires Check(j.title, keywords, blacklist) != Accept
    ensures var r := ProcessJobs([j], page, keywords, blacklist, submit, st);
      && r.user == st.user && r.writes == st.writes && r.attempts == st.attempts && r.alive == st.alive
      && r.log == st.log + [Processing(j.title),
                            if exists k :: 0 <= k < |keywords| && !MentionsSpec(j.title, keywords[k])
                            then SkippedMissingKeywords else SkippedBlacklisted]
  {
    CheckMeaning(j.title, keywords, blacklist);
  }

  /** What the per-job loop guarantees of its result `r`, started from `st` on `jobs`. */
  ghost predicate LoopFacts(jobs: seq<Job>, page: nat, keywords: seq<string>, blacklist: seq<string>,
                            submit: nat -> Outcome, st: State, r: State, user0: seq<string>) {
    && Consistent(user0, r)
    && st.attempts <= r.attempts
    && st.log <= r.log
    && (forall k :: |st.attempts| <= k < |r.attempts| ==>
          && r.attempts[k].page == page
          && r.attempts[k].job in jobs
          && r.attempts[k].outcome == submit(k)
          && Check(r.attempts[k].job.title, keywords, blacklist) == Accept)
  }

  /** The loop facts for the rest of the page carry back over a skipped first job. */
  lemma SkipCarries(jobs: seq<Job>, page: nat, keywords: seq<string>, blacklist: seq<string>,
                    submit: nat -> Outcome, st: State, st': State, r: State, user0: seq<string>)
    requires jobs != []
    requires st'.attempts == st.attempts && st.log <= st'.log
    requires LoopFacts(jobs[1..], page, keywords, blacklist, submit, st', r, user0)
    ensures LoopFacts(jobs, page, keywords, blacklist, submit, st, r, user0)
  {
    forall k | |st.attempts| <= k < |r.attempts|
      ensures r.attempts[k].job in jobs
    {
      assert r.attempts[k].job in jobs[1..];
    }
  }

  /** The loop facts for the rest of the page carry back over a submitted first job. */
  lemma SubmitCarries(jobs: seq<Job>, page: nat, keywords: seq<string>, blacklist: seq<string>,
                      submit: nat -> Outcome, st: State, st': State, r: State, user0: seq<string>)
    requires jobs != []
    requires Check(jobs[0].title, keywords, blacklist) == Accept
    requires st'.attempts == st.attempts + [Attempt(jobs[0], page, submit(|st.attempts|))] && st.log <= st'.log
    requires LoopFacts(jobs[1..], page, keywords, blacklist, submit, st', r, user0)
    ensures LoopFacts(jobs, page, keywords, blacklist, submit, st, r, user0)
  {
    forall k | |st.attempts| <= k < |r.attempts|
      ensures r.attempts[k].page == page && r.attempts[k].job in jobs && r.attempts[k].outcome == submit(k)
      ensures Check(r.attempts[k].job.title, keywords, blacklist) == Accept
    {
      if k == |st.attempts| {
        assert r.attempts[k] == st'.attempts[k];
      } else {
        assert r.attempts[k].job in jobs[1..];
      }
    }
  }

  /**
   The per-job loop keeps the bookkeeping consistent, only appends to the
   attempts and the log, and every attempt it makes is for one of the page's
   candidates whose title passed the filter, with the site's answer for that
   attempt number.
   */
  lemma {:induction false} ProcessJobsFacts(jobs: seq<Job>, page: nat, keywords: seq<string>, blacklist: seq<string>,
                                            submit: nat -> Outcome, st: State, user0: seq<string>)
    requires st.alive && Consistent(user0, st)
    ensures LoopFacts(jobs, page, keywords, blacklist, submit, st,
                      ProcessJobs(jobs, page, keywords, blacklist, submit, st), user0)
    decreases |jobs|
  {
    var r := ProcessJobs(jobs, page, keywords, blacklist, submit, st);
    if jobs != [] {
      var j := jobs[0];
      var logged := st.log + [Processing(j.title)];
      var v := Check(j.title, keywords, blacklist);
      if v != Accept {
        var st' := st.(log := logged + [SkipEntry(v)]);
        ProcessJobsFacts(jobs[1..], page, keywords, blacklist, submit, st', user0);
        SkipCarries(jobs, page, keywords, blacklist, submit, st, st', r, user0);
      } else {
        var o := submit(|st.attempts|);
        var a := Attempt(j, page, o);
        if o.DailyLimit? {
          DailyLimitStep(user0, st, a, logged);
        } else {
          var entry := if o.Applied? then AppliedTo(j.title) else FailedTo(j.title, o.error);
          var user := if o.Applied? then st.user + [j.id] else st.user;
          var st' := st.(log := logged + [entry], attempts := st.attempts + [a], user := user, writes := st.writes + [user]);
          SubmissionStep(user0, st, a, Processing(j.title));
          assert st.log + [Processing(j.title)] + [entry] == logged + [entry];
          assert r == ProcessJobs(jobs[1..], page, keywords, blacklist, submit, st');
          ProcessJobsFacts(jobs[1..], page, keywords, blacklist, submit, st', user0);
          SubmitCarries(jobs, page, keywords, blacklist, submit, st, st', r, user0);
        }
      }
    }
  }

  /** The per-job loop's attempts are the page's accepted candidates, in order, up to the daily limit; all of them if the browser is still open. */
  lemma {:induction false} ProcessJobsAttemptsAccepted(jobs: seq<Job>, page: nat, keywords: seq<string>, blacklist: seq<string>,
                                                       submit: nat -> Outcome, st: State)
    ensures var r := ProcessJobs(jobs, page, keywords, blacklist, submit, st);
      && st.attempts <= r.attempts
      && JobsOf(r.attempts[|st.attempts|..]) <= Accepted(jobs, keywords, blacklist)
      && (r.alive ==> JobsOf(r.attempts[|st.attempts|..]) == Accepted(jobs, keywords, blacklist))
    decreases |jobs|
  {
    var r := ProcessJobs(jobs, page, keywords, blacklist, submit, st);
    if jobs != [] {
      var j := jobs[0];
      var logged := st.log + [Processing(j.title)];
      var v := Check(j.title, keywords, blacklist);
      if v != Accept {
        var st' := st.(log := logged + [SkipEntry(v)]);
        ProcessJobsAttemptsAccepted(jobs[1..], page, keywords, blacklist, submit, st');
      } else {
        var o := submit(|st.attempts|);
        var a := Attempt(j, page, o);
        if o.DailyLimit? {
          assert r.attempts[|st.attempts|..] == [a];
          assert JobsOf([a]) == [j];
        } else {
          var entry := if o.Applied? then AppliedTo(j.title) else FailedTo(j.title, o.error);
          var user := if o.Applied? then st.user + [j.id] else st.user;
          var st' := st.(log := logged + [entry], attempts := st.attempts + [a], user := user, writes := st.writes + [user]);
          assert r == ProcessJobs(jobs[1..], page, keywords, blacklist, submit, st');
          ProcessJobsAttemptsAccepted(jobs[1..], page, keywords, blacklist, submit, st');
          var tail := r.attempts[|st'.attempts|..];
          assert r.attempts[|st.attempts|..] == [a] + tail;
          assert JobsOf([a] + tail) == [j] + JobsOf(tail);
        }
      }
    }
  }

  lemma {:induction false} AcceptedAreCandidates(jobs: seq<Job>, keywords: seq<string>, blacklist: seq<string>, x: Job)
    requires x in Accepted(jobs, keywords, blacklist)
    ensures x in jobs
    decreases |jobs|
  {
    if jobs[0] != x {
      AcceptedAreCandidates(jobs[1..], keywords, blacklist, x);
    }
  }

  /** Filtering candidates with distinct ids leaves candidates with distinct ids. */
  lemma {:induction false} AcceptedKeepsDistinct(jobs: seq<Job>, keywords: seq<string>, blacklist: seq<string>)
    requires DistinctJobIds(jobs)
    ensures DistinctJobIds(Accepted(jobs, keywords, blacklist))
    decreases |jobs|
  {
    if jobs != [] {
      var rest := Accepted(jobs[1..], keywords, blacklist);
      assert DistinctJobIds(jobs[1..]) by {
        forall k, m | 0 <= k < m < |jobs[1..]|
          ensures jobs[1..][k].id != jobs[1..][m].id
        {
          assert jobs[1..][k] == jobs[k + 1] && jobs[1..][m] == jobs[m + 1];
        }
      }
      AcceptedKeepsDistinct(jobs[1..], keywords, blacklist);
      if Check(jobs[0].title, keywords, blacklist) == Accept {
        var all := [jobs[0]] + rest;
        forall k, m | 0 <= k < m < |all|
          ensures all[k].id != all[m].id
        {
          if k == 0 {
            AcceptedAreCandidates(jobs[1..], keywords, blacklist, all[m]);
            var i :| 0 <= i < |jobs[1..]| && jobs[1..][i] == all[m];
            assert jobs[i + 1] == all[m];
          } else {
            assert all[k] == rest[k - 1] && all[m] == rest[m - 1];
          }
        }
      }
    }
  }

  // ---------------------------------------------------------------------------
  // One page at a time
  // ---------------------------------------------------------------------------

  /** What the page loop guarantees of its result `r`, started at page `p` from `st`. */
  ghost predicate CrawlFacts(b: Browser, keywords: seq<string>, blacklist: seq<string>, p: nat, st: State, r: Run,
                             user0: seq<string>) {
    && Consistent(user0, r.state)
    && NeverResubmits(user0, r.state.attempts)
    && PagesOrdered(r.state.attempts)
    && st.attempts <= r.state.attempts
    && st.log <= r.state.log
    && (forall k :: |st.attempts| <= k < |r.state.attempts| ==>
          p <= r.state.attempts[k].page && Legitimate(b, keywords, blacklist, r.state.attempts[k], k))
    && !r.ending.NoResume?
    && (r.ending.Exhausted? ==>
          && p <= r.ending.page
          && PageCards(b, r.ending.page) == []
          && (forall q :: p <= q < r.ending.page ==> PageCards(b, q) != [])
          && r.state.alive
          && |r.state.log| > 0 && r.state.log[|r.state.log| - 1] == NoJobsOnPage(r.ending.page, b.noCardsError))
    && (r.ending.Crashed? && r.ending.crash.DriverClosed? <==> !r.state.alive)
    && (r.ending.Crashed? && r.ending.crash.MissingTitleLink? ==>
          && p <= r.ending.crash.page
          && exists i :: 0 <= i < |PageCards(b, r.ending.crash.page)| && PageCards(b, r.ending.crash.page)[i].link.None?)
    && (st.alive && !r.state.alive ==>
          r.ending.crash.page == r.state.attempts[|r.state.attempts| - 1].page + 1)
  }

  /** What the page loop needs of the state it starts page `p` from. */
  ghost predicate CrawlReady(p: nat, st: State, user0: seq<string>) {
    && p >= 1
    && Consistent(user0, st)
    && NeverResubmits(user0, st.attempts)
    && PagesOrdered(st.attempts)
    && (forall k :: 0 <= k < |st.attempts| ==> st.attempts[k].page < p)
  }

  /** Attempts for the candidates of page `p` are for cards of that page, outside the history they were selected against. */
  lemma NewAttemptsFromPage(b: Browser, p: nat, user: seq<string>, jobs: seq<Job>, n: nat, atts: seq<Attempt>)
    requires Select(PageCards(b, p), user) == Some(jobs)
    requires forall k :: n <= k < |atts| ==> atts[k].page == p && atts[k].job in jobs
    ensures forall k :: n <= k < |atts| ==> atts[k].job.id !in user && FromPage(b, atts[k])
  {
    forall k | n <= k < |atts|
      ensures atts[k].job.id !in user && FromPage(b, atts[k])
    {
      SelectedJobFromCard(PageCards(b, p), user, atts[k].job);
      var i :| 0 <= i < |PageCards(b, p)| && Kept(PageCards(b, p)[i], user) && atts[k].job == JobOf(PageCards(b, p)[i].link.value);
      var c := PageCards(b, p)[i];
      assert c.link == Some(Link(atts[k].job.id, atts[k].job.title, atts[k].job.url));
    }
  }

  /** Appending attempts of page `p` to attempts of earlier pages keeps them in page order, all before page `p + 1`. */
  lemma ExtendOrdered(atts: seq<Attempt>, atts1: seq<Attempt>, p: nat)
    requires atts <= atts1 && PagesOrdered(atts)
    requires forall k :: 0 <= k < |atts| ==> atts[k].page < p
    requires forall k :: |atts| <= k < |atts1| ==> atts1[k].page == p
    ensures PagesOrdered(atts1)
    ensures forall k :: 0 <= k < |atts1| ==> atts1[k].page < p + 1
  {
    var n := |atts|;
    forall i, j | 0 <= i < j < |atts1|
      ensures atts1[i].page <= atts1[j].page
    {
      if j < n {
        assert atts1[i] == atts[i] && atts1[j] == atts[j];
      } else if i < n {
        assert atts1[i] == atts[i];
      }
    }
    forall k | 0 <= k < |atts1|
      ensures atts1[k].page < p + 1
    {
      if k < n {
        assert atts1[k] == atts[k];
      }
    }
  }

  /**
   Appending attempts of page `p`, none for an id in the current history, to
   attempts of earlier pages keeps the no-resubmission invariant.
   */
  lemma ExtendNeverResubmits(user0: seq<string>, atts: seq<Attempt>, atts1: seq<Attempt>, p: nat)
    requires atts <= atts1 && NeverResubmits(user0, atts)
    requires forall k :: 0 <= k < |atts| ==> atts[k].page < p
    requires forall k :: |atts| <= k < |atts1| ==>
      atts1[k].page == p && atts1[k].job.id !in user0 + AppliedIds(atts)
    ensures NeverResubmits(user0, atts1)
  {
    var n := |atts|;
    forall i, j | 0 <= i < j < |atts1| && atts1[i].page < atts1[j].page && atts1[i].outcome.Applied?
      ensures atts1[j].job.id != atts1[i].job.id
    {
      if j >= n {
        assert atts1[i] == atts[i];
        AppliedIdsHasApplied(atts, i);
      } else {
        assert atts1[i] == atts[i] && atts1[j] == atts[j];
      }
    }
    forall k | 0 <= k < |atts1|
      ensures atts1[k].job.id !in user0
    {
      if k < n {
        assert atts1[k] == atts[k];
      }
    }
  }

  /** Processing the candidates of page `p` leaves a state ready for page `p + 1`. */
  lemma PageStep(b: Browser, keywords: seq<string>, blacklist: seq<string>, p: nat, st: State, user0: seq<string>,
                 jobs: seq<Job>)
    requires st.alive && CrawlReady(p, st, user0)
    requires Select(PageCards(b, p), st.user) == Some(jobs)
    ensures var st1 := ProcessJobs(jobs, p, keywords, blacklist, b.submit, st);
      && CrawlReady(p + 1, st1, user0)
      && st.attempts <= st1.attempts
      && st.log <= st1.log
      && (forall k :: |st.attempts| <= k < |st1.attempts| ==>
            st1.attempts[k].page == p && Legitimate(b, keywords, blacklist, st1.attempts[k], k))
      && (!st1.alive ==> st1.attempts[|st1.attempts| - 1].page == p)
  {
    var st1 := ProcessJobs(jobs, p, keywords, blacklist, b.submit, st);
    ProcessJobsFacts(jobs, p, keywords, blacklist, b.submit, st, user0);
    NewAttemptsFromPage(b, p, st.user, jobs, |st.attempts|, st1.attempts);
    ExtendOrdered(st.attempts, st1.attempts, p);
    ExtendNeverResubmits(user0, st.attempts, st1.attempts, p);
    if !st1.alive {
      forall k | 0 <= k < |st.attempts|
        ensures !st1.attempts[k].outcome.DailyLimit?
      {
        assert st1.attempts[k] == st.attempts[k];
      }
    }
  }

  /** The page loop's facts for the pages after `p` carry back to page `p`. */
  lemma CrawlCarries(b: Browser, keywords: seq<string>, blacklist: seq<string>, p: nat, st: State, st1: State,
                     r: Run, user0: seq<string>)
    requires st.alive && PageCards(b, p) != []
    requires st.attempts <= st1.attempts && st.log <= st1.log
    requires forall k :: |st.attempts| <= k < |st1.attempts| ==>
               st1.attempts[k].page == p && Legitimate(b, keywords, blacklist, st1.attempts[k], k)
    requires !st1.alive ==> |st1.attempts| > 0 && st1.attempts[|st1.attempts| - 1].page == p
    requires !st1.alive ==> r == Run(st1, Crashed(DriverClosed(p + 1)))
    requires CrawlFacts(b, keywords, blacklist, p + 1, st1, r, user0)
    ensures CrawlFacts(b, keywords, blacklist, p, st, r, user0)
  {
    var n1 := |st1.attempts|;
    forall k | |st.attempts| <= k < |r.state.attempts|
      ensures p <= r.state.attempts[k].page && Legitimate(b, keywords, blacklist, r.state.attempts[k], k)
    {
      if k < n1 {
        assert r.state.attempts[k] == st1.attempts[k];
      }
    }
  }

  /** The page loop's facts where it stops at page `p`: a closed browser, a page without cards, or a card without a title link. */
  lemma CrawlStops(b: Browser, keywords: seq<string>, blacklist: seq<string>, p: nat, st: State, user0: seq<string>)
    requires CrawlReady(p, st, user0)
    requires !st.alive || PageCards(b, p) == [] || Select(PageCards(b, p), st.user).None?
    ensures CrawlFacts(b, keywords, blacklist, p, st, Crawl(b, keywords, blacklist, p, st), user0)
  {
    if st.alive && PageCards(b, p) == [] {
      assert Crawl(b, keywords, blacklist, p, st) ==
        Run(st.(log := st.log + [NoJobsOnPage(p, b.noCardsError)]), Exhausted(p));
    }
  }

  /** A page with candidates is processed and the loop moves on to the next page. */
  lemma CrawlUnfold(b: Browser, keywords: seq<string>, blacklist: seq<string>, p: nat, st: State, jobs: seq<Job>)
    requires p >= 1 && st.alive && PageCards(b, p) != []
    requires Select(PageCards(b, p), st.user) == Some(jobs)
    ensures p <= |b.pages|
    ensures Crawl(b, keywords, blacklist, p, st) ==
      Crawl(b, keywords, blacklist, p + 1, ProcessJobs(jobs, p, keywords, blacklist, b.submit, st))
  {
  }

  /** The page loop keeps every invariant of the run, from page `p` to wherever it ends. */
  lemma {:induction false} CrawlKeepsFacts(b: Browser, keywords: seq<string>, blacklist: seq<string>, p: nat, st: State,
                                           user0: seq<string>)
    requires CrawlReady(p, st, user0)
    ensures CrawlFacts(b, keywords, blacklist, p, st, Crawl(b, keywords, blacklist, p, st), user0)
    decreases |b.pages| + 1 - p
  {
    if !st.alive || PageCards(b, p) == [] || Select(PageCards(b, p), st.user).None? {
      CrawlStops(b, keywords, blacklist, p, st, user0);
    } else {
      var jobs := Select(PageCards(b, p), st.user).value;
      CrawlUnfold(b, keywords, blacklist, p, st, jobs);
      var st1 := ProcessJobs(jobs, p, keywords, blacklist, b.submit, st);
      PageStep(b, keywords, blacklist, p, st, user0, jobs);
      CrawlKeepsFacts(b, keywords, blacklist, p + 1, st1, user0);
      CrawlCarries(b, keywords, blacklist, p, st, st1, Crawl(b, keywords, blacklist, p + 1, st1), user0);
    }
  }

  // ---------------------------------------------------------------------------
  // Every accepted candidate is attempted
  // ---------------------------------------------------------------------------

  /** The attempts made on pages `lo` to `hi - 1`, in order. */
  function InPages(atts: seq<Attempt>, lo: nat, hi: nat): seq<Attempt> {
    if atts == [] then []
    else (if lo <= atts[0].page < hi then [atts[0]] else []) + InPages(atts[1..], lo, hi)
  }

  lemma {:induction false} InPagesAppend(a: seq<Attempt>, b: seq<Attempt>, lo: nat, hi: nat)
    ensures InPages(a + b, lo, hi) == InPages(a, lo, hi) + InPages(b, lo, hi)
    decreases |a|
  {
    if a == [] {
      assert a + b == b;
    } else {
      assert (a + b)[1..] == a[1..] + b;
      InPagesAppend(a[1..], b, lo, hi);
    }
  }

  lemma {:induction false} InPagesAll(a: seq<Attempt>, lo: nat, hi: nat)
    requires forall k :: 0 <= k < |a| ==> lo <= a[k].page < hi
    ensures InPages(a, lo, hi) == a
    decreases |a|
  {
    if a != [] {
      InPagesAll(a[1..], lo, hi);
      assert a == [a[0]] + a[1..];
    }
  }

  lemma {:induction false} InPagesNone(a: seq<Attempt>, lo: nat, hi: nat)
    requires forall k :: 0 <= k < |a| ==> !(lo <= a[k].page < hi)
    ensures InPages(a, lo, hi) == []
    decreases |a|
  {
    if a != [] {
      InPagesNone(a[1..], lo, hi);
    }
  }

  lemma NoneIn(atts: seq<Attempt>, i: nat, j: nat, lo: nat, hi: nat)
    requires i <= j <= |atts|
    requires forall k :: i <= k < j ==> !(lo <= atts[k].page < hi)
    ensures InPages(atts[i..j], lo, hi) == []
  {
    InPagesNone(atts[i..j], lo, hi);
  }

  lemma AllIn(atts: seq<Attempt>, i: nat, j: nat, lo: nat, hi: nat)
    requires i <= j <= |atts|
    requires forall k :: i <= k < j ==> lo <= atts[k].page < hi
    ensures InPages(atts[i..j], lo, hi) == atts[i..j]
  {
    InPagesAll(atts[i..j], lo, hi);
  }

  /** Attempts with indices `n` to `m` are on page `p` and no other attempt is: page `p`'s attempts are that slice. */
  lemma PageSlice(atts: seq<Attempt>, n: nat, m: nat, p: nat)
    requires n <= m <= |atts|
    requires forall k :: 0 <= k < n ==> atts[k].page < p
    requires forall k :: n <= k < m ==> atts[k].page == p
    requires forall k :: m <= k < |atts| ==> atts[k].page > p
    ensures InPages(atts, p, p + 1) == atts[n..m]
  {
    NoneIn(atts, 0, n, p, p + 1);
    AllIn(atts, n, m, p, p + 1);
    NoneIn(atts, m, |atts|, p, p + 1);
    assert atts == (atts[0..n] + atts[n..m]) + atts[m..|atts|];
    InPagesAppend(atts[0..n] + atts[n..m], atts[m..|atts|], p, p + 1);
    InPagesAppend(atts[0..n], atts[n..m], p, p + 1);
  }

  /** Attempts before index `n` are on pages before `p` and no later one is: the earlier pages' attempts are that prefix. */
  lemma PagesBefore(atts: seq<Attempt>, n: nat, p: nat)
    requires n <= |atts|
    requires forall k :: 0 <= k < n ==> atts[k].page < p
    requires forall k :: n <= k < |atts| ==> atts[k].page >= p
    ensures InPages(atts, 0, p) == atts[..n]
  {
    AllIn(atts, 0, n, 0, p);
    NoneIn(atts, n, |atts|, 0, p);
    assert atts == atts[0..n] + atts[n..|atts|];
    InPagesAppend(atts[0..n], atts[n..|atts|], 0, p);
  }

  /** The first page the loop did not process to the end, given how it ended. */
  function FirstUnfinished(e: Ending): nat {
    match e
    case NoResume => 0
    case Exhausted(p) => p
    case Crashed(MissingTitleLink(p)) => p
    case Crashed(DriverClosed(p)) => if p >= 1 then p - 1 else 0
  }

  /**
   Page `q`'s candidates, selected against the history as it stood when the
   page was reached (the loaded list plus the ids applied to on earlier pages).
   */
  function CandidatesOf(b: Browser, user0: seq<string>, atts: seq<Attempt>, q: nat): Option<seq<Job>> {
    Select(PageCards(b, q), user0 + AppliedIds(InPages(atts, 0, q)))
  }

  /** Page `q` was processed to the end: its attempts are exactly its accepted candidates, in order. */
  ghost predicate PageCompleted(b: Browser, keywords: seq<string>, blacklist: seq<string>, user0: seq<string>,
                                atts: seq<Attempt>, q: nat) {
    && CandidatesOf(b, user0, atts, q).Some?
    && JobsOf(InPages(atts, q, q + 1)) == Accepted(CandidatesOf(b, user0, atts, q).value, keywords, blacklist)
  }

  /** Page `q` was processed in order, possibly cut short: its attempts are a prefix of its accepted candidates. */
  ghost predicate PageStarted(b: Browser, keywords: seq<string>, blacklist: seq<string>, user0: seq<string>,
                              atts: seq<Attempt>, q: nat) {
    && CandidatesOf(b, user0, atts, q).Some?
    && JobsOf(InPages(atts, q, q + 1)) <= Accepted(CandidatesOf(b, user0, atts, q).value, keywords, blacklist)
  }

  /**
   The page loop, from page `p`, processes every page before the one it
   stopped at to the end, and the page where the daily limit was met up to
   that point.
   */
  ghost predicate CrawlComplete(b: Browser, keywords: seq<string>, blacklist: seq<string>, p: nat, r: Run,
                                user0: seq<string>) {
    && (forall q :: p <= q < FirstUnfinished(r.ending) ==>
          PageCompleted(b, keywords, blacklist, user0, r.state.attempts, q))
    && (r.ending.Crashed? && r.ending.crash.DriverClosed? && p < r.ending.crash.page ==>
          PageStarted(b, keywords, blacklist, user0, r.state.attempts, r.ending.crash.page - 1))
  }

  /**
   Page `p`, processed from `st`, seen in the final attempts `atts`: its
   attempts are the ones that processing made, the earlier pages' attempts are
   those of `st`, and its candidates are the ones selected from `st`.
   */
  lemma PageIdentified(b: Browser, keywords: seq<string>, blacklist: seq<string>, p: nat, st: State, user0: seq<string>,
                       jobs: seq<Job>, atts: seq<Attempt>)
    requires st.alive && CrawlReady(p, st, user0)
    requires Select(PageCards(b, p), st.user) == Some(jobs)
    requires var st1 := ProcessJobs(jobs, p, keywords, blacklist, b.submit, st);
      && st1.attempts <= atts
      && forall k :: |st1.attempts| <= k < |atts| ==> p + 1 <= atts[k].page
    ensures var st1 := ProcessJobs(jobs, p, keywords, blacklist, b.submit, st);
      && st.attempts <= st1.attempts
      && InPages(atts, p, p + 1) == st1.attempts[|st.attempts|..]
      && CandidatesOf(b, user0, atts, p) == Some(jobs)
  {
    var st1 := ProcessJobs(jobs, p, keywords, blacklist, b.submit, st);
    PageStep(b, keywords, blacklist, p, st, user0, jobs);
    var n, m := |st.attempts|, |st1.attempts|;
    forall k | 0 <= k < n
      ensures atts[k].page < p
    {
      assert atts[k] == st.attempts[k];
    }
    forall k | n <= k < m
      ensures atts[k].page == p
    {
      assert atts[k] == st1.attempts[k];
    }
    PageSlice(atts, n, m, p);
    PagesBefore(atts, n, p);
    assert atts[..n] == st.attempts;
    assert atts[n..m] == st1.attempts[n..];
  }

  /** One page's processing, seen in the final attempts: page `p` was started, and completed if the browser is still open. */
  lemma PageInRun(b: Browser, keywords: seq<string>, blacklist: seq<string>, p: nat, st: State, user0: seq<string>,
                  jobs: seq<Job>, atts: seq<Attempt>)
    requires st.alive && CrawlReady(p, st, user0)
    requires Select(PageCards(b, p), st.user) == Some(jobs)
    requires var st1 := ProcessJobs(jobs, p, keywords, blacklist, b.submit, st);
      && st1.attempts <= atts
      && forall k :: |st1.attempts| <= k < |atts| ==> p + 1 <= atts[k].page
    ensures PageStarted(b, keywords, blacklist, user0, atts, p)
    ensures ProcessJobs(jobs, p, keywords, blacklist, b.submit, st).alive ==>
      PageCompleted(b, keywords, blacklist, user0, atts, p)
  {
    PageIdentified(b, keywords, blacklist, p, st, user0, jobs, atts);
    ProcessJobsAttemptsAccepted(jobs, p, keywords, blacklist, b.submit, st);
  }

  lemma PageReady(b: Browser, keywords: seq<string>, blacklist: seq<string>, p: nat, st: State, user0: seq<string>,
                  jobs: seq<Job>)
    requires st.alive && CrawlReady(p, st, user0)
    requires Select(PageCards(b, p), st.user) == Some(jobs)
    ensures CrawlReady(p + 1, ProcessJobs(jobs, p, keywords, blacklist, b.submit, st), user0)
  {
    PageStep(b, keywords, blacklist, p, st, user0, jobs);
  }

  /** The loop from page `p` keeps the attempts it starts with and adds only attempts on page `p` or later. */
  lemma LaterPages(b: Browser, keywords: seq<string>, blacklist: seq<string>, p: nat, st: State, user0: seq<string>)
    requires CrawlReady(p, st, user0)
    ensures var r := Crawl(b, keywords, blacklist, p, st);
      && st.attempts <= r.state.attempts
      && forall k :: |st.attempts| <= k < |r.state.attempts| ==> p <= r.state.attempts[k].page
  {
    CrawlKeepsFacts(b, keywords, blacklist, p, st, user0);
  }

  /** The page loop completes every page it gets past, from page `p` on. */
  lemma {:induction false} CrawlKeepsComplete(b: Browser, keywords: seq<string>, blacklist: seq<string>, p: nat,
                                              st: State, user0: seq<string>)
    requires CrawlReady(p, st, user0)
    ensures CrawlComplete(b, keywords, blacklist, p, Crawl(b, keywords, blacklist, p, st), user0)
    decreases |b.pages| + 1 - p, 1
  {
    if st.alive && PageCards(b, p) != [] && Select(PageCards(b, p), st.user).Some? {
      CrawlPageComplete(b, keywords, blacklist, p, st, user0);
    } else {
      CompleteAtStop(b, keywords, blacklist, p, st, user0);
    }
  }

  /** The inductive step of `CrawlKeepsComplete`: page `p` has candidates and is processed. */
  lemma {:induction false} CrawlPageComplete(b: Browser, keywords: seq<string>, blacklist: seq<string>, p: nat,
                                             st: State, user0: seq<string>)
    requires CrawlReady(p, st, user0)
    requires st.alive && PageCards(b, p) != [] && Select(PageCards(b, p), st.user).Some?
    ensures CrawlComplete(b, keywords, blacklist, p, Crawl(b, keywords, blacklist, p, st), user0)
    decreases |b.pages| + 1 - p, 0
  {
    var jobs := Select(PageCards(b, p), st.user).value;
    CrawlUnfold(b, keywords, blacklist, p, st, jobs);
    PageReady(b, keywords, blacklist, p, st, user0, jobs);
    CrawlKeepsComplete(b, keywords, blacklist, p + 1, ProcessJobs(jobs, p, keywords, blacklist, b.submit, st), user0);
    CompleteStep(b, keywords, blacklist, p, st, user0, jobs);
  }

  /** Page `p` processed, and completeness from page `p + 1` on, give completeness from page `p` on. */
  lemma CompleteStep(b: Browser, keywords: seq<string>, blacklist: seq<string>, p: nat, st: State, user0: seq<string>,
                     jobs: seq<Job>)
    requires st.alive && CrawlReady(p, st, user0)
    requires Select(PageCards(b, p), st.user) == Some(jobs)
    requires var st1 := ProcessJobs(jobs, p, keywords, blacklist, b.submit, st);
      CrawlComplete(b, keywords, blacklist, p + 1, Crawl(b, keywords, blacklist, p + 1, st1), user0)
    ensures var st1 := ProcessJobs(jobs, p, keywords, blacklist, b.submit, st);
      CrawlComplete(b, keywords, blacklist, p, Crawl(b, keywords, blacklist, p + 1, st1), user0)
  {
    var st1 := ProcessJobs(jobs, p, keywords, blacklist, b.submit, st);
    var r := Crawl(b, keywords, blacklist, p + 1, st1);
    PageReady(b, keywords, blacklist, p, st, user0, jobs);
    LaterPages(b, keywords, blacklist, p + 1, st1, user0);
    PageInRun(b, keywords, blacklist, p, st, user0, jobs, r.state.attempts);
    if !st1.alive {
      assert r == Run(st1, Crashed(DriverClosed(p + 1)));
    }
    CompleteCarries(b, keywords, blacklist, p, r, user0, st1.alive);
  }

  /** Where the loop stops at page `p`, no page from `p` on was processed, and nothing is claimed of one. */
  lemma CompleteAtStop(b: Browser, keywords: seq<string>, blacklist: seq<string>, p: nat, st: State, user0: seq<string>)
    requires p >= 1
    requires !st.alive || PageCards(b, p) == [] || Select(PageCards(b, p), st.user).None?
    ensures CrawlComplete(b, keywords, blacklist, p, Crawl(b, keywords, blacklist, p, st), user0)
  {
    var r := Crawl(b, keywords, blacklist, p, st);
    assert FirstUnfinished(r.ending) <= p;
    assert r.ending.Crashed? && r.ending.crash.DriverClosed? ==> r.ending.crash.page == p;
  }

  /** Completeness from page `p + 1` on, and page `p` itself, give completeness from page `p` on. */
  lemma CompleteCarries(b: Browser, keywords: seq<string>, blacklist: seq<string>, p: nat, r: Run,
                        user0: seq<string>, alive: bool)
    requires CrawlComplete(b, keywords, blacklist, p + 1, r, user0)
    requires PageStarted(b, keywords, blacklist, user0, r.state.attempts, p)
    requires alive ==> PageCompleted(b, keywords, blacklist, user0, r.state.attempts, p)
    requires !alive ==> r.ending == Crashed(DriverClosed(p + 1))
    ensures CrawlComplete(b, keywords, blacklist, p, r, user0)
  {
  }

  // ---------------------------------------------------------------------------
  // No duplicate ids
  // ---------------------------------------------------------------------------

  /** Two attempts on the same page are for different ids. */
  ghost predicate SamePageDistinct(attempts: seq<Attempt>) {
    forall i, j :: 0 <= i < j < |attempts| && attempts[i].page == attempts[j].page ==>
      attempts[i].job.id != attempts[j].job.id
  }

  /** Every results page has distinct card ids. */
  ghost predicate PagesHaveDistinctIds(b: Browser) {
    forall q: nat :: DistinctCardIds(PageCards(b, q))
  }

  /** Attempts whose jobs are a prefix of a list with distinct ids have distinct ids. */
  lemma PrefixOfDistinct(attempts: seq<Attempt>, jobs: seq<Job>)
    requires JobsOf(attempts) <= jobs && DistinctJobIds(jobs)
    ensures forall i, j :: 0 <= i < j < |attempts| ==> attempts[i].job.id != attempts[j].job.id
  {
    forall i, j | 0 <= i < j < |attempts|
      ensures attempts[i].job.id != attempts[j].job.id
    {
      assert JobsOf(attempts)[i] == jobs[i] && JobsOf(attempts)[j] == jobs[j];
    }
  }

  lemma PageAttemptsDistinct(b: Browser, keywords: seq<string>, blacklist: seq<string>, p: nat, st: State,
                             user0: seq<string>, jobs: seq<Job>)
    requires st.alive && CrawlReady(p, st, user0) && SamePageDistinct(st.attempts)
    requires PagesHaveDistinctIds(b)
    requires Select(PageCards(b, p), st.user) == Some(jobs)
    ensures SamePageDistinct(ProcessJobs(jobs, p, keywords, blacklist, b.submit, st).attempts)
  {
    var st1 := ProcessJobs(jobs, p, keywords, blacklist, b.submit, st);
    PageStep(b, keywords, blacklist, p, st, user0, jobs);
    ProcessJobsAttemptsAccepted(jobs, p, keywords, blacklist, b.submit, st);
    assert DistinctCardIds(PageCards(b, p));
    SelectKeepsDistinct(PageCards(b, p), st.user);
    AcceptedKeepsDistinct(jobs, keywords, blacklist);
    var n := |st.attempts|;
    var as1 := st1.attempts;
    PrefixOfDistinct(as1[n..], Accepted(jobs, keywords, blacklist));
    forall i, j | 0 <= i < j < |as1| && as1[i].page == as1[j].page
      ensures as1[i].job.id != as1[j].job.id
    {
      if j < n {
        assert as1[i] == st.attempts[i] && as1[j] == st.attempts[j];
      } else if i >= n {
        assert as1[n..][i - n] == as1[i] && as1[n..][j - n] == as1[j];
      }
    }
  }

  /** On pages with distinct card ids, no page sees two attempts for one id. */
  lemma {:induction false} CrawlKeepsPagesDistinct(b: Browser, keywords: seq<string>, blacklist: seq<string>, p: nat,
                                                   st: State, user0: seq<string>)
    requires CrawlReady(p, st, user0) && SamePageDistinct(st.attempts)
    requires PagesHaveDistinctIds(b)
    ensures SamePageDistinct(Crawl(b, keywords, blacklist, p, st).state.attempts)
    decreases |b.pages| + 1 - p
  {
    if st.alive && PageCards(b, p) != [] && Select(PageCards(b, p), st.user).Some? {
      var jobs := Select(PageCards(b, p), st.user).value;
      var st1 := ProcessJobs(jobs, p, keywords, blacklist, b.submit, st);
      assert Crawl(b, keywords, blacklist, p, st) == Crawl(b, keywords, blacklist, p + 1, st1);
      PageStep(b, keywords, blacklist, p, st, user0, jobs);
      PageAttemptsDistinct(b, keywords, blacklist, p, st, user0, jobs);
      assert p <= |b.pages|;
      CrawlKeepsPagesDistinct(b, keywords, blacklist, p + 1, st1, user0);
    }
  }

  ghost predicate NoDuplicates(ids: seq<string>) {
    forall i, j :: 0 <= i < j < |ids| ==> ids[i] != ids[j]
  }

  /** The ids a run appends are new to the loaded history and pairwise distinct. */
  lemma {:induction false} AppliedIdsFresh(user0: seq<string>, attempts: seq<Attempt>)
    requires NeverResubmits(user0, attempts) && PagesOrdered(attempts) && SamePageDistinct(attempts)
    ensures NoDuplicates(AppliedIds(attempts))
    ensures forall x :: x in AppliedIds(attempts) ==> x !in user0
    decreases |attempts|
  {
    if attempts != [] {
      var n := |attempts| - 1;
      var init := attempts[..n];
      var last := attempts[n];
      assert NeverResubmits(user0, init) && PagesOrdered(init) && SamePageDistinct(init) by {
        forall k | 0 <= k < n ensures init[k] == attempts[k] { }
      }
      AppliedIdsFresh(user0, init);
      forall x | x in AppliedIds(init)
        ensures x != last.job.id && x !in user0
      {
        AppliedIdsFromAttempts(init, x);
        var i :| 0 <= i < n && init[i].outcome.Applied? && init[i].job.id == x;
        assert init[i] == attempts[i];
      }
      var ids := AppliedIds(attempts);
      forall i, j | 0 <= i < j < |ids|
        ensures ids[i] != ids[j]
      {
        if j >= |AppliedIds(init)| {
          assert ids[i] in AppliedIds(init);
        }
      }
    }
  }

  /** Appending ids that are new and distinct to a history without duplicates leaves no duplicates. */
  lemma NoDuplicatesAppend(user0: seq<string>, added: seq<string>)
    requires NoDuplicates(user0) && NoDuplicates(added)
    requires forall x :: x in added ==> x !in user0
    ensures NoDuplicates(user0 + added)
  {
    var all := user0 + added;
    forall i, j | 0 <= i < j < |all|
      ensures all[i] != all[j]
    {
      if i < |user0| && j >= |user0| {
        assert all[j] in added;
      }
    }
  }
}
