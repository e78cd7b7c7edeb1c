/**
 What one call of `apply_to_dice` guarantees, for every browser behaviour:
 the history only grows, by exactly the ids of successful submissions; every
 submission is followed by a history write unless the daily limit cut it
 short; only candidates whose titles pass the filter are submitted, and every
 one of them on each page the run gets past is; each submission is logged
 with the site's answer; no id already known is submitted again; the daily
 limit ends the run; the run ends normally only at a page without cards; and
 a missing resume stops the run before anything happens.
 */
module RunProperties {
  import opened Wrappers
  import opened Text
  import opened TitleFilter
  import opened Cards
  import opened History
  import opened Session
  import opened SessionFacts
  import opened LogFacts

  /** The run's invariants, from the first page to the end. */
  lemma RunFacts(history: map<string, seq<string>>, username: string, keywords: string, blacklist: string,
                 hasResume: bool, b: Browser)
    requires hasResume
    ensures var r := ApplyToDice(history, username, keywords, blacklist, hasResume, b);
      && r == Crawl(b, KeywordTokens(keywords), BlacklistTokens(blacklist), 1, InitialState(history, username, b))
      && CrawlFacts(b, KeywordTokens(keywords), BlacklistTokens(blacklist), 1, InitialState(history, username, b), r,
                    UserHistory(history, username))
  {
    var st := InitialState(history, username, b);
    assert CrawlReady(1, st, UserHistory(history, username));
    CrawlKeepsFacts(b, KeywordTokens(keywords), BlacklistTokens(blacklist), 1, st, UserHistory(history, username));
  }

  /** The run's bookkeeping invariant, on its own. */
  lemma RunConsistent(history: map<string, seq<string>>, username: string, keywords: string, blacklist: string,
                      hasResume: bool, b: Browser)
    requires hasResume
    ensures Consistent(UserHistory(history, username), ApplyToDice(history, username, keywords, blacklist, hasResume, b).state)
  {
    RunFacts(history, username, keywords, blacklist, hasResume, b);
  }

  /** Without a resume the run returns the resume error at once: no attempt, no write, history file untouched. */
  lemma MissingResumeStopsRun(history: map<string, seq<string>>, username: string, keywords: string, blacklist: string,
                              hasResume: bool, b: Browser)
    ensures var r := ApplyToDice(history, username, keywords, blacklist, hasResume, b);
      && (r.ending == NoResume <==> !hasResume)
      && (!hasResume ==>
            && r.state.attempts == [] && r.state.writes == [] && r.state.log == []
            && Reply(r) == Some(ResumeError)
            && DurableHistory(history, username, r) == history)
  {
    if hasResume {
      RunFacts(history, username, keywords, blacklist, hasResume, b);
    }
  }

  /**
   The user's history only grows by appending: the final list is the loaded
   list followed by the ids of the successful submissions, in order.
   */
  lemma HistoryAppendOnly(history: map<string, seq<string>>, username: string, keywords: string, blacklist: string,
                          hasResume: bool, b: Browser)
    ensures var r := ApplyToDice(history, username, keywords, blacklist, hasResume, b);
      && r.state.user == UserHistory(history, username) + AppliedIds(r.state.attempts)
      && UserHistory(history, username) <= r.state.user
  {
    if hasResume {
      RunFacts(history, username, keywords, blacklist, hasResume, b);
    }
  }

  lemma {:induction false} AppliedIdsGrow(attempts: seq<Attempt>, i: nat, j: nat)
    requires i <= j <= |attempts|
    ensures AppliedIds(attempts[..i]) <= AppliedIds(attempts[..j])
    decreases j - i
  {
    if i < j {
      AppliedIdsGrow(attempts, i, j - 1);
      assert attempts[..j] == attempts[..j - 1] + [attempts[j - 1]];
      AppliedIdsSnoc(attempts[..j - 1], attempts[j - 1]);
    }
  }

  /**
   History writes: the k-th write holds the loaded list plus the ids of the
   successful submissions among the first k+1 attempts, so each write extends
   the previous one; there is one write per attempt, except the attempt that
   met the daily limit.
   */
  lemma WritesFollowSubmissions(history: map<string, seq<string>>, username: string, keywords: string, blacklist: string,
                                hasResume: bool, b: Browser)
    ensures var r := ApplyToDice(history, username, keywords, blacklist, hasResume, b);
      var user0 := UserHistory(history, username);
      && |r.state.writes| <= |r.state.attempts|
      && (forall k :: 0 <= k < |r.state.writes| ==>
            r.state.writes[k] == user0 + AppliedIds(r.state.attempts[..k + 1]))
      && (forall i, j :: 0 <= i <= j < |r.state.writes| ==> r.state.writes[i] <= r.state.writes[j])
      && ((forall k :: 0 <= k < |r.state.attempts| ==> !r.state.attempts[k].outcome.DailyLimit?) ==>
            |r.state.writes| == |r.state.attempts|)
      && ((exists k :: 0 <= k < |r.state.attempts| && r.state.attempts[k].outcome.DailyLimit?) ==>
            |r.state.writes| == |r.state.attempts| - 1)
  {
    if hasResume {
      RunConsistent(history, username, keywords, blacklist, hasResume, b);
      var r := ApplyToDice(history, username, keywords, blacklist, hasResume, b);
      forall i, j | 0 <= i <= j < |r.state.writes|
        ensures r.state.writes[i] <= r.state.writes[j]
      {
        AppliedIdsGrow(r.state.attempts, i + 1, j + 1);
      }
    }
  }

  /**
   Every submission attempt is for a candidate of its page (a card with that
   title link and no "applied" ribbon) whose id is not in the loaded history
   and whose title passed the filter; the site's answers are used in order.
   */
  lemma OnlyFilteredCandidatesSubmitted(history: map<string, seq<string>>, username: string, keywords: string,
                                        blacklist: string, hasResume: bool, b: Browser)
    ensures var r := ApplyToDice(history, username, keywords, blacklist, hasResume, b);
      forall k :: 0 <= k < |r.state.attempts| ==>
        && Legitimate(b, KeywordTokens(keywords), BlacklistTokens(blacklist), r.state.attempts[k], k)
        && r.state.attempts[k].job.id !in UserHistory(history, username)
  {
    if hasResume {
      RunFacts(history, username, keywords, blacklist, hasResume, b);
    }
  }

  /**
   No id is submitted twice across pages: an id in the loaded history is never
   submitted, and an id applied to on one page is never submitted on a later
   page. Pages are processed in increasing order.
   */
  lemma NoResubmissionAcrossPages(history: map<string, seq<string>>, username: string, keywords: string,
                                  blacklist: string, hasResume: bool, b: Browser)
    ensures var r := ApplyToDice(history, username, keywords, blacklist, hasResume, b);
      && NeverResubmits(UserHistory(history, username), r.state.attempts)
      && PagesOrdered(r.state.attempts)
  {
    if hasResume {
      RunFacts(history, username, keywords, blacklist, hasResume, b);
    }
  }

  /**
   Every candidate that passes the filter is submitted. Each page before the
   one where the run stopped was processed to the end: its attempts are
   exactly its accepted candidates, in order, selected against the loaded
   history plus the ids applied to on earlier pages. On the page where the
   daily limit was met the attempts are a prefix of those candidates. A run
   that returns its log processed every page before the empty one.
   */
  lemma AcceptedCandidatesSubmitted(history: map<string, seq<string>>, username: string, keywords: string,
                                    blacklist: string, hasResume: bool, b: Browser)
    ensures var r := ApplyToDice(history, username, keywords, blacklist, hasResume, b);
      var k, bl, user0 := KeywordTokens(keywords), BlacklistTokens(blacklist), UserHistory(history, username);
      && (forall q :: 1 <= q < FirstUnfinished(r.ending) ==> PageCompleted(b, k, bl, user0, r.state.attempts, q))
      && (r.ending.Crashed? && r.ending.crash.DriverClosed? && r.ending.crash.page >= 2 ==>
            PageStarted(b, k, bl, user0, r.state.attempts, r.ending.crash.page - 1))
      && (r.ending.Exhausted? ==>
            forall q :: 1 <= q < r.ending.page ==> PageCompleted(b, k, bl, user0, r.state.attempts, q))
  {
    var r := ApplyToDice(history, username, keywords, blacklist, hasResume, b);
    var k, bl, user0 := KeywordTokens(keywords), BlacklistTokens(blacklist), UserHistory(history, username);
    if hasResume {
      var st := InitialState(history, username, b);
      assert CrawlReady(1, st, user0);
      CrawlKeepsComplete(b, k, bl, 1, st, user0);
      assert CrawlComplete(b, k, bl, 1, r, user0);
    } else {
      assert r.ending == NoResume;
    }
    assert r.ending.Exhausted? ==> FirstUnfinished(r.ending) == r.ending.page;
  }


  /**
   Every submission is reported in the log the run keeps: the job's
   "Processing" line is directly followed by "applied" after a success,
   "failed" with the site's error text after a failure, or the daily-limit
   line, according to the site's answer to that attempt.
   */
  lemma EveryAttemptLogged(history: map<string, seq<string>>, username: string, keywords: string, blacklist: string,
                           hasResume: bool, b: Browser)
    ensures var r := ApplyToDice(history, username, keywords, blacklist, hasResume, b);
      forall k :: 0 <= k < |r.state.attempts| ==>
        && r.state.attempts[k].outcome == b.submit(k)
        && Logged(r.state.log, r.state.attempts[k])
  {
    if hasResume {
      RunFacts(history, username, keywords, blacklist, hasResume, b);
      CrawlKeepsLogged(b, KeywordTokens(keywords), BlacklistTokens(blacklist), 1, InitialState(history, username, b));
    }
  }

  /**
   The log the run returns is exactly what happened: it starts with the login
   line ("logged in" iff the login form was found, otherwise the login error),
   then holds, page by page from page 1, each candidate's "Processing" line
   followed by its skip reason or by the site's answer to its attempt, and ends
   with the line reporting the first page without cards.
   */
  lemma ReturnedLogIsWhole(history: map<string, seq<string>>, username: string, keywords: string, blacklist: string,
                           hasResume: bool, b: Browser)
    ensures var r := ApplyToDice(history, username, keywords, blacklist, hasResume, b);
      var k, bl, user0 := KeywordTokens(keywords), BlacklistTokens(blacklist), UserHistory(history, username);
      && (hasResume ==>
            && |r.state.log| > 0
            && (r.state.log[0] == LoggedIn <==> b.login.None?)
            && (b.login.Some? ==> r.state.log[0] == LoginFailed(b.login.value)))
      && (r.ending.Exhausted? ==>
            r.state.log == [LoginEntry(b)] + PagesLog(b, k, bl, user0, r.state.attempts, 1, r.ending.page)
                           + [NoJobsOnPage(r.ending.page, b.noCardsError)])
  {
    var r := ApplyToDice(history, username, keywords, blacklist, hasResume, b);
    var k, bl, user0 := KeywordTokens(keywords), BlacklistTokens(blacklist), UserHistory(history, username);
    if hasResume {
      var st := InitialState(history, username, b);
      assert CrawlReady(1, st, user0);
      assert st.log == [LoginEntry(b)];
      RunFacts(history, username, keywords, blacklist, hasResume, b);
      CrawlLog(b, k, bl, 1, st, user0);
      assert r.state.log[0] == st.log[0];
    }
  }

  /**
   When every page lists each id at most once, a history without duplicates
   stays without duplicates.
   */
  lemma HistoryStaysDuplicateFree(history: map<string, seq<string>>, username: string, keywords: string,
                                  blacklist: string, hasResume: bool, b: Browser)
    requires NoDuplicates(UserHistory(history, username))
    requires PagesHaveDistinctIds(b)
    ensures NoDuplicates(ApplyToDice(history, username, keywords, blacklist, hasResume, b).state.user)
  {
    var r := ApplyToDice(history, username, keywords, blacklist, hasResume, b);
    var user0 := UserHistory(history, username);
    if hasResume {
      RunFacts(history, username, keywords, blacklist, hasResume, b);
      var st := InitialState(history, username, b);
      CrawlKeepsPagesDistinct(b, KeywordTokens(keywords), BlacklistTokens(blacklist), 1, st, user0);
      AppliedIdsFresh(user0, r.state.attempts);
      NoDuplicatesAppend(user0, AppliedIds(r.state.attempts));
    } else {
      assert r.state.user == user0;
    }
  }

  /**
   Meeting the daily limit ends the run: it is the last attempt, it gets no
   history write, it is the last log line, and the next page fetch fails on
   the closed browser, so no text is returned. Conversely the run only fails
   that way after the daily limit.
   */
  lemma DailyLimitEndsRun(history: map<string, seq<string>>, username: string, keywords: string, blacklist: string,
                          hasResume: bool, b: Browser)
    ensures var r := ApplyToDice(history, username, keywords, blacklist, hasResume, b);
      var n := |r.state.attempts|;
      && ((exists k :: 0 <= k < n && r.state.attempts[k].outcome.DailyLimit?) <==>
            r.ending.Crashed? && r.ending.crash.DriverClosed?)
      && (forall k :: 0 <= k < n && r.state.attempts[k].outcome.DailyLimit? ==>
            && k == n - 1
            && |r.state.writes| == n - 1
            && r.ending == Crashed(DriverClosed(r.state.attempts[k].page + 1))
            && |r.state.log| > 0 && r.state.log[|r.state.log| - 1] == DailyLimitReached
            && Reply(r) == None)
  {
    if hasResume {
      RunFacts(history, username, keywords, blacklist, hasResume, b);
    }
  }

  /**
   The run returns its log only after reaching a page with no cards, having
   found cards on every page before it; the last log line reports that page.
   A run that fails on a card without a title link had such a card on that page.
   */
  lemma RunEndsAtEmptyPage(history: map<string, seq<string>>, username: string, keywords: string, blacklist: string,
                           hasResume: bool, b: Browser)
    ensures var r := ApplyToDice(history, username, keywords, blacklist, hasResume, b);
      && (r.ending.Exhausted? ==>
            && PageCards(b, r.ending.page) == []
            && (forall q :: 1 <= q < r.ending.page ==> PageCards(b, q) != [])
            && |r.state.log| > 0 && r.state.log[|r.state.log| - 1] == NoJobsOnPage(r.ending.page, b.noCardsError)
            && Reply(r).Some?)
      && (r.ending.Crashed? && r.ending.crash.MissingTitleLink? ==>
            exists i :: 0 <= i < |PageCards(b, r.ending.crash.page)| &&
                        PageCards(b, r.ending.crash.page)[i].link.None?)
  {
    if hasResume {
      RunFacts(history, username, keywords, blacklist, hasResume, b);
    }
  }

  /**
   The history file after the run holds, for this user, exactly the in-memory
   history (the last write carries every successful id); other users' entries
   are as loaded.
   */
  lemma DurableHistoryMatchesRun(history: map<string, seq<string>>, username: string, keywords: string,
                                 blacklist: string, hasResume: bool, b: Browser)
    ensures var r := ApplyToDice(history, username, keywords, blacklist, hasResume, b);
      var h := DurableHistory(history, username, r);
      && UserHistory(h, username) == r.state.user
      && (forall u :: u != username ==> (u in h <==> u in history))
      && (forall u :: u != username && u in history ==> h[u] == history[u])
  {
    var r := ApplyToDice(history, username, keywords, blacklist, hasResume, b);
    var user0 := UserHistory(history, username);
    if hasResume {
      RunConsistent(history, username, keywords, blacklist, hasResume, b);
      var atts := r.state.attempts;
      var w := r.state.writes;
      if w == [] {
        if atts != [] {
          assert atts == atts[..0] + [atts[0]];
          AppliedIdsSnoc(atts[..0], atts[0]);
        }
      } else {
        assert w[|w| - 1] == user0 + AppliedIds(atts[..|w|]);
        if r.state.alive {
          assert atts[..|w|] == atts;
        } else {
          assert atts == atts[..|w|] + [atts[|w|]];
          AppliedIdsSnoc(atts[..|w|], atts[|w|]);
        }
      }
    }
  }

  /**
   The returned text, read line by line, is the rendered log with each entry
   split at its own line breaks (a job title or an error text may hold some);
   when no entry holds one, the lines are exactly the rendered entries.
   */
  lemma ReplyLinesAreLog(history: map<string, seq<string>>, username: string, keywords: string, blacklist: string,
                         hasResume: bool, b: Browser)
    ensures var r := ApplyToDice(history, username, keywords, blacklist, hasResume, b);
      r.ending.Exhausted? ==> SplitOn(Reply(r).value, '\n') == SplitAll(RenderAll(r.state.log), '\n')
    ensures var r := ApplyToDice(history, username, keywords, blacklist, hasResume, b);
      r.ending.Exhausted? && (forall i :: 0 <= i < |r.state.log| ==> '\n' !in Render(r.state.log[i])) ==>
        SplitOn(Reply(r).value, '\n') == RenderAll(r.state.log)
  {
    var r := ApplyToDice(history, username, keywords, blacklist, hasResume, b);
    if hasResume && r.ending.Exhausted? {
      RunFacts(history, username, keywords, blacklist, hasResume, b);
      var lines := RenderAll(r.state.log);
      SplitJoinAll(lines, '\n');
      if forall i :: 0 <= i < |r.state.log| ==> '\n' !in Render(r.state.log[i]) {
        SplitAllPlain(lines, '\n');
      }
    }
  }
}
