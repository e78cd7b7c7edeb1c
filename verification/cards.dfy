/**
 Candidate selection on one results page. Each search card carries a title
 link (its `id`, visible text and `href`) and, optionally, a ribbon. A card
 is kept unless its id is already in the user's history or its ribbon reads
 exactly "applied"; kept cards stay in page order. A card without a title
 link makes the whole selection fail, because that lookup is not guarded.
 */
module Cards {
  import opened Wrappers

  /** The `a.card-title-link` element of a card. */
  datatype Link = Link(id: string, text: string, href: string)

  /** One `div.search-card`: its title link and its `span.ribbon-inner` text, either of which may be absent. */
  datatype Card = Card(link: Option<Link>, ribbon: Option<string>)

  /** A candidate job: id, title and url, as taken from the title link. */
  datatype Job = Job(id: string, title: string, url: string)

  /** The ribbon text the site shows on postings the user already applied to. */
  const AppliedRibbon: string := "applied"

  function JobOf(l: Link): Job {
    Job(l.id, l.text, l.href)
  }

  /** A card survives selection: it has a link, its id is not in the history and it is not ribboned "applied". */
  predicate Kept(c: Card, history: seq<string>) {
    c.link.Some? && c.link.value.id !in history && c.ribbon != Some(AppliedRibbon)
  }

  /**
   The candidates of one page, or None when some card has no title link.
   Every candidate's id is outside the history it was selected against.
   */
  function Select(cards: seq<Card>, history: seq<string>): (r: Option<seq<Job>>)
    ensures r.None? <==> exists i :: 0 <= i < |cards| && cards[i].link.None?
    ensures r.Some? ==> forall k :: 0 <= k < |r.value| ==> r.value[k].id !in history
  {
    if cards == [] then Some([])
    else match cards[0].link
      case None => None
      case Some(l) =>
        var rest := Select(cards[1..], history);
        if rest.None? then
          assert cards[1..][0] == cards[1];
          None
        else if Kept(cards[0], history) then Some([JobOf(l)] + rest.value)
        else rest
  }

  /**
   `jobs` is exactly the kept cards of `cards`, in page order: `idx` maps each
   job to the strictly increasing position of the card it came from, and every
   kept card is hit.
   */
  ghost predicate IsSelection(cards: seq<Card>, history: seq<string>, jobs: seq<Job>, idx: seq<nat>) {
    && |idx| == |jobs|
    && (forall k :: 0 <= k < |idx| ==> idx[k] < |cards|)
    && (forall k, m :: 0 <= k < m < |idx| ==> idx[k] < idx[m])
    && (forall k :: 0 <= k < |idx| ==> Kept(cards[idx[k]], history) && jobs[k] == JobOf(cards[idx[k]].link.value))
    && (forall i :: 0 <= i < |cards| && Kept(cards[i], history) ==> i in idx)
  }

  function Shift(idx: seq<nat>): seq<nat> {
    seq(|idx|, k requires 0 <= k < |idx| => idx[k] + 1)
  }

  /** Positions in the tail, shifted by one, still pick the same jobs out of the whole page. */
  lemma ShiftedPicks(cards: seq<Card>, history: seq<string>, jobs: seq<Job>, idx: seq<nat>)
    requires |cards| > 0
    requires IsSelection(cards[1..], history, jobs, idx)
    ensures |Shift(idx)| == |jobs|
    ensures forall k :: 0 <= k < |idx| ==>
      && 1 <= Shift(idx)[k] < |cards|
      && Kept(cards[Shift(idx)[k]], history)
      && jobs[k] == JobOf(cards[Shift(idx)[k]].link.value)
    ensures forall k, m :: 0 <= k < m < |idx| ==> Shift(idx)[k] < Shift(idx)[m]
  {
    forall k | 0 <= k < |idx|
      ensures Shift(idx)[k] < |cards| && cards[Shift(idx)[k]] == cards[1..][idx[k]]
    {
    }
  }

  /** Every kept card after the first is hit by the shifted positions. */
  lemma ShiftedHits(cards: seq<Card>, history: seq<string>, jobs: seq<Job>, idx: seq<nat>)
    requires |cards| > 0
    requires IsSelection(cards[1..], history, jobs, idx)
    ensures forall i :: 1 <= i < |cards| && Kept(cards[i], history) ==> i in Shift(idx)
  {
    var s := Shift(idx);
    forall i | 1 <= i < |cards| && Kept(cards[i], history)
      ensures i in s
    {
      assert cards[1..][i - 1] == cards[i];
      var k :| 0 <= k < |idx| && idx[k] == i - 1;
      assert s[k] == i;
    }
  }

  /** A skipped first card leaves the tail's selection, shifted, as the page's selection. */
  lemma SelectionOfTailSkipped(cards: seq<Card>, history: seq<string>, jobs: seq<Job>, idx: seq<nat>)
    requires |cards| > 0 && !Kept(cards[0], history)
    requires IsSelection(cards[1..], history, jobs, idx)
    ensures IsSelection(cards, history, jobs, Shift(idx))
  {
    ShiftedPicks(cards, history, jobs, idx);
    ShiftedHits(cards, history, jobs, idx);
  }

  /** Positions that select `jobs` from the cards after a kept first card extend to the whole page. */
  lemma ConsSelection(cards: seq<Card>, history: seq<string>, jobs: seq<Job>, s: seq<nat>)
    requires |cards| > 0 && Kept(cards[0], history)
    requires |s| == |jobs|
    requires forall k :: 0 <= k < |s| ==>
      1 <= s[k] < |cards| && Kept(cards[s[k]], history) && jobs[k] == JobOf(cards[s[k]].link.value)
    requires forall k, m :: 0 <= k < m < |s| ==> s[k] < s[m]
    requires forall i :: 1 <= i < |cards| && Kept(cards[i], history) ==> i in s
    ensures IsSelection(cards, history, [JobOf(cards[0].link.value)] + jobs, [0] + s)
  {
    var s' := [0] + s;
    var jobs' := [JobOf(cards[0].link.value)] + jobs;
    forall k | 0 <= k < |s'|
      ensures s'[k] < |cards| && Kept(cards[s'[k]], history) && jobs'[k] == JobOf(cards[s'[k]].link.value)
    {
      if k > 0 {
        assert s'[k] == s[k - 1] && jobs'[k] == jobs[k - 1];
      }
    }
    forall k, m | 0 <= k < m < |s'|
      ensures s'[k] < s'[m]
    {
      assert s'[m] == s[m - 1];
      if k > 0 {
        assert s'[k] == s[k - 1];
      }
    }
    forall i | 0 <= i < |cards| && Kept(cards[i], history)
      ensures i in s'
    {
      if i > 0 {
        assert i in s;
      }
    }
  }

  /** A kept first card is prepended to the tail's selection, shifted. */
  lemma SelectionOfTailKept(cards: seq<Card>, history: seq<string>, jobs: seq<Job>, idx: seq<nat>)
    requires |cards| > 0 && Kept(cards[0], history)
    requires IsSelection(cards[1..], history, jobs, idx)
    ensures IsSelection(cards, history, [JobOf(cards[0].link.value)] + jobs, [0] + Shift(idx))
  {
    ShiftedPicks(cards, history, jobs, idx);
    ShiftedHits(cards, history, jobs, idx);
    ConsSelection(cards, history, jobs, Shift(idx));
  }

  /** Selection keeps exactly the kept cards, in page order. */
  lemma {:induction false} SelectIsOrderedFilter(cards: seq<Card>, history: seq<string>)
    requires Select(cards, history).Some?
    ensures exists idx :: IsSelection(cards, history, Select(cards, history).value, idx)
    decreases |cards|
  {
    if cards == [] {
      assert IsSelection(cards, history, [], []);
    } else {
      SelectIsOrderedFilter(cards[1..], history);
      var rest := Select(cards[1..], history).value;
      var idx :| IsSelection(cards[1..], history, rest, idx);
      if Kept(cards[0], history) {
        SelectionOfTailKept(cards, history, rest, idx);
      } else {
        SelectionOfTailSkipped(cards, history, rest, idx);
      }
    }
  }

  /** No two cards with a title link share an id. */
  ghost predicate DistinctCardIds(cards: seq<Card>) {
    forall i, j :: 0 <= i < j < |cards| && cards[i].link.Some? && cards[j].link.Some? ==>
      cards[i].link.value.id != cards[j].link.value.id
  }

  /** No two jobs share an id. */
  ghost predicate DistinctJobIds(jobs: seq<Job>) {
    forall k, m :: 0 <= k < m < |jobs| ==> jobs[k].id != jobs[m].id
  }

  /** A page whose cards have distinct ids yields candidates with distinct ids. */
  lemma SelectKeepsDistinct(cards: seq<Card>, history: seq<string>)
    requires DistinctCardIds(cards)
    requires Select(cards, history).Some?
    ensures DistinctJobIds(Select(cards, history).value)
  {
    SelectIsOrderedFilter(cards, history);
    var jobs := Select(cards, history).value;
    var idx :| IsSelection(cards, history, jobs, idx);
    forall k, m | 0 <= k < m < |jobs|
      ensures jobs[k].id != jobs[m].id
    {
      assert idx[k] < idx[m];
    }
  }

  /** Every candidate is the job of a kept card of the page. */
  lemma SelectedJobFromCard(cards: seq<Card>, history: seq<string>, j: Job)
    requires Select(cards, history).Some? && j in Select(cards, history).value
    ensures exists i :: 0 <= i < |cards| && Kept(cards[i], history) && j == JobOf(cards[i].link.value)
  {
    SelectIsOrderedFilter(cards, history);
    var jobs := Select(cards, history).value;
    var idx :| IsSelection(cards, history, jobs, idx);
    var k :| 0 <= k < |jobs| && jobs[k] == j;
    assert Kept(cards[idx[k]], history);
  }
}
