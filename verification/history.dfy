/**
 The per-user application history (a map from username to the ids applied
 to, in order) and its text rendering for the history view.
 */
module History {
  import opened Text

  /** `history.get(username, [])`. */
  function UserHistory(history: map<string, seq<string>>, username: string): seq<string> {
    if username in history then history[username] else []
  }

  const NoHistoryMessage: string := "No application history found for this user."

  /** First line of a non-empty history view. */
  function Header(n: nat): string {
    "Applied to " + NatToString(n) + " jobs:"
  }

  /**
   `view_history`: a fixed message when the user has no ids, otherwise a count
   line followed by one id per line.
   */
  function ViewHistory(history: map<string, seq<string>>, username: string): (r: string)
    ensures r == NoHistoryMessage <==> UserHistory(history, username) == []
  {
    var ids := UserHistory(history, username);
    if ids == [] then NoHistoryMessage
    else
      var r := Header(|ids|) + "\n" + Join(ids, "\n");
      assert r[0] != NoHistoryMessage[0];
      r
  }

  lemma HeaderHasNoNewline(n: nat)
    ensures '\n' !in Header(n)
  {
    var d := NatToString(n);
    assert Header(n) == "Applied to " + d + " jobs:";
    forall i | 0 <= i < |d|
      ensures d[i] != '\n'
    {
      assert IsDigit(d[i]);
    }
  }

  /**
   A non-empty view reads back line by line as the count line followed by the
   ids in history order (ids without line breaks), and the count line's number
   is the number of ids.
   */
  lemma ViewHistoryLines(history: map<string, seq<string>>, username: string)
    requires UserHistory(history, username) != []
    requires forall k :: 0 <= k < |UserHistory(history, username)| ==> '\n' !in UserHistory(history, username)[k]
    ensures SplitOn(ViewHistory(history, username), '\n') ==
      [Header(|UserHistory(history, username)|)] + UserHistory(history, username)
    ensures ParseNat(NatToString(|UserHistory(history, username)|)) == |UserHistory(history, username)|
  {
    var ids := UserHistory(history, username);
    var lines := [Header(|ids|)] + ids;
    HeaderHasNoNewline(|ids|);
    assert lines[1..] == ids;
    assert Join(lines, "\n") == Header(|ids|) + "\n" + Join(ids, "\n");
    SplitJoinRoundTrip(lines, '\n');
    NatToStringRoundTrip(|ids|);
  }
}
