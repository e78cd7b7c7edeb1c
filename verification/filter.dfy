/**
 The title filter of the application engine: a job title must mention every
 keyword and no blacklisted word, case-insensitively and as plain substrings
 (not as whole words). The keyword check is made first, so a title that
 misses a keyword is reported as such even when it is also blacklisted.
 */
module TitleFilter {
  import opened Text

  /** Why a title was kept or skipped; one log line per outcome. */
  datatype Verdict = Accept | MissingKeywords | Blacklisted

  /** `word.lower() in title.lower()`, computed. */
  function Mentions(title: string, word: string): bool {
    Contains(Lower(title), Lower(word))
  }

  /** Reference meaning of `word.lower() in title.lower()`: an occurrence at some offset. */
  ghost predicate MentionsSpec(title: string, word: string) {
    IsSubstring(Lower(word), Lower(title))
  }

  /** `all(kw.lower() in title.lower() for kw in words)`. */
  function MentionsAll(title: string, words: seq<string>): bool {
    if words == [] then true else Mentions(title, words[0]) && MentionsAll(title, words[1..])
  }

  /** `any(kw.lower() in title.lower() for kw in words)`. */
  function MentionsAny(title: string, words: seq<string>): bool {
    if words == [] then false else Mentions(title, words[0]) || MentionsAny(title, words[1..])
  }

  /** The filter: keyword check first, then the blacklist. */
  function Check(title: string, keywords: seq<string>, blacklist: seq<string>): Verdict {
    if !MentionsAll(title, keywords) then MissingKeywords
    else if MentionsAny(title, blacklist) then Blacklisted
    else Accept
  }

  lemma MentionsMeaning(title: string, word: string)
    ensures Mentions(title, word) <==> MentionsSpec(title, word)
  {
    ContainsIsSubstring(Lower(title), Lower(word));
  }

  lemma {:induction false} MentionsAllMeaning(title: string, words: seq<string>)
    ensures MentionsAll(title, words) <==> forall k :: 0 <= k < |words| ==> MentionsSpec(title, words[k])
    decreases |words|
  {
    if words != [] {
      MentionsMeaning(title, words[0]);
      MentionsAllMeaning(title, words[1..]);
      assert forall k :: 1 <= k < |words| ==> words[k] == words[1..][k - 1];
    }
  }

  lemma {:induction false} MentionsAnyMeaning(title: string, words: seq<string>)
    ensures MentionsAny(title, words) <==> exists k :: 0 <= k < |words| && MentionsSpec(title, words[k])
    decreases |words|
  {
    if words != [] {
      MentionsMeaning(title, words[0]);
      MentionsAnyMeaning(title, words[1..]);
      if exists k :: 0 <= k < |words| && MentionsSpec(title, words[k]) {
        var k :| 0 <= k < |words| && MentionsSpec(title, words[k]);
        if k > 0 {
          assert words[1..][k - 1] == words[k];
        }
      }
      if MentionsAny(title, words[1..]) {
        var k :| 0 <= k < |words[1..]| && MentionsSpec(title, words[1..][k]);
        assert words[k + 1] == words[1..][k];
      }
    }
  }

  /**
   The filter's exact characterisation: a title is accepted iff every keyword
   occurs in it and no blacklisted word does; it is reported as missing keywords
   iff some keyword is absent (whatever the blacklist); and as blacklisted iff
   all keywords occur and some blacklisted word does too.
   */
  lemma CheckMeaning(title: string, keywords: seq<string>, blacklist: seq<string>)
    ensures Check(title, keywords, blacklist) == Accept <==>
      (forall k :: 0 <= k < |keywords| ==> MentionsSpec(title, keywords[k])) &&
      (forall b :: 0 <= b < |blacklist| ==> !MentionsSpec(title, blacklist[b]))
    ensures Check(title, keywords, blacklist) == MissingKeywords <==>
      exists k :: 0 <= k < |keywords| && !MentionsSpec(title, keywords[k])
    ensures Check(title, keywords, blacklist) == Blacklisted <==>
      (forall k :: 0 <= k < |keywords| ==> MentionsSpec(title, keywords[k])) &&
      (exists b :: 0 <= b < |blacklist| && MentionsSpec(title, blacklist[b]))
  {
    MentionsAllMeaning(title, keywords);
    MentionsAnyMeaning(title, blacklist);
  }

  /** With no keywords the keyword check passes vacuously; only the blacklist can reject. */
  lemma EmptyKeywordsPass(title: string, blacklist: seq<string>)
    ensures Check(title, [], blacklist) != MissingKeywords
    ensures Check(title, [], blacklist) == Accept <==>
      forall b :: 0 <= b < |blacklist| ==> !MentionsSpec(title, blacklist[b])
  {
    CheckMeaning(title, [], blacklist);
  }

  /** Case does not matter: titles that lowercase alike get the same verdict. */
  lemma {:induction false} CheckIgnoresCase(t1: string, t2: string, keywords: seq<string>, blacklist: seq<string>)
    requires Lower(t1) == Lower(t2)
    ensures Check(t1, keywords, blacklist) == Check(t2, keywords, blacklist)
  {
    CheckMeaning(t1, keywords, blacklist);
    CheckMeaning(t2, keywords, blacklist);
  }

  /** "Senior Python Engineer" against keywords "python engineer" and blacklist "senior". */
  lemma BlacklistedScenario()
    ensures Check("Senior Python Engineer", ["python", "engineer"], ["senior"]) == Blacklisted
  {
    var title := "Senior Python Engineer";
    var keywords := ["python", "engineer"];
    var blacklist := ["senior"];
    var t := "senior python engineer";
    LowerAt(title, t);
    LowerAt(keywords[0], "python");
    LowerAt(keywords[1], "engineer");
    LowerAt(blacklist[0], "senior");
    OccursAtChars("python", t, 7);
    OccursAtChars("engineer", t, 14);
    OccursAtChars("senior", t, 0);
    assert MentionsSpec(title, keywords[0]) && MentionsSpec(title, keywords[1]);
    assert forall k :: 0 <= k < |keywords| ==> MentionsSpec(title, keywords[k]);
    assert MentionsSpec(title, blacklist[0]);
    CheckMeaning(title, keywords, blacklist);
  }

  /** A needle with a character the haystack lacks does not occur in it. */
  lemma MissingCharNotSubstring(needle: string, hay: string, c: char)
    requires c in needle && c !in hay
    ensures !IsSubstring(needle, hay)
  {
    var j :| 0 <= j < |needle| && needle[j] == c;
    forall i | 0 <= i <= |hay| - |needle|
      ensures !OccursAt(needle, hay, i)
    {
      assert hay[i..i + |needle|][j] == hay[i + j];
    }
  }

  /** "Junior Python Developer" lacks "engineer", so it is reported as missing keywords. */
  lemma MissingKeywordScenario()
    ensures Check("Junior Python Developer", ["python", "engineer"], ["senior"]) == MissingKeywords
  {
    var keywords := ["python", "engineer"];
    LowerAt("Junior Python Developer", "junior python developer");
    LowerAt(keywords[1], "engineer");
    assert "engineer"[2] == 'g';
    MissingCharNotSubstring("engineer", "junior python developer", 'g');
    assert !MentionsSpec("Junior Python Developer", keywords[1]);
    CheckMeaning("Junior Python Developer", keywords, ["senior"]);
  }
}
