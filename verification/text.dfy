/**
 The string operations the application engine relies on: whitespace
 tokenising (`str.split()` without a separator), ASCII lowercasing,
 substring search (`in` on strings), joining with a separator, and decimal
 rendering of a count. Splitting on one character (`str.split(c)`) is not
 used by the engine; it is here as the inverse of the newline joins, to read
 the returned texts back line by line.
 */
module Text {

  /** Python's `str.isspace()`: the code points `str.split()` treats as separators. */
  predicate IsSpace(c: char) {
    var n := c as int;
    || 0x09 <= n <= 0x0D
    || 0x1C <= n <= 0x20
    || n == 0x85 || n == 0xA0 || n == 0x1680
    || 0x2000 <= n <= 0x200A
    || n == 0x2028 || n == 0x2029 || n == 0x202F || n == 0x205F || n == 0x3000
  }

  /** A token produced by `str.split()`: non-empty and free of whitespace. */
  predicate IsWord(w: string) {
    |w| > 0 && forall i :: 0 <= i < |w| ==> !IsSpace(w[i])
  }

  // ---------------------------------------------------------------------------
  // Lowercasing (ASCII letters only)
  // ---------------------------------------------------------------------------

  /** ASCII lowercasing of one character; every other character is left alone. */
  function LowerChar(c: char): char {
    if 'A' <= c <= 'Z' then (c as int + 32) as char else c
  }

  /** `s.lower()`, restricted to ASCII letters. */
  function Lower(s: string): string {
    seq(|s|, i requires 0 <= i < |s| => LowerChar(s[i]))
  }

  /** Lowercasing agrees with `t` character by character. */
  lemma LowerAt(s: string, t: string)
    requires |s| == |t|
    requires forall i :: 0 <= i < |s| ==> LowerChar(s[i]) == t[i]
    ensures Lower(s) == t
  {
  }

  // ---------------------------------------------------------------------------
  // Substring search
  // ---------------------------------------------------------------------------

  /** Reference meaning of `needle in hay`: `needle` occurs at some offset of `hay`. */
  ghost predicate IsSubstring(needle: string, hay: string) {
    exists i :: OccursAt(needle, hay, i)
  }

  /** `needle` occurs in `hay` starting at offset `i`. */
  ghost predicate OccursAt(needle: string, hay: string, i: int) {
    0 <= i <= |hay| - |needle| && hay[i..i + |needle|] == needle
  }

  /** An occurrence checked character by character. */
  lemma OccursAtChars(needle: string, hay: string, i: int)
    requires 0 <= i <= |hay| - |needle|
    requires forall j :: 0 <= j < |needle| ==> hay[i + j] == needle[j]
    ensures OccursAt(needle, hay, i)
  {
    assert hay[i..i + |needle|] == needle;
  }

  /** Executable substring test: is `needle` a prefix of some suffix of `hay`? */
  function Contains(hay: string, needle: string): bool
    decreases |hay|
  {
    needle <= hay || (|hay| > 0 && Contains(hay[1..], needle))
  }

  /** The executable test agrees with the reference meaning, in both directions. */
  lemma {:induction false} ContainsIsSubstring(hay: string, needle: string)
    ensures Contains(hay, needle) <==> IsSubstring(needle, hay)
    decreases |hay|
  {
    if needle <= hay {
      assert OccursAt(needle, hay, 0);
    } else if |hay| == 0 {
      assert forall i :: !OccursAt(needle, hay, i);
    } else {
      ContainsIsSubstring(hay[1..], needle);
      if Contains(hay[1..], needle) {
        var i :| OccursAt(needle, hay[1..], i);
        assert hay[i + 1..i + 1 + |needle|] == needle;
        assert OccursAt(needle, hay, i + 1);
      }
      if IsSubstring(needle, hay) {
        var i :| OccursAt(needle, hay, i);
        if i != 0 {
          assert hay[1..][i - 1..i - 1 + |needle|] == needle;
          assert OccursAt(needle, hay[1..], i - 1);
        }
      }
    }
  }

  // ---------------------------------------------------------------------------
  // Whitespace tokenising: `s.split()`
  // ---------------------------------------------------------------------------

  /** Length of the longest whitespace-free prefix of `s`. */
  function WordLen(s: string): (n: nat)
    ensures n <= |s|
    ensures forall i :: 0 <= i < n ==> !IsSpace(s[i])
    ensures n < |s| ==> IsSpace(s[n])
  {
    if s == [] || IsSpace(s[0]) then 0 else 1 + WordLen(s[1..])
  }

  /** `s.split()`: the maximal runs of non-whitespace characters, in order. */
  function Tokenise(s: string): (r: seq<string>)
    ensures forall k :: 0 <= k < |r| ==> IsWord(r[k])
    decreases |s|
  {
    if s == [] then []
    else if IsSpace(s[0]) then Tokenise(s[1..])
    else
      var n := WordLen(s);
      [s[..n]] + Tokenise(s[n..])
  }

  /** The non-whitespace characters of `s`, in order. */
  function NonSpace(s: string): string {
    if s == [] then [] else (if IsSpace(s[0]) then [] else [s[0]]) + NonSpace(s[1..])
  }

  /** Concatenation of a sequence of strings. */
  function Concat(ts: seq<string>): string {
    if ts == [] then [] else ts[0] + Concat(ts[1..])
  }

  lemma {:induction false} NonSpaceAppend(a: string, b: string)
    ensures NonSpace(a + b) == NonSpace(a) + NonSpace(b)
    decreases |a|
  {
    if a != [] {
      assert (a + b)[1..] == a[1..] + b;
      NonSpaceAppend(a[1..], b);
    } else {
      assert a + b == b;
    }
  }

  lemma {:induction false} NonSpaceOfWord(w: string)
    requires forall i :: 0 <= i < |w| ==> !IsSpace(w[i])
    ensures NonSpace(w) == w
    decreases |w|
  {
    if w != [] {
      NonSpaceOfWord(w[1..]);
    }
  }

  /** Tokenising loses exactly the whitespace: the tokens concatenate to the non-space characters. */
  lemma {:induction false} TokeniseKeepsNonSpace(s: string)
    ensures Concat(Tokenise(s)) == NonSpace(s)
    decreases |s|
  {
    if s == [] {
    } else if IsSpace(s[0]) {
      TokeniseKeepsNonSpace(s[1..]);
    } else {
      var n := WordLen(s);
      TokeniseKeepsNonSpace(s[n..]);
      assert s == s[..n] + s[n..];
      NonSpaceAppend(s[..n], s[n..]);
      NonSpaceOfWord(s[..n]);
      assert ([s[..n]] + Tokenise(s[n..]))[1..] == Tokenise(s[n..]);
    }
  }

  /** `s.split()` is empty exactly when `s` is all whitespace (the empty string included). */
  lemma {:induction false} TokeniseEmptyIffBlank(s: string)
    ensures Tokenise(s) == [] <==> forall i :: 0 <= i < |s| ==> IsSpace(s[i])
    decreases |s|
  {
    if s != [] && IsSpace(s[0]) {
      TokeniseEmptyIffBlank(s[1..]);
      assert forall i :: 1 <= i < |s| ==> s[i] == s[1..][i - 1];
    }
  }

  lemma {:induction false} WordLenAfterWord(w: string, t: string)
    requires forall i :: 0 <= i < |w| ==> !IsSpace(w[i])
    requires t != [] ==> IsSpace(t[0])
    ensures WordLen(w + t) == |w|
    decreases |w|
  {
    if w != [] {
      assert (w + t)[1..] == w[1..] + t;
      WordLenAfterWord(w[1..], t);
    } else {
      assert w + t == t;
    }
  }

  /** Joins strings with a separator, like `sep.join(ts)`. */
  function Join(ts: seq<string>, sep: string): string {
    if |ts| == 0 then ""
    else if |ts| == 1 then ts[0]
    else ts[0] + sep + Join(ts[1..], sep)
  }

  /** Tokenising words joined by single spaces gives the words back. */
  lemma {:induction false} TokeniseJoinRoundTrip(ts: seq<string>)
    requires forall k :: 0 <= k < |ts| ==> IsWord(ts[k])
    ensures Tokenise(Join(ts, " ")) == ts
    decreases |ts|
  {
    if |ts| == 0 {
    } else {
      var w := ts[0];
      var rest := if |ts| == 1 then "" else " " + Join(ts[1..], " ");
      assert Join(ts, " ") == w + rest;
      WordLenAfterWord(w, rest);
      var s := w + rest;
      assert s[..|w|] == w;
      assert s[|w|..] == rest;
      assert !IsSpace(s[0]);
      if |ts| > 1 {
        TokeniseJoinRoundTrip(ts[1..]);
        assert rest[1..] == Join(ts[1..], " ");
        assert Tokenise(rest) == Tokenise(Join(ts[1..], " "));
        assert ts == [w] + ts[1..];
      }
    }
  }

  /** `WordLen` is the only length with a whitespace-free prefix that ends at whitespace or at the end. */
  lemma WordLenUnique(s: string, m: nat)
    requires m <= |s|
    requires forall i :: 0 <= i < m ==> !IsSpace(s[i])
    requires m < |s| ==> IsSpace(s[m])
    ensures WordLen(s) == m
  {
  }

  /** A single word tokenises to itself. */
  lemma TokeniseWord(w: string)
    requires IsWord(w)
    ensures Tokenise(w) == [w]
  {
    WordLenUnique(w, |w|);
    assert w[..|w|] == w && w[|w|..] == [];
  }

  /** Tokenising splits at a text that starts with whitespace: nothing is glued across it. */
  lemma {:induction false} TokeniseAppendSpaced(a: string, t: string)
    requires t != [] && IsSpace(t[0])
    ensures Tokenise(a + t) == Tokenise(a) + Tokenise(t)
    decreases |a|
  {
    if a == [] {
      assert a + t == t;
    } else if IsSpace(a[0]) {
      assert (a + t)[1..] == a[1..] + t;
      TokeniseAppendSpaced(a[1..], t);
    } else {
      var n := WordLen(a);
      WordLenUnique(a + t, n);
      assert (a + t)[..n] == a[..n];
      assert (a + t)[n..] == a[n..] + t;
      TokeniseAppendSpaced(a[n..], t);
    }
  }

  /**
   Every whitespace character separates words: tokenising `a`, a whitespace
   character and `b` gives the tokens of `a` followed by those of `b`. With
   `TokeniseWord` and `Tokenise("") == []` this fixes `s.split()` on every string.
   */
  lemma TokeniseSplitsAtSpace(a: string, c: char, b: string)
    requires IsSpace(c)
    ensures Tokenise(a + [c] + b) == Tokenise(a) + Tokenise(b)
  {
    assert a + [c] + b == a + ([c] + b);
    TokeniseAppendSpaced(a, [c] + b);
    assert ([c] + b)[1..] == b;
  }

  /** "python", a tab, "engineer" tokenises to the two words: a tab separates like a space. */
  lemma TokeniseTabScenario(s: string)
    requires s == "python" + ['\t'] + "engineer"
    ensures Tokenise(s) == ["python", "engineer"]
  {
    var a, b := "python", "engineer";
    assert IsWord(a) && IsWord(b);
    TokeniseWord(a);
    TokeniseWord(b);
    TokeniseSplitsAtSpace(a, '\t', b);
  }

  // ---------------------------------------------------------------------------
  // Splitting on one character: `s.split(c)`
  // ---------------------------------------------------------------------------

  /** `s.split(c)`: the pieces between occurrences of `c`; always at least one piece. */
  function SplitOn(s: string, c: char): (r: seq<string>)
    ensures |r| >= 1
    ensures forall k :: 0 <= k < |r| ==> c !in r[k]
    decreases |s|
  {
    if s == [] then [""]
    else if s[0] == c then [""] + SplitOn(s[1..], c)
    else
      var rest := SplitOn(s[1..], c);
      [[s[0]] + rest[0]] + rest[1..]
  }

  lemma {:induction false} SplitOnPiece(w: string, c: char, t: string)
    requires c !in w
    ensures SplitOn(w + t, c) == [w + SplitOn(t, c)[0]] + SplitOn(t, c)[1..]
    decreases |w|
  {
    if w == [] {
      assert w + t == t;
      var r := SplitOn(t, c);
      assert w + r[0] == r[0];
      assert r == [r[0]] + r[1..];
    } else {
      assert (w + t)[1..] == w[1..] + t;
      SplitOnPiece(w[1..], c, t);
      assert [w[0]] + (w[1..] + SplitOn(t, c)[0]) == w + SplitOn(t, c)[0];
    }
  }

  /** Splitting pieces joined by `c` gives the pieces back, when no piece contains `c`. */
  lemma {:induction false} SplitJoinRoundTrip(ts: seq<string>, c: char)
    requires |ts| >= 1
    requires forall k :: 0 <= k < |ts| ==> c !in ts[k]
    ensures SplitOn(Join(ts, [c]), c) == ts
    decreases |ts|
  {
    if |ts| == 1 {
      SplitOnPiece(ts[0], c, "");
      assert ts[0] + "" == ts[0];
    } else {
      var tail := Join(ts[1..], [c]);
      assert Join(ts, [c]) == ts[0] + ([c] + tail);
      SplitOnPiece(ts[0], c, [c] + tail);
      assert ([c] + tail)[1..] == tail;
      SplitJoinRoundTrip(ts[1..], c);
      assert SplitOn([c] + tail, c) == [""] + ts[1..];
      assert ts[0] + "" == ts[0];
      assert ts == [ts[0]] + ts[1..];
    }
  }

  /** A separator splits: the pieces of `a`, `c`, `b` are the pieces of `a` followed by those of `b`. */
  lemma {:induction false} SplitOnAppend(a: string, c: char, b: string)
    ensures SplitOn(a + [c] + b, c) == SplitOn(a, c) + SplitOn(b, c)
    decreases |a|
  {
    if a == [] {
      assert a + [c] + b == [c] + b;
      assert ([c] + b)[1..] == b;
    } else {
      assert (a + [c] + b)[1..] == a[1..] + [c] + b;
      SplitOnAppend(a[1..], c, b);
      if a[0] != c {
        var ra := SplitOn(a[1..], c);
        var rb := SplitOn(b, c);
        assert (ra + rb)[0] == ra[0];
        assert (ra + rb)[1..] == ra[1..] + rb;
      }
    }
  }

  /** The pieces of every string of `xs`, split on `c`, one after the other. */
  function SplitAll(xs: seq<string>, c: char): seq<string> {
    if xs == [] then [] else SplitOn(xs[0], c) + SplitAll(xs[1..], c)
  }

  /**
   Splitting strings joined by `c` gives the pieces of each string in turn,
   whatever the strings contain: a string holding `c` contributes several pieces.
   */
  lemma {:induction false} SplitJoinAll(xs: seq<string>, c: char)
    requires |xs| >= 1
    ensures SplitOn(Join(xs, [c]), c) == SplitAll(xs, c)
    decreases |xs|
  {
    if |xs| == 1 {
      assert SplitAll(xs[1..], c) == [];
    } else {
      SplitJoinAll(xs[1..], c);
      SplitOnAppend(xs[0], c, Join(xs[1..], [c]));
    }
  }

  /** When no string contains `c`, the pieces are the strings themselves. */
  lemma {:induction false} SplitAllPlain(xs: seq<string>, c: char)
    requires forall k :: 0 <= k < |xs| ==> c !in xs[k]
    ensures SplitAll(xs, c) == xs
    decreases |xs|
  {
    if xs != [] {
      SplitOnPiece(xs[0], c, "");
      assert xs[0] + "" == xs[0];
      SplitAllPlain(xs[1..], c);
      assert xs == [xs[0]] + xs[1..];
    }
  }

  lemma JoinCons(w: string, rest: seq<string>, sep: string)
    requires |rest| >= 1
    ensures Join([w] + rest, sep) == w + sep + Join(rest, sep)
  {
    assert ([w] + rest)[1..] == rest;
  }

  /** Extending the first piece of a split by one character extends the joined text the same way. */
  lemma JoinExtendFirst(x: char, rest: seq<string>, sep: string)
    requires |rest| >= 1
    ensures Join([[x] + rest[0]] + rest[1..], sep) == [x] + Join(rest, sep)
  {
    if |rest| > 1 {
      JoinCons([x] + rest[0], rest[1..], sep);
      JoinCons(rest[0], rest[1..], sep);
      assert rest == [rest[0]] + rest[1..];
    }
  }

  /** Joining the pieces of `s.split(c)` with `c` restores `s`. */
  lemma {:induction false} JoinSplitRoundTrip(s: string, c: char)
    ensures Join(SplitOn(s, c), [c]) == s
    decreases |s|
  {
    if s == [] {
    } else {
      JoinSplitRoundTrip(s[1..], c);
      var rest := SplitOn(s[1..], c);
      if s[0] == c {
        JoinCons("", rest, [c]);
      } else {
        JoinExtendFirst(s[0], rest, [c]);
      }
      assert s == [s[0]] + s[1..];
    }
  }

  // ---------------------------------------------------------------------------
  // Decimal rendering of counts: `f"{n}"`
  // ---------------------------------------------------------------------------

  predicate IsDigit(c: char) {
    '0' <= c <= '9'
  }

  function DigitChar(d: nat): (c: char)
    requires d < 10
    ensures IsDigit(c) && c as int - '0' as int == d
  {
    (d + '0' as int) as char
  }

  /** Decimal text of `n`, without leading zeros. */
  function NatToString(n: nat): (r: string)
    ensures |r| >= 1
    ensures forall i :: 0 <= i < |r| ==> IsDigit(r[i])
    ensures r[0] == '0' ==> n == 0
  {
    if n < 10 then [DigitChar(n)] else NatToString(n / 10) + [DigitChar(n % 10)]
  }

  function DigitValue(c: char): nat
    requires IsDigit(c)
  {
    c as int - '0' as int
  }

  /** The number a string of decimal digits denotes. */
  function ParseNat(s: string): nat
    requires forall i :: 0 <= i < |s| ==> IsDigit(s[i])
  {
    if s == [] then 0 else 10 * ParseNat(s[..|s| - 1]) + DigitValue(s[|s| - 1])
  }

  /** Reading back the decimal text of a count gives the count. */
  lemma {:induction false} NatToStringRoundTrip(n: nat)
    ensures ParseNat(NatToString(n)) == n
  {
    if n >= 10 {
      NatToStringRoundTrip(n / 10);
      var r := NatToString(n);
      assert r[..|r| - 1] == NatToString(n / 10);
    }
  }
}
