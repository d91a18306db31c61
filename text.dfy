/** The three string operations the app applies: Python's `str.strip()` on model
    replies, `str.lower()` and the `in` substring test on the user's input.
    Characters are taken to be ASCII: whitespace is the ASCII part of what
    `str.isspace()` accepts, and case folding maps `A`..`Z` to `a`..`z`. */
module Text {

  /** Tab, line feed, vertical tab, form feed, carriage return (9..13),
      the four information separators (28..31) and space (32). */
  predicate IsSpace(c: char) {
    (9 <= c as int <= 13) || (28 <= c as int <= 32)
  }

  /** How many whitespace characters `s` starts with. */
  function LeadingSpaces(s: string): (n: nat)
    ensures n <= |s|
    ensures forall i :: 0 <= i < n ==> IsSpace(s[i])
    ensures n < |s| ==> !IsSpace(s[n])
  {
    if |s| > 0 && IsSpace(s[0]) then 1 + LeadingSpaces(s[1..]) else 0
  }

  /** How many whitespace characters `s` ends with. */
  function TrailingSpaces(s: string): (n: nat)
    ensures n <= |s|
    ensures forall i :: |s| - n <= i < |s| ==> IsSpace(s[i])
    ensures n < |s| ==> !IsSpace(s[|s| - 1 - n])
  {
    if |s| > 0 && IsSpace(s[|s| - 1]) then 1 + TrailingSpaces(s[..|s| - 1]) else 0
  }

  /** `s.strip()`: the leading whitespace is dropped, then the trailing whitespace. */
  function Strip(s: string): string
  {
    var a := LeadingSpaces(s);
    if a == |s| then [] else
      assert !IsSpace(s[a]);
      s[a .. |s| - TrailingSpaces(s)]
  }

  /** The window `s[a..b]` is `s` with its surrounding whitespace cut off:
      everything outside the window is whitespace and a non-empty window
      starts and ends with a non-whitespace character. */
  ghost predicate Trimmed(s: string, a: nat, b: nat) {
    a <= b <= |s| &&
    (forall i :: 0 <= i < a ==> IsSpace(s[i])) &&
    (forall i :: b <= i < |s| ==> IsSpace(s[i])) &&
    (a < b ==> !IsSpace(s[a]) && !IsSpace(s[b - 1]))
  }

  /** `Strip` returns exactly the window that `Trimmed` describes, and such a
      window exists for every string. */
  lemma StripIsTrimmed(s: string)
    ensures exists a: nat, b: nat :: Trimmed(s, a, b) && Strip(s) == s[a..b]
  {
    var a := LeadingSpaces(s);
    if a == |s| {
      assert Trimmed(s, a, a) && Strip(s) == s[a..a];
    } else {
      var b := |s| - TrailingSpaces(s);
      assert !IsSpace(s[a]);
      assert Trimmed(s, a, b) && Strip(s) == s[a..b];
    }
  }

  /** Any trimmed window of `s` is `Strip(s)`: the characterisation determines
      the result, so `Strip` is the one function that meets it. */
  lemma TrimmedIsStrip(s: string, a: nat, b: nat)
    requires Trimmed(s, a, b)
    ensures s[a..b] == Strip(s)
  {
  }

  /** The result of `Strip` has no whitespace at either end. */
  lemma StripEdges(s: string)
    ensures Strip(s) != [] ==> !IsSpace(Strip(s)[0]) && !IsSpace(Strip(s)[|Strip(s)| - 1])
  {
    StripIsTrimmed(s);
  }

  /** Stripping twice is stripping once. */
  lemma {:induction false} StripIdempotent(s: string)
    ensures Strip(Strip(s)) == Strip(s)
  {
    var r := Strip(s);
    StripEdges(s);
    assert Trimmed(r, 0, |r|);
    TrimmedIsStrip(r, 0, |r|);
    assert r[0..|r|] == r;
  }

  /** `c.lower()` for an ASCII character. */
  function LowerChar(c: char): char
  {
    if 'A' <= c <= 'Z' then (c as int + 32) as char else c
  }

  /** `s.lower()`: every character folded on its own, so the length is kept. */
  function Lower(s: string): (r: string)
    ensures |r| == |s|
  {
    seq(|s|, i requires 0 <= i < |s| => LowerChar(s[i]))
  }

  /** `pat` occurs in `s` starting at position `i`. */
  ghost predicate OccursAt(s: string, pat: string, i: nat) {
    i + |pat| <= |s| && s[i .. i + |pat|] == pat
  }

  /** Python's `pat in s`, testing each starting position from the left. */
  function Contains(s: string, pat: string): bool
    decreases |s|
  {
    if |pat| > |s| then false
    else if s[..|pat|] == pat then true
    else Contains(s[1..], pat)
  }

  /** `Contains` is true exactly when `pat` occurs somewhere in `s`. */
  lemma {:induction false} ContainsIff(s: string, pat: string)
    ensures Contains(s, pat) <==> exists i: nat :: OccursAt(s, pat, i)
    decreases |s|
  {
    if |pat| > |s| {
    } else if s[..|pat|] == pat {
      assert OccursAt(s, pat, 0);
    } else {
      ContainsIff(s[1..], pat);
      if Contains(s[1..], pat) {
        var j: nat :| OccursAt(s[1..], pat, j);
        assert s[1..][j .. j + |pat|] == s[j + 1 .. j + 1 + |pat|];
        assert OccursAt(s, pat, j + 1);
      }
      if i: nat :| OccursAt(s, pat, i) {
        assert i != 0;
        assert s[1..][i - 1 .. i - 1 + |pat|] == s[i .. i + |pat|];
        assert OccursAt(s[1..], pat, i - 1);
      }
    }
  }

  const GraphWord := "graph"

  /** `"graph" in user_input.lower()`: whether the app draws its sample chart. */
  predicate GraphHint(input: string) {
    Contains(Lower(input), GraphWord)
  }

  /** The five characters of `input` from position `i` on spell "graph" in
      any mix of upper and lower case. */
  ghost predicate SpellsGraphAt(input: string, i: nat) {
    i + |GraphWord| <= |input| && Lower(input[i .. i + |GraphWord|]) == GraphWord
  }

  /** The hint is true exactly when the input spells "graph", in any case,
      at some position. */
  lemma GraphHintIff(input: string)
    ensures GraphHint(input) <==> exists i: nat :: SpellsGraphAt(input, i)
  {
    var low := Lower(input);
    ContainsIff(low, GraphWord);
    forall i: nat
      ensures OccursAt(low, GraphWord, i) <==> SpellsGraphAt(input, i)
    {
      if i + |GraphWord| <= |input| {
        assert Lower(input[i .. i + |GraphWord|]) == low[i .. i + |GraphWord|];
      }
    }
  }

  /** Example inputs: the hint ignores case, and a text without "graph" in it
      does not trigger it. */
  lemma GraphHintOnRequest()
    ensures GraphHint("show me a graph please")
  {
    GraphHintIff("show me a graph please");
    assert "show me a graph please"[10..15] == GraphWord;
    assert SpellsGraphAt("show me a graph please", 10);
  }

  lemma GraphHintUpperCase()
    ensures GraphHint("Plot a GRAPH")
  {
    GraphHintIff("Plot a GRAPH");
    assert "Plot a GRAPH"[7..12] == "GRAPH";
    assert SpellsGraphAt("Plot a GRAPH", 7);
  }

  lemma NoGraphHintOnGreeting()
    ensures !GraphHint("hello")
  {
    assert Lower("hello")[0] == 'h';
  }

  /** The test is on substrings, not on words. */
  lemma GraphHintInsideWord()
    ensures GraphHint("photographs")
  {
    GraphHintIff("photographs");
    assert "photographs"[5..10] == GraphWord;
    assert SpellsGraphAt("photographs", 5);
  }
}
