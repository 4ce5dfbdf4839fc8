/**
 * The parts of Python's `str` the packing recommender relies on: `isspace`,
 * `lower` (ASCII letters only), `strip()`, `split()` with no separator,
 * `sep.join(...)` and the substring test `a in b`.
 */
module Text {

  /** `str.isspace` for one character: the Unicode whitespace Python recognises. */
  predicate IsSpace(c: char) {
    c == ' ' || c == '\t' || c == '\n' || c == '\r' || c == '\U{B}' || c == '\U{C}'
    || ('\U{1C}' <= c <= '\U{1F}') || c == '\U{85}' || c == '\U{A0}' || c == '\U{1680}'
    || ('\U{2000}' <= c <= '\U{200A}') || c == '\U{2028}' || c == '\U{2029}' || c == '\U{202F}'
    || c == '\U{205F}' || c == '\U{3000}'
  }

  predicate IsUpper(c: char) {
    'A' <= c <= 'Z'
  }

  function LowerChar(c: char): (r: char)
    ensures !IsUpper(r)
    ensures IsSpace(r) <==> IsSpace(c)
    ensures !IsUpper(c) ==> r == c
  {
    if IsUpper(c) then (c as int - 'A' as int + 'a' as int) as char else c
  }

  /** `str.lower` on ASCII letters; every other character is kept. */
  function Lower(s: string): string {
    if s == [] then [] else [LowerChar(s[0])] + Lower(s[1..])
  }

  /** Lower-casing works character by character. */
  lemma {:induction false} LowerSpec(s: string)
    ensures |Lower(s)| == |s|
    ensures forall i :: 0 <= i < |s| ==> Lower(s)[i] == LowerChar(s[i])
  {
    if s != [] {
      LowerSpec(s[1..]);
      assert forall i :: 1 <= i < |s| ==> Lower(s)[i] == Lower(s[1..])[i - 1];
    }
  }

  predicate HasNoUpper(s: string) {
    forall i :: 0 <= i < |s| ==> !IsUpper(s[i])
  }

  /** Lower-casing leaves no upper-case letter and changes nothing a second time. */
  lemma LowerIdempotent(s: string)
    ensures HasNoUpper(Lower(s))
    ensures Lower(Lower(s)) == Lower(s)
    ensures HasNoUpper(s) ==> Lower(s) == s
  {
    LowerSpec(s);
    LowerSpec(Lower(s));
  }

  /** s without its leading whitespace. */
  function StripLeft(s: string): string {
    if s != [] && IsSpace(s[0]) then StripLeft(s[1..]) else s
  }

  /** s without its trailing whitespace. */
  function StripRight(s: string): string {
    if s != [] && IsSpace(s[|s| - 1]) then StripRight(s[..|s| - 1]) else s
  }

  /** `str.strip()`: s without its leading and trailing whitespace. */
  function Strip(s: string): string {
    StripRight(StripLeft(s))
  }

  /** StripLeft cuts a whitespace prefix and leaves a non-space first character. */
  lemma {:induction false} StripLeftSpec(s: string)
    ensures var r := StripLeft(s);
      && |r| <= |s| && r == s[|s| - |r|..]
      && (forall k :: 0 <= k < |s| - |r| ==> IsSpace(s[k]))
      && (r == [] || !IsSpace(r[0]))
  {
    if s != [] && IsSpace(s[0]) {
      StripLeftSpec(s[1..]);
      var r := StripLeft(s);
      assert s[1..][|s| - 1 - |r|..] == s[|s| - |r|..];
      forall k | 0 <= k < |s| - |r| ensures IsSpace(s[k]) {
        if k > 0 {
          assert s[k] == s[1..][k - 1];
        }
      }
    }
  }

  /** StripRight cuts a whitespace suffix and leaves a non-space last character. */
  lemma {:induction false} StripRightSpec(s: string)
    ensures var r := StripRight(s);
      && |r| <= |s| && r == s[..|r|]
      && (forall k :: |r| <= k < |s| ==> IsSpace(s[k]))
      && (r == [] || !IsSpace(r[|r| - 1]))
  {
    if s != [] && IsSpace(s[|s| - 1]) {
      StripRightSpec(s[..|s| - 1]);
      var r := StripRight(s);
      assert s[..|s| - 1][..|r|] == s[..|r|];
      forall k | |r| <= k < |s| ensures IsSpace(s[k]) {
        if k < |s| - 1 {
          assert s[k] == s[..|s| - 1][k];
        }
      }
    }
  }

  /** The stripped string is a piece of s with only whitespace around it and
      no whitespace at either end. */
  lemma StripSpec(s: string)
    ensures var i, r := |s| - |StripLeft(s)|, Strip(s);
      && 0 <= i && i + |r| <= |s|
      && r == s[i..i + |r|]
      && (forall k :: 0 <= k < i ==> IsSpace(s[k]))
      && (forall k :: i + |r| <= k < |s| ==> IsSpace(s[k]))
      && (r == [] || (!IsSpace(r[0]) && !IsSpace(r[|r| - 1])))
  {
    var t := StripLeft(s);
    StripLeftSpec(s);
    StripRightSpec(t);
    StripParts(s, t, StripRight(t));
  }

  lemma StripParts(s: string, t: string, r: string)
    requires |t| <= |s| && t == s[|s| - |t|..]
    requires |r| <= |t| && r == t[..|r|]
    requires forall k :: |r| <= k < |t| ==> IsSpace(t[k])
    ensures r == s[|s| - |t|..|s| - |t| + |r|]
    ensures forall k :: |s| - |t| + |r| <= k < |s| ==> IsSpace(s[k])
  {
    var i := |s| - |t|;
    forall k | i + |r| <= k < |s| ensures IsSpace(s[k]) {
      assert s[k] == t[k - i];
    }
  }

  /** Stripping a stripped string changes nothing. */
  lemma StripIdempotent(s: string)
    ensures Strip(Strip(s)) == Strip(s)
  {
    StripSpec(s);
    var r := Strip(s);
    if r != [] {
      assert StripLeft(r) == r;
      assert StripRight(r) == r;
    }
  }

  /** Stripping a string without upper-case letters leaves none. */
  lemma StripKeepsLower(s: string)
    requires HasNoUpper(s)
    ensures HasNoUpper(Strip(s))
  {
    StripSpec(s);
    var r := Strip(s);
    var i := |s| - |StripLeft(s)|;
    forall k | 0 <= k < |r| ensures !IsUpper(r[k]) {
      assert r[k] == s[i + k];
    }
  }

  /** The length of the leading run of non-whitespace characters. */
  function WordLength(s: string): (n: nat)
    ensures n <= |s|
    ensures forall k :: 0 <= k < n ==> !IsSpace(s[k])
    ensures n == |s| || IsSpace(s[n])
  {
    if s == [] || IsSpace(s[0]) then 0 else 1 + WordLength(s[1..])
  }

  /** `str.split()`: the maximal runs of non-whitespace characters, in order. */
  function Split(s: string): seq<string>
    decreases |s|
  {
    if s == [] then []
    else if IsSpace(s[0]) then Split(s[1..])
    else
      var n := WordLength(s);
      [s[..n]] + Split(s[n..])
  }

  predicate IsWord(w: string) {
    w != [] && forall k :: 0 <= k < |w| ==> !IsSpace(w[k])
  }

  /** All characters of s except whitespace, in order. */
  function RemoveSpaces(s: string): (r: string)
    ensures forall k :: 0 <= k < |r| ==> !IsSpace(r[k]) && r[k] in s
  {
    if s == [] then []
    else (if IsSpace(s[0]) then [] else [s[0]]) + RemoveSpaces(s[1..])
  }

  function Concat(ws: seq<string>): string {
    if ws == [] then [] else ws[0] + Concat(ws[1..])
  }

  lemma {:induction false} RemoveSpacesAppend(a: string, b: string)
    ensures RemoveSpaces(a + b) == RemoveSpaces(a) + RemoveSpaces(b)
  {
    if a == [] {
      assert a + b == b;
    } else {
      assert (a + b)[1..] == a[1..] + b;
      RemoveSpacesAppend(a[1..], b);
    }
  }

  lemma {:induction false} RemoveSpacesOfWord(w: string)
    requires forall k :: 0 <= k < |w| ==> !IsSpace(w[k])
    ensures RemoveSpaces(w) == w
  {
    if w != [] {
      RemoveSpacesOfWord(w[1..]);
    }
  }

  /** `split()` yields non-empty words free of whitespace, none at all exactly
      for an all-whitespace string, and together they hold every
      non-whitespace character of s in order. */
  lemma {:induction false} SplitSpec(s: string)
    ensures forall i :: 0 <= i < |Split(s)| ==> IsWord(Split(s)[i])
    ensures Split(s) == [] <==> forall k :: 0 <= k < |s| ==> IsSpace(s[k])
    ensures Concat(Split(s)) == RemoveSpaces(s)
    decreases |s|
  {
    if s != [] {
      if IsSpace(s[0]) {
        SplitSpec(s[1..]);
        if Split(s[1..]) == [] {
          forall k | 0 <= k < |s| ensures IsSpace(s[k]) {
            if k > 0 {
              assert s[k] == s[1..][k - 1];
            }
          }
        }
      } else {
        var n := WordLength(s);
        SplitSpec(s[n..]);
        var ws := Split(s);
        assert ws[0] == s[..n];
        assert ws[1..] == Split(s[n..]);
        forall i | 0 <= i < |ws| ensures IsWord(ws[i]) {
          if i > 0 {
            assert ws[i] == Split(s[n..])[i - 1];
          }
        }
        assert s == s[..n] + s[n..];
        RemoveSpacesAppend(s[..n], s[n..]);
        RemoveSpacesOfWord(s[..n]);
      }
    }
  }

  predicate AllSpace(g: string) {
    forall k :: 0 <= k < |g| ==> IsSpace(g[k])
  }

  /** gaps[0] + words[0] + gaps[1] + ... + words[n-1] + gaps[n]. */
  function Weave(gaps: seq<string>, words: seq<string>): string
    requires |gaps| == |words| + 1
  {
    if words == [] then gaps[0] else gaps[0] + words[0] + Weave(gaps[1..], words[1..])
  }

  /** s is the words separated by whitespace runs: whitespace (possibly none)
      before the first and after the last, and at least one whitespace
      character between two words. */
  predicate IsLayout(s: string, gaps: seq<string>, words: seq<string>) {
    && |gaps| == |words| + 1
    && (forall i :: 0 <= i < |gaps| ==> AllSpace(gaps[i]))
    && (forall i :: 0 < i < |words| ==> gaps[i] != [])
    && (forall i :: 0 <= i < |words| ==> IsWord(words[i]))
    && Weave(gaps, words) == s
  }

  /** The words of `split()` lay out s: each is a maximal run of
      non-whitespace characters, with only whitespace around and between them. */
  lemma {:induction false} SplitLayout(s: string)
    ensures exists gaps :: IsLayout(s, gaps, Split(s))
    decreases |s|
  {
    if s == [] {
      assert Split(s) == [] && Weave([[]], []) == s;
      assert IsLayout(s, [[]], Split(s));
    } else if IsSpace(s[0]) {
      SplitLayout(s[1..]);
      var g :| IsLayout(s[1..], g, Split(s[1..]));
      var g' := LayoutAddSpace(s[0], s[1..], g, Split(s[1..]));
      assert [s[0]] + s[1..] == s;
      assert Split(s) == Split(s[1..]);
      assert IsLayout(s, g', Split(s));
    } else {
      var n := WordLength(s);
      var rest := s[n..];
      SplitLayout(rest);
      var g :| IsLayout(rest, g, Split(rest));
      if Split(rest) != [] {
        LayoutStart(rest, g, Split(rest));
      }
      var g' := LayoutAddWord(s[..n], rest, g, Split(rest));
      assert s[..n] + rest == s;
      assert Split(s) == [s[..n]] + Split(rest);
      assert IsLayout(s, g', Split(s));
    }
  }

  /** Whitespace in front of a layout widens its first gap. */
  lemma LayoutAddSpace(c: char, t: string, gaps: seq<string>, words: seq<string>) returns (gaps': seq<string>)
    requires IsSpace(c) && IsLayout(t, gaps, words)
    ensures IsLayout([c] + t, gaps', words)
  {
    gaps' := [[c] + gaps[0]] + gaps[1..];
    assert AllSpace(gaps'[0]) by {
      assert forall k :: 1 <= k < |gaps'[0]| ==> gaps'[0][k] == gaps[0][k - 1];
    }
    assert forall i :: 0 < i < |gaps'| ==> gaps'[i] == gaps[i];
    if words == [] {
      assert Weave(gaps', words) == [c] + gaps[0];
    } else {
      assert Weave(gaps', words) == gaps'[0] + words[0] + Weave(gaps[1..], words[1..]);
      assert Weave(gaps, words) == gaps[0] + words[0] + Weave(gaps[1..], words[1..]);
    }
  }

  /** A word in front of a layout that starts with whitespace (or is empty)
      becomes its first word. */
  lemma LayoutAddWord(w: string, t: string, gaps: seq<string>, words: seq<string>) returns (gaps': seq<string>)
    requires IsWord(w) && IsLayout(t, gaps, words)
    requires words != [] ==> gaps[0] != []
    ensures IsLayout(w + t, gaps', [w] + words)
  {
    gaps' := [[]] + gaps;
    var ws := [w] + words;
    assert forall i :: 0 < i < |gaps'| ==> gaps'[i] == gaps[i - 1];
    assert forall i :: 0 < i < |ws| ==> ws[i] == words[i - 1];
    assert ws[1..] == words && gaps'[1..] == gaps;
    assert Weave(gaps', ws) == [] + w + t;
  }

  /** A layout whose first gap is empty starts with its first word's first
      character, which is not whitespace. */
  lemma LayoutStart(s: string, gaps: seq<string>, words: seq<string>)
    requires IsLayout(s, gaps, words) && words != []
    ensures gaps[0] == [] ==> s != [] && !IsSpace(s[0])
  {
    if gaps[0] == [] {
      assert s == [] + words[0] + Weave(gaps[1..], words[1..]);
      assert s[0] == words[0][0];
    }
  }

  /** The layout determines the words: any whitespace-separated layout of s
      has exactly the words `split()` gives. */
  lemma {:induction false} SplitUnique(s: string, gaps: seq<string>, words: seq<string>)
    requires IsLayout(s, gaps, words)
    ensures words == Split(s)
    decreases |s|
  {
    if gaps[0] != [] {
      var g' := LayoutDropSpace(s, gaps, words);
      SplitUnique(s[1..], g', words);
      assert Split(s) == Split(s[1..]);
    } else if words != [] {
      var n := |words[0]|;
      LayoutDropWord(s, gaps, words);
      SplitUnique(s[n..], gaps[1..], words[1..]);
      assert Split(s) == [s[..n]] + Split(s[n..]);
      assert words == [words[0]] + words[1..];
    } else {
      assert s == gaps[0];
    }
  }

  /** A layout with leading whitespace starts with a whitespace character,
      and the rest of the string is laid out by the shortened first gap. */
  lemma LayoutDropSpace(s: string, gaps: seq<string>, words: seq<string>) returns (gaps': seq<string>)
    requires IsLayout(s, gaps, words) && gaps[0] != []
    ensures s != [] && IsSpace(s[0])
    ensures IsLayout(s[1..], gaps', words)
  {
    var g := gaps[0];
    gaps' := [g[1..]] + gaps[1..];
    if words == [] {
      assert s == g;
      assert s[1..] == gaps'[0];
    } else {
      assert s == g + words[0] + Weave(gaps[1..], words[1..]);
      assert s[1..] == g[1..] + words[0] + Weave(gaps[1..], words[1..]);
      assert Weave(gaps', words) == gaps'[0] + words[0] + Weave(gaps[1..], words[1..]);
    }
    assert s[0] == g[0];
    assert AllSpace(gaps'[0]) by {
      assert forall k :: 0 <= k < |gaps'[0]| ==> gaps'[0][k] == g[k + 1];
    }
    assert forall i :: 0 < i < |gaps'| ==> gaps'[i] == gaps[i];
  }

  /** A layout without leading whitespace starts with its first word, which
      is the leading run of non-whitespace characters; the rest of the layout
      lays out what follows it. */
  lemma LayoutDropWord(s: string, gaps: seq<string>, words: seq<string>)
    requires IsLayout(s, gaps, words) && gaps[0] == [] && words != []
    ensures s != [] && !IsSpace(s[0])
    ensures WordLength(s) == |words[0]| && s[..|words[0]|] == words[0]
    ensures IsLayout(s[|words[0]|..], gaps[1..], words[1..])
  {
    var w := words[0];
    var rest := Weave(gaps[1..], words[1..]);
    assert s == [] + w + rest;
    assert s == w + rest;
    assert forall k :: 0 <= k < |w| ==> s[k] == w[k];
    assert IsLayout(rest, gaps[1..], words[1..]) by {
      assert forall i :: 0 <= i < |gaps[1..]| ==> gaps[1..][i] == gaps[i + 1];
      assert forall i :: 0 <= i < |words[1..]| ==> words[1..][i] == words[i + 1];
    }
    if rest != [] {
      RestStartsWithSpace(rest, gaps[1..], words[1..]);
      assert s[|w|] == rest[0];
    }
    WordLengthIs(s, |w|);
    assert s[..|w|] == w;
    assert s[|w|..] == rest;
  }

  /** After a word, a layout continues with whitespace or ends. */
  lemma RestStartsWithSpace(rest: string, gaps: seq<string>, words: seq<string>)
    requires IsLayout(rest, gaps, words) && rest != []
    requires words != [] ==> gaps[0] != []
    ensures IsSpace(rest[0])
  {
    if words == [] {
      assert rest == gaps[0];
    } else {
      assert rest == gaps[0] + words[0] + Weave(gaps[1..], words[1..]);
      assert rest[0] == gaps[0][0];
    }
  }

  lemma {:induction false} WordLengthIs(s: string, n: nat)
    requires n <= |s|
    requires forall k :: 0 <= k < n ==> !IsSpace(s[k])
    requires n == |s| || IsSpace(s[n])
    ensures WordLength(s) == n
  {
    if n > 0 {
      WordLengthIs(s[1..], n - 1);
    }
  }

  /** `str.split(c)`: the pieces between occurrences of c, empty ones included. */
  function SplitOn(c: char, s: string): (r: seq<string>)
    ensures |r| >= 1
  {
    if s == [] then [[]]
    else if s[0] == c then [[]] + SplitOn(c, s[1..])
    else
      var r := SplitOn(c, s[1..]);
      [[s[0]] + r[0]] + r[1..]
  }

  /** Splitting at c after a c-free piece and a c yields the piece first. */
  lemma {:induction false} SplitOnPiece(c: char, w: string, t: string)
    requires c !in w
    ensures SplitOn(c, w + [c] + t) == [w] + SplitOn(c, t)
  {
    if w == [] {
      assert w + [c] + t == [c] + t;
      assert ([c] + t)[1..] == t;
    } else {
      assert (w + [c] + t)[1..] == w[1..] + [c] + t;
      assert c !in w[1..] by {
        assert forall k :: 0 <= k < |w[1..]| ==> w[1..][k] == w[k + 1];
      }
      SplitOnPiece(c, w[1..], t);
      assert [w[0]] + w[1..] == w;
    }
  }

  /** Splitting a join of c-free pieces followed by c at c gives the pieces
      and a final empty piece. */
  lemma {:induction false} SplitOnJoin(c: char, ws: seq<string>)
    requires ws != []
    requires forall i :: 0 <= i < |ws| ==> c !in ws[i]
    ensures SplitOn(c, Join([c], ws) + [c]) == ws + [[]]
  {
    if |ws| == 1 {
      SplitOnPiece(c, ws[0], []);
      assert ws[0] + [c] + [] == Join([c], ws) + [c];
      assert SplitOn(c, []) == [[]];
    } else {
      SplitOnJoin(c, ws[1..]);
      SplitOnPiece(c, ws[0], Join([c], ws[1..]) + [c]);
      assert Join([c], ws) + [c] == ws[0] + [c] + (Join([c], ws[1..]) + [c]);
      assert [ws[0]] + (ws[1..] + [[]]) == ws + [[]];
    }
  }

  /** `sep.join(ws)`. */
  function Join(sep: string, ws: seq<string>): string {
    if ws == [] then []
    else if |ws| == 1 then ws[0]
    else ws[0] + sep + Join(sep, ws[1..])
  }

  /** The characters of s other than c, in order. */
  function Remove(c: char, s: string): (r: string)
    ensures c !in r
  {
    if s == [] then [] else (if s[0] == c then [] else [s[0]]) + Remove(c, s[1..])
  }

  lemma {:induction false} RemoveAppend(c: char, a: string, b: string)
    ensures Remove(c, a + b) == Remove(c, a) + Remove(c, b)
  {
    if a == [] {
      assert a + b == b;
    } else {
      assert (a + b)[1..] == a[1..] + b;
      RemoveAppend(c, a[1..], b);
    }
  }

  lemma {:induction false} RemoveAbsent(c: char, s: string)
    requires c !in s
    ensures Remove(c, s) == s
  {
    if s != [] {
      assert c !in s[1..] by {
        assert forall k :: 0 <= k < |s[1..]| ==> s[1..][k] == s[k + 1];
      }
      RemoveAbsent(c, s[1..]);
    }
  }

  /** Deleting every separator from a join of separator-free pieces gives
      their concatenation. */
  lemma {:induction false} RemoveFromJoin(c: char, ws: seq<string>)
    requires forall i :: 0 <= i < |ws| ==> c !in ws[i]
    ensures Remove(c, Join([c], ws)) == Concat(ws)
  {
    if |ws| == 1 {
      RemoveAbsent(c, ws[0]);
      assert Concat(ws) == ws[0] + Concat([]);
      assert ws[0] + [] == ws[0];
    } else if |ws| > 1 {
      RemoveFromJoin(c, ws[1..]);
      RemoveAppend(c, ws[0] + [c], Join([c], ws[1..]));
      RemoveAppend(c, ws[0], [c]);
      RemoveAbsent(c, ws[0]);
      assert Remove(c, [c]) == [] by {
        assert [c][1..] == [];
      }
      assert ws[0] + [c] + Join([c], ws[1..]) == Join([c], ws);
    }
  }

  predicate OccursAt(hay: string, needle: string, i: int) {
    0 <= i <= |hay| - |needle| && hay[i..i + |needle|] == needle
  }

  /** The substring test `needle in hay`. */
  predicate Contains(hay: string, needle: string) {
    exists i :: 0 <= i <= |hay| && OccursAt(hay, needle, i)
  }
}
