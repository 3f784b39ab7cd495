/** The Python string primitives the SQL safety gate, the prompt validator and
    the LLM response post-processing are built from, over ASCII:
    str.isspace, str.upper / str.lower, str.strip, str.split()[0], the `in`
    operator on strings, a leftmost search and str.replace(old, ""). */
module Text {

  datatype Option<T> = None | Some(value: T)

  /** str.isspace on ASCII: space, \t \n \v \f \r and the separators \x1c..\x1f.
      str.strip(), str.split() and the regular-expression class \s use this set. */
  predicate IsSpace(c: char)
    ensures IsSpace(c) <==>
      c in {' ', '\t', '\n', '\U{0B}', '\U{0C}', '\r', '\U{1C}', '\U{1D}', '\U{1E}', '\U{1F}'}
  {
    c == ' ' || '\t' <= c <= '\r' || '\U{1C}' <= c <= '\U{1F}'
  }

  predicate AllSpace(s: string) {
    forall i :: 0 <= i < |s| ==> IsSpace(s[i])
  }

  function UpperChar(c: char): char {
    if 'a' <= c <= 'z' then (c as int - 32) as char else c
  }

  function LowerChar(c: char): char {
    if 'A' <= c <= 'Z' then (c as int + 32) as char else c
  }

  /** Applies a character mapping to every character of `s`. */
  function MapChars(f: char -> char, s: string): (r: string)
    ensures |r| == |s|
    ensures forall i :: 0 <= i < |s| ==> r[i] == f(s[i])
  {
    seq(|s|, i requires 0 <= i < |s| => f(s[i]))
  }

  /** str.upper(): no lower-case letter is left, every character keeps its
      letter up to case, and only a to z change. */
  function Upper(s: string): (u: string)
    ensures |u| == |s|
    ensures forall i :: 0 <= i < |s| ==> !('a' <= u[i] <= 'z')
    ensures forall i :: 0 <= i < |s| ==> LowerChar(u[i]) == LowerChar(s[i])
    ensures forall i :: 0 <= i < |s| && !('a' <= s[i] <= 'z') ==> u[i] == s[i]
  {
    MapChars(UpperChar, s)
  }

  /** str.lower(): no upper-case letter is left, every character keeps its
      letter up to case, and only A to Z change. */
  function Lower(s: string): (l: string)
    ensures |l| == |s|
    ensures forall i :: 0 <= i < |s| ==> !('A' <= l[i] <= 'Z')
    ensures forall i :: 0 <= i < |s| ==> UpperChar(l[i]) == UpperChar(s[i])
    ensures forall i :: 0 <= i < |s| && !('A' <= s[i] <= 'Z') ==> l[i] == s[i]
  {
    MapChars(LowerChar, s)
  }

  /** A character mapping that neither creates nor destroys whitespace. */
  ghost predicate KeepsSpaces(f: char -> char) {
    forall c :: IsSpace(f(c)) <==> IsSpace(c)
  }

  lemma CaseMapsKeepSpaces()
    ensures KeepsSpaces(UpperChar) && KeepsSpaces(LowerChar)
  {
  }

  /** The first index at or after `i` that does not hold whitespace, or |s|. */
  function SkipSpaces(s: string, i: nat): (j: nat)
    requires i <= |s|
    ensures i <= j <= |s|
    ensures forall k :: i <= k < j ==> IsSpace(s[k])
    ensures j == |s| || !IsSpace(s[j])
    decreases |s| - i
  {
    if i < |s| && IsSpace(s[i]) then SkipSpaces(s, i + 1) else i
  }

  /** The least index at or after `lo`, and at most `j`, from which only
      whitespace follows up to `j`. */
  function SkipSpacesBack(s: string, lo: nat, j: nat): (k: nat)
    requires lo <= j <= |s|
    ensures lo <= k <= j
    ensures forall m :: k <= m < j ==> IsSpace(s[m])
    ensures k == lo || !IsSpace(s[k - 1])
    decreases j
  {
    if lo < j && IsSpace(s[j - 1]) then SkipSpacesBack(s, lo, j - 1) else j
  }

  /** The first index at or after `i` that holds whitespace, or |s|. */
  function SkipWord(s: string, i: nat): (j: nat)
    requires i <= |s|
    ensures i <= j <= |s|
    ensures forall k :: i <= k < j ==> !IsSpace(s[k])
    ensures j == |s| || IsSpace(s[j])
    decreases |s| - i
  {
    if i < |s| && !IsSpace(s[i]) then SkipWord(s, i + 1) else i
  }

  /** `s` neither starts nor ends with whitespace. */
  predicate Trimmed(s: string) {
    s == [] || (!IsSpace(s[0]) && !IsSpace(s[|s| - 1]))
  }

  /** str.strip(): the slice of `s` left after removing the whitespace at both
      ends; it is empty exactly when `s` is blank. */
  function Strip(s: string): (r: string)
    ensures |r| <= |s|
    ensures r == [] <==> AllSpace(s)
    ensures Trimmed(r)
    ensures exists a :: 0 <= a && a + |r| <= |s| && r == s[a..a + |r|]
                        && AllSpace(s[..a]) && AllSpace(s[a + |r|..])
  {
    var a := SkipSpaces(s, 0);
    var b := SkipSpacesBack(s, a, |s|);
    assert AllSpace(s[..a]) && AllSpace(s[b..]);
    assert a < b ==> s[a..b][0] == s[a] && s[a..b][b - a - 1] == s[b - 1];
    s[a..b]
  }

  /** `w` is the first whitespace-separated word of `s`: it follows a run of
      whitespace only, holds no whitespace, and is followed by whitespace or
      the end of `s`. */
  ghost predicate IsFirstWord(s: string, w: string) {
    exists a :: WordAt(s, a, w) && AllSpace(s[..a])
  }

  ghost predicate WordAt(s: string, a: int, w: string) {
    && 0 <= a && a + |w| <= |s| && w != []
    && s[a..a + |w|] == w
    && (forall i :: 0 <= i < |w| ==> !IsSpace(w[i]))
    && (a + |w| == |s| || IsSpace(s[a + |w|]))
  }

  /** str.split()[0]; Python raises IndexError when `s` is blank. */
  function FirstWord(s: string): (w: string)
    requires !AllSpace(s)
    ensures IsFirstWord(s, w)
  {
    var a := SkipSpaces(s, 0);
    var b := SkipWord(s, a);
    assert AllSpace(s[..a]);
    assert WordAt(s, a, s[a..b]);
    s[a..b]
  }

  /** A string has at most one first word. */
  lemma FirstWordUnique(s: string, w1: string, w2: string)
    requires IsFirstWord(s, w1) && IsFirstWord(s, w2)
    ensures w1 == w2
  {
    var a1 :| WordAt(s, a1, w1) && AllSpace(s[..a1]);
    FirstWordIs(s, a1, w1);
    var a2 :| WordAt(s, a2, w2) && AllSpace(s[..a2]);
    FirstWordIs(s, a2, w2);
  }

  /** A first word starts where the leading whitespace ends and stops where
      the next whitespace begins. */
  lemma WordAtScans(s: string, a: int, w: string)
    requires WordAt(s, a, w) && AllSpace(s[..a])
    ensures a == SkipSpaces(s, 0) && a + |w| == SkipWord(s, a)
  {
    assert forall k :: 0 <= k < a ==> s[..a][k] == s[k];
    assert forall k :: a <= k < a + |w| ==> s[k] == w[k - a];
    SkipSpacesTo(s, 0, a);
    SkipWordTo(s, a, a + |w|);
  }

  lemma SkipSpacesTo(s: string, i: nat, j: nat)
    requires i <= j <= |s| && (j == |s| || !IsSpace(s[j]))
    requires forall k :: i <= k < j ==> IsSpace(s[k])
    ensures SkipSpaces(s, i) == j
  {
  }

  lemma SkipWordTo(s: string, i: nat, j: nat)
    requires i <= j <= |s| && (j == |s| || IsSpace(s[j]))
    requires forall k :: i <= k < j ==> !IsSpace(s[k])
    ensures SkipWord(s, i) == j
  {
  }

  /** `p` occurs in `s` at index `i`. */
  predicate OccursAt(s: string, p: string, i: int) {
    0 <= i && i + |p| <= |s| && s[i..i + |p|] == p
  }

  /** The leftmost occurrence of `p` in `s` at or after index `from`. */
  function Find(s: string, p: string, from: nat): (r: Option<nat>)
    decreases |s| - from
    ensures r.Some? ==> from <= r.value && OccursAt(s, p, r.value)
    ensures r.Some? ==> forall j :: from <= j < r.value ==> !OccursAt(s, p, j)
    ensures r.None? ==> forall j :: from <= j ==> !OccursAt(s, p, j)
  {
    if from + |p| > |s| then None
    else if s[from..from + |p|] == p then Some(from)
    else Find(s, p, from + 1)
  }

  /** Python's `p in s`. */
  function Contains(s: string, p: string): (b: bool)
    ensures b <==> exists i :: OccursAt(s, p, i)
  {
    Find(s, p, 0).Some?
  }

  /** Python's s.replace(p, ""): scans left to right and deletes each
      non-overlapping occurrence of `p`; text that only forms `p` after a
      deletion is kept. */
  function RemoveAll(s: string, p: string): (r: string)
    requires p != []
    ensures |r| <= |s|
    decreases |s|
  {
    if |s| < |p| then s
    else if s[..|p|] == p then RemoveAll(s[|p|..], p)
    else [s[0]] + RemoveAll(s[1..], p)
  }

  // Case mappings do not move word or whitespace boundaries.

  lemma {:induction false} SkipSpacesMapped(f: char -> char, s: string, i: nat)
    requires KeepsSpaces(f) && i <= |s|
    ensures SkipSpaces(MapChars(f, s), i) == SkipSpaces(s, i)
    decreases |s| - i
  {
    if i < |s| {
      assert IsSpace(MapChars(f, s)[i]) <==> IsSpace(s[i]);
      if IsSpace(s[i]) { SkipSpacesMapped(f, s, i + 1); }
    }
  }

  lemma {:induction false} SkipSpacesBackMapped(f: char -> char, s: string, lo: nat, j: nat)
    requires KeepsSpaces(f) && lo <= j <= |s|
    ensures SkipSpacesBack(MapChars(f, s), lo, j) == SkipSpacesBack(s, lo, j)
    decreases j
  {
    if lo < j {
      assert IsSpace(MapChars(f, s)[j - 1]) <==> IsSpace(s[j - 1]);
      if IsSpace(s[j - 1]) { SkipSpacesBackMapped(f, s, lo, j - 1); }
    }
  }

  lemma {:induction false} SkipWordMapped(f: char -> char, s: string, i: nat)
    requires KeepsSpaces(f) && i <= |s|
    ensures SkipWord(MapChars(f, s), i) == SkipWord(s, i)
    decreases |s| - i
  {
    if i < |s| {
      assert IsSpace(MapChars(f, s)[i]) <==> IsSpace(s[i]);
      if !IsSpace(s[i]) { SkipWordMapped(f, s, i + 1); }
    }
  }

  /** Upper- or lower-casing commutes with str.strip(). */
  lemma StripMapped(f: char -> char, s: string)
    requires KeepsSpaces(f)
    ensures Strip(MapChars(f, s)) == MapChars(f, Strip(s))
  {
    var a := SkipSpaces(s, 0);
    var b := SkipSpacesBack(s, a, |s|);
    SkipSpacesMapped(f, s, 0);
    SkipSpacesBackMapped(f, s, a, |s|);
    MappedSlice(f, s, a, b);
  }

  lemma MappedSlice(f: char -> char, s: string, a: int, b: int)
    requires 0 <= a <= b <= |s|
    ensures MapChars(f, s)[a..b] == MapChars(f, s[a..b])
  {
    assert forall k :: 0 <= k < b - a ==> s[a..b][k] == s[a + k];
  }

  /** Upper- or lower-casing commutes with str.split()[0]. */
  lemma FirstWordMapped(f: char -> char, s: string)
    requires KeepsSpaces(f) && !AllSpace(s)
    ensures !AllSpace(MapChars(f, s))
    ensures FirstWord(MapChars(f, s)) == MapChars(f, FirstWord(s))
  {
    var i :| 0 <= i < |s| && !IsSpace(s[i]);
    assert !IsSpace(MapChars(f, s)[i]);
    var a := SkipSpaces(s, 0);
    SkipSpacesMapped(f, s, 0);
    SkipWordMapped(f, s, a);
    MappedSlice(f, s, a, SkipWord(s, a));
  }

  /** Leading whitespace does not change the first word. */
  lemma FirstWordAfterSpaces(ws: string, s: string)
    requires AllSpace(ws) && !AllSpace(s)
    ensures !AllSpace(ws + s)
    ensures FirstWord(ws + s) == FirstWord(s)
  {
    var w := FirstWord(s);
    var a :| WordAt(s, a, w) && AllSpace(s[..a]);
    var t := ws + s;
    assert t[|ws| + a..|ws| + a + |w|] == s[a..a + |w|];
    assert forall k :: 0 <= k < |ws| + a ==> IsSpace(t[k]) by {
      forall k | 0 <= k < |ws| + a ensures IsSpace(t[k]) {
        if k >= |ws| { assert t[k] == s[..a][k - |ws|]; }
      }
    }
    assert WordAt(t, |ws| + a, w) && AllSpace(t[..|ws| + a]);
    assert t[|ws| + a] == w[0];
    FirstWordUnique(t, w, FirstWord(t));
  }

  /** Whitespace put in front of `t` cannot hold or start an occurrence of a
      pattern that begins with a non-space character. */
  lemma ContainsAfterSpaces(ws: string, t: string, p: string)
    requires AllSpace(ws) && p != [] && !IsSpace(p[0])
    ensures Contains(ws + t, p) <==> Contains(t, p)
  {
    if Contains(t, p) {
      var i :| OccursAt(t, p, i);
      assert (ws + t)[|ws| + i..|ws| + i + |p|] == t[i..i + |p|];
      assert OccursAt(ws + t, p, |ws| + i);
    }
    if Contains(ws + t, p) {
      var i :| OccursAt(ws + t, p, i);
      assert (ws + t)[i] == p[0];
      assert (ws + t)[i..i + |p|] == t[i - |ws|..i - |ws| + |p|];
      assert OccursAt(t, p, i - |ws|);
    }
  }

  /** A word found at `a` after nothing but whitespace is the first word. */
  lemma FirstWordIs(s: string, a: int, w: string)
    requires WordAt(s, a, w) && AllSpace(s[..a])
    ensures !AllSpace(s) && FirstWord(s) == w
  {
    WordAtScans(s, a, w);
  }

  /** A pattern cannot occur where its first character never appears. */
  lemma NoOccurrenceWithoutFirstChar(s: string, p: string)
    requires p != [] && p[0] !in s
    ensures !Contains(s, p)
  {
    forall i | 0 <= i && i + |p| <= |s| ensures !OccursAt(s, p, i) {
      assert s[i..i + |p|][0] == s[i] && s[i] in s;
    }
  }

  /** A character mapping carries an occurrence over to the mapped strings. */
  lemma MappedOccurs(f: char -> char, s: string, p: string, i: int)
    requires OccursAt(s, p, i)
    ensures OccursAt(MapChars(f, s), MapChars(f, p), i)
  {
    var r := MapChars(f, s);
    forall k | 0 <= k < |p| ensures r[i..i + |p|][k] == MapChars(f, p)[k] {
      assert s[i + k] == s[i..i + |p|][k];
    }
  }

  /** A character mapping distributes over concatenation. */
  lemma MappedConcat(f: char -> char, s: string, t: string)
    ensures MapChars(f, s + t) == MapChars(f, s) + MapChars(f, t)
  {
    var l, r := MapChars(f, s + t), MapChars(f, s) + MapChars(f, t);
    forall k | 0 <= k < |l| ensures l[k] == r[k] {
      if k < |s| {
        assert (s + t)[k] == s[k];
      } else {
        assert (s + t)[k] == t[k - |s|];
      }
    }
  }

  /** A mapping that keeps whitespace maps blank strings to blank strings. */
  lemma MappedAllSpace(f: char -> char, s: string)
    requires KeepsSpaces(f) && AllSpace(s)
    ensures AllSpace(MapChars(f, s))
  {
    forall i | 0 <= i < |s| ensures IsSpace(MapChars(f, s)[i]) {
      assert IsSpace(s[i]);
    }
  }

  /** Upper-casing leaves a string without lower-case letters as it is. */
  lemma UpperOfUpper(w: string)
    requires forall i :: 0 <= i < |w| ==> !('a' <= w[i] <= 'z')
    ensures Upper(w) == w
  {
  }

  /** A character mapping that yields `c` only from `c` or `d` cannot yield
      `c` from a string holding neither. */
  lemma MappedLacks(f: char -> char, s: string, c: char, d: char)
    requires forall x :: f(x) == c ==> x == c || x == d
    requires forall i :: 0 <= i < |s| ==> s[i] != c && s[i] != d
    ensures c !in MapChars(f, s)
  {
  }

  /** str.strip() returns exactly the slice between the surrounding runs of
      whitespace when that slice starts and ends with a non-space character. */
  lemma TrimmedSlice(s: string, a: int, b: int)
    requires 0 <= a < b <= |s| && !IsSpace(s[a]) && !IsSpace(s[b - 1])
    requires forall i :: 0 <= i < a ==> IsSpace(s[i])
    requires forall i :: b <= i < |s| ==> IsSpace(s[i])
    ensures Strip(s) == s[a..b]
  {
    assert SkipSpaces(s, 0) == a;
    assert SkipSpacesBack(s, a, |s|) == b;
  }

  /** str.replace(p, "") leaves `s` as it is exactly when `p` does not occur
      in it; otherwise it makes `s` strictly shorter. */
  lemma {:induction false} RemoveAllUnchanged(s: string, p: string)
    requires p != []
    ensures RemoveAll(s, p) == s <==> !Contains(s, p)
    ensures Contains(s, p) ==> |RemoveAll(s, p)| < |s|
    decreases |s|
  {
    if |s| < |p| {
    } else if s[..|p|] == p {
      assert OccursAt(s, p, 0);
    } else {
      assert !OccursAt(s, p, 0);
      forall i | 0 <= i ensures OccursAt(s, p, i + 1) <==> OccursAt(s[1..], p, i) {
        OccursShift(s, p, i);
      }
      RemoveAllUnchanged(s[1..], p);
      assert Contains(s, p) <==> Contains(s[1..], p) by {
        if Contains(s, p) {
          var i :| OccursAt(s, p, i);
          assert OccursAt(s[1..], p, i - 1);
        }
      }
      assert RemoveAll(s, p) == [s[0]] + RemoveAll(s[1..], p);
      assert s == [s[0]] + s[1..];
    }
  }

  lemma OccursShift(s: string, p: string, i: nat)
    requires s != []
    ensures OccursAt(s, p, i + 1) <==> OccursAt(s[1..], p, i)
  {
    if i + 1 + |p| <= |s| {
      assert s[i + 1..i + 1 + |p|] == s[1..][i..i + |p|];
    }
  }

  /** When no occurrence of `p` starts inside the prefix `h`, the left-to-right
      scan of str.replace copies `h` and carries on with the rest. */
  lemma {:induction false} RemoveAllAfterPrefix(h: string, s: string, p: string)
    requires p != []
    requires forall i :: 0 <= i < |h| ==> !OccursAt(h + s, p, i)
    ensures RemoveAll(h + s, p) == h + RemoveAll(s, p)
    decreases |h|
  {
    if h != [] {
      var t := h + s;
      if |t| >= |p| {
        assert !OccursAt(t, p, 0);
        assert t[1..] == h[1..] + s;
        forall i | 0 <= i < |h| - 1 ensures !OccursAt(h[1..] + s, p, i) {
          assert !OccursAt(t, p, i + 1);
          OccursShift(t, p, i);
        }
        RemoveAllAfterPrefix(h[1..], s, p);
        assert t[..|p|] != p by { assert t[0..|p|] == t[..|p|]; }
        assert RemoveAll(t, p) == [h[0]] + (h[1..] + RemoveAll(s, p));
        assert h == [h[0]] + h[1..];
      } else {
        assert |h + s| < |p|;
        assert RemoveAll(s, p) == s;
      }
    } else {
      assert h + s == s;
    }
  }

  /** No proper suffix of `p` is a prefix of `q`: an occurrence of `p` cannot
      straddle the point where `q` is appended. */
  ghost predicate NoStraddle(p: string, q: string) {
    forall d :: 0 < d < |p| && |p| - d <= |q| ==> p[d..] != q[..|p| - d]
  }

  lemma ConcatNoEarlyMatch(h: string, q: string, p: string)
    requires !Contains(h, p) && NoStraddle(p, q)
    ensures forall i :: 0 <= i < |h| ==> !OccursAt(h + q, p, i)
  {
    forall i | 0 <= i < |h| && i + |p| <= |h + q| ensures !OccursAt(h + q, p, i) {
      var t := h + q;
      if i + |p| <= |h| {
        assert t[i..i + |p|] == h[i..i + |p|];
        assert !OccursAt(h, p, i);
      } else {
        var d := |h| - i;
        assert t[i..i + |p|][d..] == q[..|p| - d];
      }
    }
  }
}
