/** The operations on Python `str` values that the converters use, on strings
    as sequences of characters: `split` on a one-character separator, `strip()`,
    the substring test `in`, `replace(c, '')` and `removeprefix`/`removesuffix`. */
module Text {

  /** The characters Python's `str.isspace()` accepts, which `str.strip()` removes. */
  predicate IsSpace(c: char) {
    || c == ' '
    || '\t' <= c <= '\r'
    || '\U{1C}' <= c <= '\U{1F}'
    || c == '\U{85}' || c == '\U{A0}' || c == '\U{1680}'
    || '\U{2000}' <= c <= '\U{200A}'
    || c == '\U{2028}' || c == '\U{2029}' || c == '\U{202F}' || c == '\U{205F}' || c == '\U{3000}'
  }

  predicate AllSpace(s: string) {
    forall i :: 0 <= i < |s| ==> IsSpace(s[i])
  }

  /** Neither the first nor the last character is whitespace. */
  predicate Trimmed(s: string) {
    s == [] || (!IsSpace(s[0]) && !IsSpace(s[|s| - 1]))
  }

  // ---------------------------------------------------------------------------
  // split / join

  /** Python's `sep.join(pieces)`. */
  function Join(pieces: seq<string>, sep: char): string
    requires |pieces| >= 1
  {
    if |pieces| == 1 then pieces[0] else pieces[0] + [sep] + Join(pieces[1..], sep)
  }

  /** Python's `s.split(sep)`: the maximal runs between occurrences of `sep`;
      there is always at least one, and none contains `sep`. */
  function Split(s: string, sep: char): (pieces: seq<string>)
    ensures |pieces| >= 1
    ensures forall i :: 0 <= i < |pieces| ==> sep !in pieces[i]
  {
    if |s| == 0 then [""]
    else
      var rest := Split(s[1..], sep);
      if s[0] == sep then [""] + rest
      else [[s[0]] + rest[0]] + rest[1..]
  }

  /** One more piece than there are separators. */
  lemma {:induction false} SplitCount(s: string, sep: char)
    ensures |Split(s, sep)| == multiset(s)[sep] + 1
  {
    if |s| > 0 {
      SplitCount(s[1..], sep);
      MultisetCons(s, sep);
    }
  }

  /** Joining the pieces with the separator gives the text back. */
  lemma {:induction false} JoinSplit(s: string, sep: char)
    ensures Join(Split(s, sep), sep) == s
  {
    if |s| > 0 {
      var rest := Split(s[1..], sep);
      JoinSplit(s[1..], sep);
      MultisetCons(s, sep);
      if s[0] == sep {
        JoinEmptyHead(rest, sep);
      } else {
        JoinExtendHead(s[0], rest, sep);
      }
    }
  }

  lemma JoinEmptyHead(pieces: seq<string>, sep: char)
    requires |pieces| >= 1
    ensures Join([""] + pieces, sep) == [sep] + Join(pieces, sep)
  {
    var q := [""] + pieces;
    assert q[1..] == pieces;
  }

  lemma MultisetCons(s: string, c: char)
    requires |s| > 0
    ensures multiset(s)[c] == multiset(s[1..])[c] + (if s[0] == c then 1 else 0)
    ensures s == [s[0]] + s[1..]
  {
    assert s == [s[0]] + s[1..];
  }

  lemma JoinExtendHead(c: char, pieces: seq<string>, sep: char)
    requires |pieces| >= 1
    ensures Join([[c] + pieces[0]] + pieces[1..], sep) == [c] + Join(pieces, sep)
  {
    var q := [[c] + pieces[0]] + pieces[1..];
    assert q[1..] == pieces[1..];
  }

  /** The last piece, as Python's `pieces[-1]`. */
  function Last(pieces: seq<string>): string
    requires |pieces| >= 1
  {
    pieces[|pieces| - 1]
  }

  lemma {:induction false} SplitFree(p: string, sep: char)
    requires sep !in p
    ensures Split(p, sep) == [p]
  {
    if |p| > 0 {
      SplitFree(p[1..], sep);
      assert [p[0]] + p[1..] == p;
    }
  }

  lemma {:induction false} SplitAfterPiece(p: string, sep: char, rest: string)
    requires sep !in p
    ensures Split(p + [sep] + rest, sep) == [p] + Split(rest, sep)
    decreases |p|
  {
    if |p| == 0 {
      assert p + [sep] + rest == [sep] + rest;
      assert ([sep] + rest)[1..] == rest;
    } else {
      var s := p + [sep] + rest;
      assert s[1..] == p[1..] + [sep] + rest;
      SplitAfterPiece(p[1..], sep, rest);
      assert [p[0]] + p[1..] == p;
    }
  }

  /** The text after the last separator is the last piece, as `s.split(sep)[-1]`. */
  lemma {:induction false} SplitLast(a: string, sep: char, b: string)
    requires sep !in b
    ensures |Split(a + [sep] + b, sep)| >= 2
    ensures Last(Split(a + [sep] + b, sep)) == b
    decreases |a|
  {
    var s := a + [sep] + b;
    if |a| == 0 {
      assert s == [sep] + b;
      assert s[1..] == b;
      SplitFree(b, sep);
    } else {
      assert s[1..] == a[1..] + [sep] + b;
      SplitLast(a[1..], sep, b);
    }
  }

  /** Splitting undoes joining pieces that do not contain the separator. */
  lemma {:induction false} SplitJoin(pieces: seq<string>, sep: char)
    requires |pieces| >= 1
    requires forall i :: 0 <= i < |pieces| ==> sep !in pieces[i]
    ensures Split(Join(pieces, sep), sep) == pieces
  {
    if |pieces| == 1 {
      SplitFree(pieces[0], sep);
    } else {
      SplitJoin(pieces[1..], sep);
      SplitAfterPiece(pieces[0], sep, Join(pieces[1..], sep));
      assert [pieces[0]] + pieces[1..] == pieces;
    }
  }

  /** Two-field form of `SplitJoin`, the shape every `a, b = s.split(sep)` needs. */
  lemma SplitTwo(a: string, sep: char, b: string)
    requires sep !in a && sep !in b
    ensures Split(a + [sep] + b, sep) == [a, b]
  {
    SplitJoin([a, b], sep);
    assert Join([a, b], sep) == a + [sep] + Join([b], sep);
  }

  /** Three-field form of `SplitJoin`, for `a, b, c = s.split(sep)`. */
  lemma SplitThree(a: string, sep: char, b: string, c: string)
    requires sep !in a && sep !in b && sep !in c
    ensures Split(a + [sep] + b + [sep] + c, sep) == [a, b, c]
  {
    var tail := b + [sep] + c;
    assert a + [sep] + b + [sep] + c == a + [sep] + tail;
    SplitTwo(b, sep, c);
    SplitAfterPiece(a, sep, tail);
    assert [a] + [b, c] == [a, b, c];
  }

  // ---------------------------------------------------------------------------
  // strip

  /** How many whitespace characters the text starts with. */
  function LeadingSpace(s: string): (n: nat)
    ensures n <= |s|
    ensures forall i :: 0 <= i < n ==> IsSpace(s[i])
    ensures n < |s| ==> !IsSpace(s[n])
  {
    if |s| > 0 && IsSpace(s[0]) then
      var n := 1 + LeadingSpace(s[1..]);
      assert forall i :: 1 <= i < n ==> s[i] == s[1..][i - 1];
      n
    else 0
  }

  /** How many whitespace characters the text ends with. */
  function TrailingSpace(s: string): (n: nat)
    ensures n <= |s|
    ensures forall i :: |s| - n <= i < |s| ==> IsSpace(s[i])
    ensures n < |s| ==> !IsSpace(s[|s| - n - 1])
  {
    if |s| > 0 && IsSpace(s[|s| - 1]) then
      var n := 1 + TrailingSpace(s[..|s| - 1]);
      assert forall i :: |s| - n <= i < |s| - 1 ==> s[i] == s[..|s| - 1][i];
      n
    else 0
  }

  /** Python's `s.strip()`: the text without its leading and trailing whitespace. */
  function Strip(s: string): (r: string)
    ensures Trimmed(r)
    ensures |r| <= |s|
  {
    var t := s[LeadingSpace(s)..];
    t[..|t| - TrailingSpace(t)]
  }

  /** The whitespace `strip()` removes from the front of the text. */
  function LeadPad(s: string): string {
    s[..LeadingSpace(s)]
  }

  /** The whitespace `strip()` removes from the back of the text. */
  function TrailPad(s: string): string {
    var t := s[LeadingSpace(s)..];
    t[|t| - TrailingSpace(t)..]
  }

  /** A string is blank exactly when stripping leaves nothing. */
  predicate IsBlank(s: string) {
    Strip(s) == []
  }

  /** The leading whitespace ends at the first non-space character. */
  lemma {:induction false} LeadingSpaceExact(s: string, k: nat)
    requires k < |s| && !IsSpace(s[k])
    requires forall i :: 0 <= i < k ==> IsSpace(s[i])
    ensures LeadingSpace(s) == k
  {
    if k > 0 {
      assert forall i :: 0 <= i < k - 1 ==> s[1..][i] == s[i + 1];
      LeadingSpaceExact(s[1..], k - 1);
    }
  }

  /** The trailing whitespace starts after the last non-space character. */
  lemma {:induction false} TrailingSpaceExact(s: string, k: nat)
    requires k < |s| && !IsSpace(s[|s| - k - 1])
    requires forall i :: |s| - k <= i < |s| ==> IsSpace(s[i])
    ensures TrailingSpace(s) == k
  {
    if k > 0 {
      var init := s[..|s| - 1];
      assert forall i :: |init| - (k - 1) <= i < |init| ==> init[i] == s[i];
      assert init[|init| - (k - 1) - 1] == s[|s| - k - 1];
      TrailingSpaceExact(init, k - 1);
    }
  }

  /** `strip()` returns exactly the text between whitespace padding. */
  lemma StripPadded(lead: string, t: string, trail: string)
    requires AllSpace(lead) && AllSpace(trail)
    requires Trimmed(t) && t != []
    ensures Strip(lead + t + trail) == t
  {
    var s := lead + t + trail;
    assert forall i :: 0 <= i < |lead| ==> s[i] == lead[i];
    assert s[|lead|] == t[0];
    LeadingSpaceExact(s, |lead|);
    var u := s[|lead|..];
    assert u == t + trail;
    assert forall i :: |t| <= i < |u| ==> u[i] == trail[i - |t|];
    assert u[|u| - |trail| - 1] == t[|t| - 1];
    TrailingSpaceExact(u, |trail|);
    assert u[..|t|] == t;
  }

  /** The padding `strip()` removes is exactly the padding put around the text. */
  lemma PadsOf(lead: string, t: string, trail: string)
    requires AllSpace(lead) && AllSpace(trail)
    requires Trimmed(t) && t != []
    ensures LeadPad(lead + t + trail) == lead && TrailPad(lead + t + trail) == trail
  {
    var s := lead + t + trail;
    assert forall i :: 0 <= i < |lead| ==> s[i] == lead[i];
    assert s[|lead|] == t[0];
    LeadingSpaceExact(s, |lead|);
    assert s[..|lead|] == lead;
    var u := s[|lead|..];
    assert u == t + trail;
    assert forall i :: |t| <= i < |u| ==> u[i] == trail[i - |t|];
    assert u[|u| - |trail| - 1] == t[|t| - 1];
    TrailingSpaceExact(u, |trail|);
    assert u[|t|..] == trail;
  }

  /** `strip()` removes only whitespace, so it keeps every other character. */
  lemma StripKeeps(s: string, c: char)
    requires !IsSpace(c)
    ensures c in Strip(s) <==> c in s
  {
    var a := LeadingSpace(s);
    var t := s[a..];
    var b := TrailingSpace(t);
    assert Strip(s) == t[..|t| - b];
    if c in s {
      var i :| 0 <= i < |s| && s[i] == c;
      assert a <= i;
      assert t[i - a] == c;
      assert i - a < |t| - b;
      assert Strip(s)[i - a] == c;
    }
  }

  /** Stripping a trimmed text changes nothing. */
  lemma StripTrimmed(t: string)
    requires Trimmed(t)
    ensures Strip(t) == t
  {
    if t != [] {
      StripPadded([], t, []);
      assert [] + t + [] == t;
    }
  }

  // ---------------------------------------------------------------------------
  // substring test, character removal, prefix and suffix removal

  /** Python's `t in s` for strings: `t` occurs in `s` as a contiguous block. */
  predicate Contains(s: string, t: string)
    decreases |s|
  {
    t <= s || (|s| > 0 && Contains(s[1..], t))
  }

  /** A text built around `t` contains it. */
  lemma ContainsAt(s: string, a: string, t: string, b: string)
    requires s == a + t + b
    ensures Contains(s, t)
  {
    ContainsInfix(a, t, b);
  }

  /** Whatever follows it, a text keeps containing what it contains. */
  lemma {:induction false} ContainsExtend(s: string, t: string, u: string)
    requires Contains(s, t)
    ensures Contains(s + u, t)
    decreases |s|
  {
    if !(t <= s) {
      assert (s + u)[1..] == s[1..] + u;
      ContainsExtend(s[1..], t, u);
    }
  }

  lemma {:induction false} ContainsInfix(a: string, t: string, b: string)
    ensures Contains(a + t + b, t)
    decreases |a|
  {
    if |a| == 0 {
      assert a + t + b == t + b;
      assert t <= t + b;
    } else {
      assert (a + t + b)[1..] == a[1..] + t + b;
      ContainsInfix(a[1..], t, b);
    }
  }

  /** Python's `s.replace(c, '')`: `s` with every occurrence of `c` deleted. */
  function RemoveAll(s: string, c: char): (r: string)
    ensures c !in r
    ensures c !in s ==> r == s
  {
    if |s| == 0 then []
    else if s[0] == c then RemoveAll(s[1..], c)
    else [s[0]] + RemoveAll(s[1..], c)
  }

  /** Deleting `c` keeps every other character as often as it occurred. */
  lemma {:induction false} RemoveAllCounts(s: string, c: char)
    ensures |RemoveAll(s, c)| == |s| - multiset(s)[c]
    ensures forall d :: d != c ==> multiset(RemoveAll(s, c))[d] == multiset(s)[d]
  {
    if |s| > 0 {
      RemoveAllCounts(s[1..], c);
      assert s == [s[0]] + s[1..];
    }
  }

  lemma {:induction false} RemoveAllConcat(a: string, b: string, c: char)
    ensures RemoveAll(a + b, c) == RemoveAll(a, c) + RemoveAll(b, c)
    decreases |a|
  {
    if |a| == 0 {
      assert a + b == b;
    } else {
      assert (a + b)[0] == a[0] && (a + b)[1..] == a[1..] + b;
      RemoveAllConcat(a[1..], b, c);
      if a[0] != c {
        assert [a[0]] + (RemoveAll(a[1..], c) + RemoveAll(b, c)) == [a[0]] + RemoveAll(a[1..], c) + RemoveAll(b, c);
      }
    }
  }

  /** Python's `s.removeprefix(p)`. */
  function RemovePrefix(s: string, p: string): (r: string)
    ensures p <= s ==> p + r == s
    ensures !(p <= s) ==> r == s
  {
    if p <= s then s[|p|..] else s
  }

  /** Python's `s.removesuffix(p)`. */
  function RemoveSuffix(s: string, p: string): (r: string)
    ensures |p| <= |s| && s[|s| - |p|..] == p ==> r + p == s
    ensures !(|p| <= |s| && s[|s| - |p|..] == p) ==> r == s
  {
    if |p| <= |s| && s[|s| - |p|..] == p then s[..|s| - |p|] else s
  }

  // ---------------------------------------------------------------------------
  // facts about concatenation

  /** A character that is neither the separator nor in any piece is not in the joined text. */
  lemma {:induction false} JoinFree(pieces: seq<string>, sep: char, c: char)
    requires |pieces| >= 1 && c != sep
    requires forall i :: 0 <= i < |pieces| ==> c !in pieces[i]
    ensures c !in Join(pieces, sep)
  {
    if |pieces| > 1 {
      JoinFree(pieces[1..], sep, c);
    }
  }

  /** Whitespace holds no character that is not whitespace. */
  lemma SpaceFree(s: string, c: char)
    requires AllSpace(s) && !IsSpace(c)
    ensures c !in s
  {
  }

  /** Joining non-empty trimmed pieces gives a non-empty trimmed text. */
  lemma {:induction false} JoinTrimmed(pieces: seq<string>, sep: char)
    requires |pieces| >= 1
    requires forall i :: 0 <= i < |pieces| ==> |pieces[i]| >= 1 && Trimmed(pieces[i])
    ensures |Join(pieces, sep)| >= 1 && Trimmed(Join(pieces, sep))
  {
    if |pieces| > 1 {
      var rest := pieces[1..];
      assert forall i :: 0 <= i < |rest| ==> rest[i] == pieces[i + 1];
      JoinTrimmed(rest, sep);
      var j := Join(pieces, sep);
      assert j == pieces[0] + [sep] + Join(rest, sep);
      assert j[0] == pieces[0][0];
      assert j[|j| - 1] == Join(rest, sep)[|Join(rest, sep)| - 1];
    }
  }

  /** Generated names such as `var{x}` determine the text after their fixed prefix. */
  lemma PrefixInjective(p: string, x: string, y: string)
    ensures p + x == p + y <==> x == y
  {
    if p + x == p + y {
      assert (p + x)[|p|..] == x;
      assert (p + y)[|p|..] == y;
    }
  }
}
