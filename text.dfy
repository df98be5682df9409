/**
 * The handful of Python `str` operations the dependency parser relies on,
 * stated over `string` (= `seq<char>`): `strip()`, `rstrip(c)`,
 * `startswith`, the substring test `sub in s`, and `split(sep)` with an
 * explicit, non-empty separator.
 *
 * Python's `str.strip()` removes every Unicode whitespace character; this
 * model fixes the whitespace set to the ASCII characters Python treats as
 * whitespace (tab, line feed, vertical tab, form feed, carriage return, the
 * four information separators 0x1C-0x1F, and space).
 */
module Text {

  datatype Option<T> = None | Some(value: T)

  /** ASCII whitespace as `str.isspace()` sees it. */
  predicate IsSpace(c: char) {
    var n := c as int;
    (9 <= n <= 13) || (28 <= n <= 32)
  }

  predicate AllSpace(s: string) {
    forall i :: 0 <= i < |s| ==> IsSpace(s[i])
  }

  /** No whitespace at either end (vacuously true of the empty string). */
  predicate Trimmed(s: string) {
    s == [] || (!IsSpace(s[0]) && !IsSpace(s[|s| - 1]))
  }

  /**
   * The longest suffix of `s` that does not start with a `space` character:
   * `s.lstrip()` when `space` is `IsSpace`.
   */
  function TrimStart(s: string, space: char -> bool): (r: string)
    ensures |r| <= |s| && r == s[|s| - |r|..]
    ensures forall i :: 0 <= i < |s| - |r| ==> space(s[i])
    ensures r == [] || !space(r[0])
  {
    if s != [] && space(s[0]) then TrimStart(s[1..], space) else s
  }

  /**
   * The longest prefix of `s` that does not end with a `space` character:
   * `s.rstrip()` when `space` is `IsSpace`.
   */
  function TrimEnd(s: string, space: char -> bool): (r: string)
    ensures |r| <= |s| && r == s[..|r|]
    ensures forall i :: |r| <= i < |s| ==> space(s[i])
    ensures r == [] || !space(r[|r| - 1])
  {
    if s != [] && space(s[|s| - 1]) then TrimEnd(s[..|s| - 1], space) else s
  }

  /** `s.strip()`. */
  function Strip(s: string): (r: string)
    ensures Trimmed(r)
    ensures r == [] <==> AllSpace(s)
  {
    var t := TrimStart(s, IsSpace);
    var r := TrimEnd(t, IsSpace);
    assert r == [] ==> AllSpace(s) by {
      if r == [] {
        assert t == [];
      }
    }
    assert r != [] ==> !AllSpace(s) by {
      if r != [] {
        assert r[0] == s[|s| - |t|];
      }
    }
    r
  }

  lemma {:induction false} TrimStartSkipsSpace(a: string, x: string)
    requires AllSpace(a)
    requires x == [] || !IsSpace(x[0])
    ensures TrimStart(a + x, IsSpace) == x
    decreases |a|
  {
    if a != [] {
      assert (a + x)[1..] == a[1..] + x;
      TrimStartSkipsSpace(a[1..], x);
    } else {
      assert a + x == x;
    }
  }

  lemma {:induction false} TrimEndSkipsSpace(x: string, b: string)
    requires AllSpace(b)
    requires x == [] || !IsSpace(x[|x| - 1])
    ensures TrimEnd(x + b, IsSpace) == x
    decreases |b|
  {
    if b != [] {
      assert (x + b)[..|x + b| - 1] == x + b[..|b| - 1];
      TrimEndSkipsSpace(x, b[..|b| - 1]);
    } else {
      assert x + b == x;
    }
  }

  /**
   * `strip()` is characterised by what it keeps: whatever whitespace
   * surrounds a trimmed string is removed, and nothing else.
   */
  lemma StripSurrounded(a: string, x: string, b: string)
    requires AllSpace(a) && AllSpace(b) && Trimmed(x)
    ensures Strip(a + x + b) == x
  {
    if x == [] {
      assert a + x + b == a + b;
      assert AllSpace(a + b);
    } else {
      assert a + x + b == a + (x + b);
      TrimStartSkipsSpace(a, x + b);
      TrimEndSkipsSpace(x, b);
    }
  }

  /** A trimmed string is its own `strip()`. */
  lemma StripTrimmed(x: string)
    requires Trimmed(x)
    ensures Strip(x) == x
  {
    assert TrimStart(x, IsSpace) == x;
    assert TrimEnd(x, IsSpace) == x;
  }

  /** `strip()` is idempotent. */
  lemma StripIdempotent(s: string)
    ensures Strip(Strip(s)) == Strip(s)
  {
    StripTrimmed(Strip(s));
  }

  /** `not s.strip()`: the text is whitespace only (or empty). */
  predicate Blank(s: string) {
    s == [] || (IsSpace(s[0]) && Blank(s[1..]))
  }

  /** `Blank` is exactly "`strip()` leaves nothing". */
  lemma {:induction false} BlankIsStripEmpty(s: string)
    ensures Blank(s) <==> Strip(s) == []
    decreases |s|
  {
    if s != [] {
      BlankIsStripEmpty(s[1..]);
      assert AllSpace(s) <==> IsSpace(s[0]) && AllSpace(s[1..]) by {
        assert forall i :: 1 <= i < |s| ==> s[i] == s[1..][i - 1];
      }
    }
  }

  /** `s.rstrip(c)`: drops every trailing `c` and nothing else. */
  function RStrip(s: string, c: char): (r: string)
    ensures |r| <= |s| && r == s[..|r|]
    ensures forall i :: |r| <= i < |s| ==> s[i] == c
    ensures r == [] || r[|r| - 1] != c
  {
    if s != [] && s[|s| - 1] == c then RStrip(s[..|s| - 1], c) else s
  }

  /** Appending more of the stripped character never changes `rstrip`. */
  lemma RStripAppend(s: string, c: char)
    ensures RStrip(s + [c], c) == RStrip(s, c)
  {
    assert (s + [c])[..|s + [c]| - 1] == s;
  }

  /** `s.startswith(p)`. */
  predicate StartsWith(s: string, p: string) {
    |p| <= |s| && s[..|p|] == p
  }

  /** `sub` occurs in `s` starting at index `i`. */
  predicate OccursAt(s: string, sub: string, i: int) {
    0 <= i && i + |sub| <= |s| && s[i..i + |sub|] == sub
  }

  /** `s.find(sub)` when it succeeds: the first index at which `sub` occurs (see `IndexOfFirst`). */
  function IndexOf(s: string, sub: string): (r: Option<nat>)
    ensures r.Some? ==> OccursAt(s, sub, r.value)
    decreases |s|
  {
    if |s| < |sub| then None
    else if s[..|sub|] == sub then Some(0)
    else
      match IndexOf(s[1..], sub)
      case None => None
      case Some(i) =>
        OccursAtTail(s, sub, i);
        Some(i + 1)
  }

  /** Python's `sub in s`. */
  predicate Contains(s: string, sub: string) {
    IndexOf(s, sub).Some?
  }

  lemma OccursAtTail(s: string, sub: string, j: nat)
    requires s != []
    ensures OccursAt(s[1..], sub, j) <==> OccursAt(s, sub, j + 1)
  {
    if j + |sub| <= |s| - 1 {
      assert s[1..][j..j + |sub|] == s[j + 1..j + 1 + |sub|];
    }
  }

  /** `IndexOf` finds the first occurrence, and finds none only when there is none. */
  lemma {:induction false} IndexOfFirst(s: string, sub: string)
    ensures IndexOf(s, sub).Some? ==> forall j :: 0 <= j < IndexOf(s, sub).value ==> !OccursAt(s, sub, j)
    ensures IndexOf(s, sub).None? ==> forall j :: !OccursAt(s, sub, j)
    decreases |s|
  {
    if |s| >= |sub| && s[..|sub|] != sub {
      IndexOfFirst(s[1..], sub);
      forall j: nat | OccursAt(s, sub, j) && (IndexOf(s, sub).None? || j < IndexOf(s, sub).value)
        ensures false
      {
        assert j > 0;
        OccursAtTail(s, sub, j - 1);
      }
    }
  }

  /** An occurrence anywhere makes `sub in s` true. */
  lemma OccursContains(s: string, sub: string, i: int)
    requires OccursAt(s, sub, i)
    ensures Contains(s, sub)
  {
    IndexOfFirst(s, sub);
  }

  /** For a one-character needle, `Contains` is plain sequence membership. */
  lemma ContainsChar(s: string, c: char)
    ensures Contains(s, [c]) <==> c in s
  {
    if c in s {
      var i :| 0 <= i < |s| && s[i] == c;
      assert OccursAt(s, [c], i);
      OccursContains(s, [c], i);
    }
    if Contains(s, [c]) {
      var i := IndexOf(s, [c]).value;
      assert s[i] == s[i..i + 1][0];
    }
  }

  /** The inverse of `Split`: the parts glued back together with `sep`. */
  function Join(parts: seq<string>, sep: string): string
    requires |parts| >= 1
  {
    if |parts| == 1 then parts[0] else parts[0] + sep + Join(parts[1..], sep)
  }

  lemma PrefixKeepsAbsence(s: string, sub: string, i: nat)
    requires i <= |s|
    requires forall j :: 0 <= j < i ==> !OccursAt(s, sub, j)
    requires |sub| > 0
    ensures !Contains(s[..i], sub)
  {
    if Contains(s[..i], sub) {
      var j := IndexOf(s[..i], sub).value;
      assert s[..i][j..j + |sub|] == s[j..j + |sub|];
      assert OccursAt(s, sub, j);
    }
  }

  /**
   * Python's `s.split(sep)` for a non-empty separator: cut at every
   * occurrence of `sep`, scanning left to right without overlap.
   */
  function Split(s: string, sep: string): (parts: seq<string>)
    requires sep != []
    ensures |parts| >= 1
    ensures Join(parts, sep) == s
    ensures |parts| == 1 <==> !Contains(s, sep)
    decreases |s|
  {
    match IndexOf(s, sep)
    case None => [s]
    case Some(i) =>
      CutAt(s, sep, i);
      var rest := Split(s[i + |sep|..], sep);
      JoinCons(s[..i], rest, sep);
      [s[..i]] + rest
  }

  lemma CutAt(s: string, sub: string, i: int)
    requires OccursAt(s, sub, i)
    ensures s == s[..i] + sub + s[i + |sub|..]
  {
    assert s == s[..i] + s[i..i + |sub|] + s[i + |sub|..];
  }

  lemma JoinCons(first: string, rest: seq<string>, sep: string)
    requires |rest| >= 1
    ensures Join([first] + rest, sep) == first + sep + Join(rest, sep)
  {
    assert ([first] + rest)[1..] == rest;
  }

  /** No part of a split contains the separator. */
  lemma {:induction false} SplitPartsAvoidSep(s: string, sep: string)
    requires sep != []
    ensures forall k :: 0 <= k < |Split(s, sep)| ==> !Contains(Split(s, sep)[k], sep)
    decreases |s|
  {
    match IndexOf(s, sep)
    case None =>
    case Some(i) =>
      IndexOfFirst(s, sep);
      PrefixKeepsAbsence(s, sep, i);
      var rest := s[i + |sep|..];
      SplitPartsAvoidSep(rest, sep);
      assert Split(s, sep) == [s[..i]] + Split(rest, sep);
  }

  /** The number of times `c` occurs in `s`. */
  function Occurrences(s: string, c: char): (n: nat)
    ensures n <= |s|
    ensures n == 0 <==> c !in s
  {
    if s == [] then 0 else (if s[0] == c then 1 else 0) + Occurrences(s[1..], c)
  }

  lemma {:induction false} OccurrencesAppend(a: string, b: string, c: char)
    ensures Occurrences(a + b, c) == Occurrences(a, c) + Occurrences(b, c)
    decreases |a|
  {
    if a == [] {
      assert a + b == b;
    } else {
      assert (a + b)[1..] == a[1..] + b;
      OccurrencesAppend(a[1..], b, c);
    }
  }

  /** Splitting on a single character yields one more part than it has occurrences. */
  lemma {:induction false} SplitCharCount(s: string, c: char)
    ensures |Split(s, [c])| == Occurrences(s, c) + 1
    decreases |s|
  {
    var parts := Split(s, [c]);
    match IndexOf(s, [c])
    case None =>
      ContainsChar(s, c);
    case Some(i) =>
      var rest := s[i + 1..];
      assert |parts| == 1 + |Split(rest, [c])|;
      SplitCharCount(rest, c);
      IndexOfFirst(s, [c]);
      PrefixKeepsAbsence(s, [c], i);
      ContainsChar(s[..i], c);
      CutAt(s, [c], i);
      OccurrencesAppend(s[..i] + [c], rest, c);
      OccurrencesAppend(s[..i], [c], c);
      assert Occurrences([c], c) == 1 by { assert [c][1..] == []; }
  }
}
