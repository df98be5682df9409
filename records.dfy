/**
 * The record format read by the file-backed dependency lookup
 * (`CargoRepository._parse_test_file`): one record per line,
 *
 *     name[@version] -> dep1[@version], dep2[@version], ...
 *
 * This module states, as pure functions, what one line contributes to a
 * lookup (`Examine`) and what a top-to-bottom scan of a whole file yields
 * (`Scan`, `Lookup`), and proves the properties the lookup relies on: the
 * first decisive line wins, ignorable lines are ignored, a header with two
 * or more `@` aborts the whole lookup, and the exact version rule.
 */
module Records {
  import opened Text

  const Arrow: string := "->"
  const Comma: string := ","
  const At: string := "@"

  /** The left-hand side of a record, split at its `@`. */
  datatype Header = Header(name: string, version: string)

  /** A line that takes part in the search: its stripped header text and the text after the first `->`. */
  datatype Record = Record(info: string, segment: string)

  /**
   * What one line, or a whole scan, decides: nothing yet, a match with its
   * dependency names, or the `ValueError` raised by a malformed header.
   */
  datatype Verdict = NoMatch | Match(deps: seq<string>) | Failure

  /**
   * `pkg_name, pkg_ver = pkg_info.split('@')` (or `pkg_info, ''` when there is
   * no `@`). The unpacking fails exactly when `@` occurs twice or more; `None`
   * stands for that `ValueError`.
   */
  function ParseHeader(info: string): (h: Option<Header>)
    ensures h.None? <==> Occurrences(info, '@') >= 2
    ensures h.Some? ==> '@' !in h.value.name && '@' !in h.value.version
    ensures h.Some? && '@' in info ==> info == h.value.name + At + h.value.version
    ensures h.Some? && '@' !in info ==> h.value == Header(info, "")
  {
    ContainsChar(info, '@');
    SplitCharCount(info, '@');
    SplitPartsAvoidSep(info, At);
    if Contains(info, At) then
      var parts := Split(info, At);
      if |parts| == 2 then
        assert Join(parts[1..], At) == parts[1];
        ContainsChar(parts[0], '@');
        ContainsChar(parts[1], '@');
        Some(Header(parts[0], parts[1]))
      else
        None
    else
      Some(Header(info, ""))
  }

  /** `pkg_name == package and (not version or pkg_ver == version)`. */
  predicate Matches(h: Header, package: string, version: string) {
    h.name == package && (version == "" || h.version == version)
  }

  /**
   * A dependency entry with its `@version` suffix removed: everything before
   * the first `@` (`d.split('@')[0]`, see `CleanNameIsSplitHead`).
   */
  function CleanName(d: string): (r: string)
    ensures '@' !in r
    ensures StartsWith(d, r)
    ensures r == d || d[|r|] == '@'
  {
    if d == [] || d[0] == '@' then [] else [d[0]] + CleanName(d[1..])
  }

  /**
   * The filter-and-clean comprehension over the stripped entries: entries
   * that `strip()` empties are dropped (`Blank`, see `BlankIsStripEmpty`).
   */
  function CleanDeps(ds: seq<string>): (r: seq<string>)
    ensures |r| <= |ds|
    ensures forall k :: 0 <= k < |r| ==> '@' !in r[k]
  {
    if ds == [] then []
    else (if !Blank(ds[0]) then [CleanName(ds[0])] else []) + CleanDeps(ds[1..])
  }

  /** The dependency names listed in the text after the first `->`. */
  function DependencyNames(segment: string): seq<string> {
    var entries := Split(segment, Comma);
    CleanDeps(seq(|entries|, k requires 0 <= k < |entries| => Strip(entries[k])))
  }

  /** A line that is blank after stripping or has no `->` is no record. */
  function RecordOf(line: string): (r: Option<Record>)
    ensures r.None? <==> (AllSpace(line) || !Contains(Strip(line), Arrow))
    ensures r.Some? ==> Trimmed(r.value.info)
  {
    var l := Strip(line);
    if l != "" && Contains(l, Arrow) then
      var parts := Split(l, Arrow);
      Some(Record(Strip(parts[0]), parts[1]))
    else
      None
  }

  /** What a record decides for the query (`package`, `version`). */
  function ExamineRecord(rec: Record, package: string, version: string): Verdict {
    match ParseHeader(rec.info)
    case None => Failure
    case Some(h) => if Matches(h, package, version) then Match(DependencyNames(rec.segment)) else NoMatch
  }

  /** What one line of the file decides for the query. */
  function Examine(line: string, package: string, version: string): Verdict {
    match RecordOf(line)
    case None => NoMatch
    case Some(rec) => ExamineRecord(rec, package, version)
  }

  /** The verdict of every line of a file, in file order. */
  function Verdicts(lines: seq<string>, package: string, version: string): seq<Verdict> {
    seq(|lines|, k requires 0 <= k < |lines| => Examine(lines[k], package, version))
  }

  /** The first verdict that decides anything, or `NoMatch` when none does. */
  function FirstDecisive(vs: seq<Verdict>): Verdict {
    if vs == [] then NoMatch
    else if vs[0].NoMatch? then FirstDecisive(vs[1..])
    else vs[0]
  }

  /** The outcome of scanning a file from top to bottom. */
  function Scan(lines: seq<string>, package: string, version: string): Verdict {
    FirstDecisive(Verdicts(lines, package, version))
  }

  /** `FirstDecisive` finds nothing exactly when no verdict decides anything. */
  lemma {:induction false} FirstDecisiveNoMatch(vs: seq<Verdict>)
    ensures FirstDecisive(vs).NoMatch? <==> forall k :: 0 <= k < |vs| ==> vs[k].NoMatch?
    decreases |vs|
  {
    if vs != [] {
      FirstDecisiveNoMatch(vs[1..]);
      assert forall k :: 1 <= k < |vs| ==> vs[k] == vs[1..][k - 1];
    }
  }

  /** `FirstDecisive` yields the first verdict that decides anything. */
  lemma {:induction false} FirstDecisiveAt(vs: seq<Verdict>, k: nat)
    requires k < |vs| && !vs[k].NoMatch?
    requires forall j :: 0 <= j < k ==> vs[j].NoMatch?
    ensures FirstDecisive(vs) == vs[k]
    decreases k
  {
    if k > 0 {
      assert vs[k] == vs[1..][k - 1];
      FirstDecisiveAt(vs[1..], k - 1);
    }
  }

  /** On a concatenation, the second part is consulted only if the first decides nothing. */
  lemma {:induction false} FirstDecisiveAppend(a: seq<Verdict>, b: seq<Verdict>)
    ensures FirstDecisive(a + b) == if FirstDecisive(a).NoMatch? then FirstDecisive(b) else FirstDecisive(a)
    decreases |a|
  {
    if a == [] {
      assert a + b == b;
    } else {
      assert (a + b)[1..] == a[1..] + b;
      FirstDecisiveAppend(a[1..], b);
    }
  }

  /**
   * The dependency names of the first matching line; empty when no line
   * matches or when a malformed header is reached first.
   */
  function Lookup(lines: seq<string>, package: string, version: string): seq<string> {
    match Scan(lines, package, version)
    case Match(deps) => deps
    case _ => []
  }

  // ---------------------------------------------------------------------
  // The scan: first decisive line wins

  lemma VerdictsAppend(a: seq<string>, b: seq<string>, package: string, version: string)
    ensures Verdicts(a + b, package, version) == Verdicts(a, package, version) + Verdicts(b, package, version)
  {
    var l, r := Verdicts(a + b, package, version), Verdicts(a, package, version) + Verdicts(b, package, version);
    assert |l| == |r|;
    forall k | 0 <= k < |l| ensures l[k] == r[k] {
      if k < |a| { assert (a + b)[k] == a[k]; } else { assert (a + b)[k] == b[k - |a|]; }
    }
  }

  /** The scan's verdict is the verdict of the first line that decides anything. */
  lemma ScanDecidedAt(lines: seq<string>, k: nat, package: string, version: string)
    requires k < |lines| && !Examine(lines[k], package, version).NoMatch?
    requires forall j :: 0 <= j < k ==> Examine(lines[j], package, version).NoMatch?
    ensures Scan(lines, package, version) == Examine(lines[k], package, version)
  {
    var vs := Verdicts(lines, package, version);
    assert vs[k] == Examine(lines[k], package, version);
    forall j | 0 <= j < k ensures vs[j].NoMatch? {
      assert vs[j] == Examine(lines[j], package, version);
    }
    FirstDecisiveAt(vs, k);
  }

  /**
   * The result is the dependency list of the first line that decides
   * anything, provided that line is a match.
   */
  lemma FirstMatchWins(lines: seq<string>, k: nat, package: string, version: string)
    requires k < |lines| && Examine(lines[k], package, version).Match?
    requires forall j :: 0 <= j < k ==> Examine(lines[j], package, version).NoMatch?
    ensures Lookup(lines, package, version) == Examine(lines[k], package, version).deps
  {
    ScanDecidedAt(lines, k, package, version);
  }

  /** Once a prefix of the file has decided the lookup, no later line can change it. */
  lemma LaterLinesIgnored(lines: seq<string>, more: seq<string>, package: string, version: string)
    requires !Scan(lines, package, version).NoMatch?
    ensures Scan(lines + more, package, version) == Scan(lines, package, version)
    ensures Lookup(lines + more, package, version) == Lookup(lines, package, version)
  {
    VerdictsAppend(lines, more, package, version);
    FirstDecisiveAppend(Verdicts(lines, package, version), Verdicts(more, package, version));
  }

  /**
   * One more line of a file whose prefix decided nothing: the prefix's scan
   * now reports that line's verdict, and if it decides anything so does the
   * whole file.
   */
  lemma ScanExtend(lines: seq<string>, i: nat, package: string, version: string)
    requires i < |lines| && Scan(lines[..i], package, version).NoMatch?
    ensures Scan(lines[..i + 1], package, version) == Examine(lines[i], package, version)
    ensures !Examine(lines[i], package, version).NoMatch? ==>
      Scan(lines, package, version) == Examine(lines[i], package, version)
  {
    var v := Examine(lines[i], package, version);
    assert lines[..i + 1] == lines[..i] + [lines[i]];
    assert lines == lines[..i + 1] + lines[i + 1..];
    VerdictsAppend(lines[..i], [lines[i]], package, version);
    VerdictsAppend(lines[..i + 1], lines[i + 1..], package, version);
    assert Verdicts([lines[i]], package, version) == [v];
    FirstDecisiveAppend(Verdicts(lines[..i], package, version), [v]);
    assert FirstDecisive([v]) == v by {
      assert [v][1..] == [];
    }
    FirstDecisiveAppend(Verdicts(lines[..i + 1], package, version), Verdicts(lines[i + 1..], package, version));
  }

  /** When no line decides anything, the lookup is empty. */
  lemma NoMatchingLine(lines: seq<string>, package: string, version: string)
    requires forall k :: 0 <= k < |lines| ==> Examine(lines[k], package, version).NoMatch?
    ensures Scan(lines, package, version) == NoMatch
    ensures Lookup(lines, package, version) == []
  {
    FirstDecisiveNoMatch(Verdicts(lines, package, version));
  }

  /**
   * A line that is blank after stripping, or that has no `->`, can be
   * removed from anywhere in the file without changing the result.
   */
  lemma IgnorableLine(before: seq<string>, line: string, after: seq<string>, package: string, version: string)
    requires AllSpace(line) || !Contains(Strip(line), Arrow)
    ensures Examine(line, package, version) == NoMatch
    ensures Scan(before + [line] + after, package, version) == Scan(before + after, package, version)
  {
    VerdictsAppend(before + [line], after, package, version);
    VerdictsAppend(before, [line], package, version);
    VerdictsAppend(before, after, package, version);
    var vb, va := Verdicts(before, package, version), Verdicts(after, package, version);
    var vl := Verdicts([line], package, version);
    assert vl == [NoMatch];
    FirstDecisiveAppend(vb + vl, va);
    FirstDecisiveAppend(vb, vl);
    FirstDecisiveAppend(vb, va);
  }

  /**
   * A header holding two or more `@`, reached before any other decisive
   * line, makes the whole lookup empty, whatever follows it.
   */
  lemma MalformedHeaderAborts(lines: seq<string>, k: nat, rec: Record, package: string, version: string)
    requires k < |lines|
    requires forall j :: 0 <= j < k ==> Examine(lines[j], package, version).NoMatch?
    requires RecordOf(lines[k]) == Some(rec) && Occurrences(rec.info, '@') >= 2
    ensures Scan(lines, package, version) == Failure
    ensures Lookup(lines, package, version) == []
  {
    ExamineFailure(lines[k], rec, package, version);
    ScanDecidedAt(lines, k, package, version);
  }

  lemma ExamineFailure(line: string, rec: Record, package: string, version: string)
    requires RecordOf(line) == Some(rec) && Occurrences(rec.info, '@') >= 2
    ensures Examine(line, package, version) == Failure
  {
  }

  // ---------------------------------------------------------------------
  // The version rule

  lemma FirstOccurrence(x: string, y: string, c: char)
    requires c !in x
    ensures (x + [c] + y)[|x|] == c
    ensures forall i :: 0 <= i < |x| ==> (x + [c] + y)[i] != c
  {
  }

  lemma {:induction false} SplitAtUnique(x: string, y: string, u: string, w: string, c: char)
    requires c !in x && c !in u
    requires x + [c] + y == u + [c] + w
    ensures x == u && y == w
  {
    var s := x + [c] + y;
    FirstOccurrence(x, y, c);
    FirstOccurrence(u, w, c);
    assert |x| == |u|;
    assert x == s[..|x|] == u;
    assert y == s[|x| + 1..] == w;
  }

  /**
   * For a non-empty query version, a header matches exactly when it reads
   * `package@version`; so a header without `@` never matches.
   */
  lemma VersionedQuery(info: string, package: string, version: string)
    requires version != "" && ParseHeader(info).Some?
    ensures Matches(ParseHeader(info).value, package, version) <==> info == package + At + version
  {
    var h := ParseHeader(info).value;
    if info == package + At + version {
      OccurrencesAppend(package + At, version, '@');
      OccurrencesAppend(package, At, '@');
      SplitAtUnique(h.name, h.version, package, version, '@');
    }
  }

  /**
   * For an empty query version, a header matches a package name (without
   * `@`) whatever version it carries, or when it carries none.
   */
  lemma UnversionedQuery(info: string, package: string)
    requires '@' !in package && ParseHeader(info).Some?
    ensures Matches(ParseHeader(info).value, package, "") <==> (info == package || StartsWith(info, package + At))
  {
    var h := ParseHeader(info).value;
    if StartsWith(info, package + At) {
      var rest := info[|package| + 1..];
      assert info == package + At + rest;
      SplitAtUnique(h.name, h.version, package, rest, '@');
    }
  }

  // ---------------------------------------------------------------------
  // Which part of a record line is read

  lemma ArrowFirstAt(x: string, rest: string)
    requires !Contains(x, Arrow) && StartsWith(rest, Arrow)
    ensures IndexOf(x + rest, Arrow) == Some(|x|)
  {
    var s := x + rest;
    assert |Arrow| == 2 && Arrow[0] == '-' && Arrow[1] == '>';
    assert s[|x|..|x| + 2] == rest[..2];
    assert OccursAt(s, Arrow, |x|);
    IndexOfFirst(s, Arrow);
    IndexOfFirst(x, Arrow);
    var i := IndexOf(s, Arrow).value;
    if i < |x| {
      if i + 2 <= |x| {
        assert s[i..i + 2] == x[i..i + 2];
        assert OccursAt(x, Arrow, i);
      }
      assert false;
    }
  }

  lemma SplitArrowHead(x: string, rest: string)
    requires !Contains(x, Arrow) && (rest == [] || StartsWith(rest, Arrow))
    ensures Split(x + rest, Arrow)[0] == x
    ensures rest != [] ==> |rest| >= 2 && Split(x + rest, Arrow)[1..] == Split(rest[2..], Arrow)
  {
    if rest == [] {
      assert x + rest == x;
    } else {
      ArrowFirstAt(x, rest);
      assert (x + rest)[|x| + 2..] == rest[2..];
    }
  }

  /**
   * The dependencies come only from the text between the first and the
   * second `->`; whatever follows a second `->` is never read.
   */
  lemma ArrowSegments(line: string, head: string, segment: string, tail: string)
    requires Strip(line) == head + Arrow + segment + tail
    requires !Contains(head, Arrow) && !Contains(segment, Arrow)
    requires tail == [] || StartsWith(tail, Arrow)
    ensures RecordOf(line) == Some(Record(Strip(head), segment))
  {
    ArrowParts(head, segment, tail);
  }

  lemma ArrowParts(head: string, segment: string, tail: string)
    requires !Contains(head, Arrow) && !Contains(segment, Arrow)
    requires tail == [] || StartsWith(tail, Arrow)
    ensures Contains(head + Arrow + segment + tail, Arrow)
    ensures |Split(head + Arrow + segment + tail, Arrow)| >= 2
    ensures Split(head + Arrow + segment + tail, Arrow)[0] == head
    ensures Split(head + Arrow + segment + tail, Arrow)[1] == segment
  {
    var rest := Arrow + segment + tail;
    ArrowRest(head, segment, tail);
    HeadThenArrow(head, rest);
    SplitArrowHead(segment, tail);
  }

  lemma ArrowRest(head: string, segment: string, tail: string)
    ensures head + Arrow + segment + tail == head + (Arrow + segment + tail)
    ensures StartsWith(Arrow + segment + tail, Arrow)
    ensures (Arrow + segment + tail)[2..] == segment + tail
  {
    assert (Arrow + segment + tail)[..|Arrow|] == Arrow;
  }

  /** A text free of `->` followed by `->`: it is the first part and more parts follow. */
  lemma HeadThenArrow(x: string, rest: string)
    requires !Contains(x, Arrow) && StartsWith(rest, Arrow)
    ensures Contains(x + rest, Arrow)
    ensures |Split(x + rest, Arrow)| >= 2
    ensures Split(x + rest, Arrow)[0] == x
    ensures Split(x + rest, Arrow)[1] == Split(rest[2..], Arrow)[0]
  {
    ArrowAt(x, rest);
    SplitArrowHead(x, rest);
    var parts := Split(x + rest, Arrow);
    assert parts[1] == parts[1..][0];
  }

  lemma ArrowAt(x: string, rest: string)
    requires StartsWith(rest, Arrow)
    ensures Contains(x + rest, Arrow)
  {
    assert (x + rest)[|x|..|x| + |Arrow|] == rest[..|Arrow|];
    OccursContains(x + rest, Arrow, |x|);
  }

  // ---------------------------------------------------------------------
  // The dependency list

  /** Cleaning keeps order: it works entry by entry. */
  lemma {:induction false} CleanDepsAppend(a: seq<string>, b: seq<string>)
    ensures CleanDeps(a + b) == CleanDeps(a) + CleanDeps(b)
    decreases |a|
  {
    if a == [] {
      assert a + b == b;
    } else {
      assert (a + b)[0] == a[0];
      assert (a + b)[1..] == a[1..] + b;
      CleanDepsAppend(a[1..], b);
    }
  }

  /** A blank entry contributes nothing; any other contributes its cleaned name. */
  lemma CleanDepsSingle(d: string)
    ensures CleanDeps([d]) == if Strip(d) == "" then [] else [CleanName(d)]
  {
    assert [d][1..] == [];
    BlankIsStripEmpty(d);
  }

  /** With no blank entry, there is exactly one name per entry, in entry order. */
  lemma {:induction false} CleanDepsNoBlank(ds: seq<string>)
    requires forall k :: 0 <= k < |ds| ==> !Blank(ds[k])
    ensures |CleanDeps(ds)| == |ds|
    ensures forall k :: 0 <= k < |ds| ==> CleanDeps(ds)[k] == CleanName(ds[k])
    decreases |ds|
  {
    if ds != [] {
      var tail := ds[1..];
      assert forall k :: 0 <= k < |tail| ==> tail[k] == ds[k + 1];
      CleanDepsNoBlank(tail);
      var r := [CleanName(ds[0])] + CleanDeps(tail);
      assert CleanDeps(ds) == r;
      forall k | 1 <= k < |ds| ensures r[k] == CleanName(ds[k]) {
        assert r[k] == CleanDeps(tail)[k - 1];
      }
    }
  }

  /**
   * When every comma-separated entry is non-blank, the segment yields one
   * name per entry (one more than it has commas), each the stripped entry
   * cut at its first `@`.
   */
  lemma DependencyNamesPerEntry(segment: string)
    requires forall k :: 0 <= k < |Split(segment, Comma)| ==> !AllSpace(Split(segment, Comma)[k])
    ensures |DependencyNames(segment)| == Occurrences(segment, ',') + 1
    ensures forall k :: 0 <= k < |DependencyNames(segment)| ==>
      DependencyNames(segment)[k] == CleanName(Strip(Split(segment, Comma)[k]))
  {
    var entries := Split(segment, Comma);
    var ds := seq(|entries|, k requires 0 <= k < |entries| => Strip(entries[k]));
    forall k | 0 <= k < |ds| ensures !Blank(ds[k]) {
      StripIdempotent(entries[k]);
      BlankIsStripEmpty(ds[k]);
    }
    CleanDepsNoBlank(ds);
    SplitCharCount(segment, ',');
  }

  /** An entry that is only a version, such as `@1.0`, yields the empty name. */
  lemma VersionOnlyEntry()
    ensures DependencyNames("@1.0") == [""]
  {
    var e := "@1.0";
    ContainsChar(e, ',');
    assert Split(e, Comma) == [e];
    StripTrimmed(e);
    CleanDepsSingle(e);
  }

  lemma {:induction false} PrefixBeforeUnique(d: string, p: string, q: string)
    requires StartsWith(d, p) && '@' !in p && (p == d || d[|p|] == '@')
    requires StartsWith(d, q) && '@' !in q && (q == d || d[|q|] == '@')
    ensures p == q
  {
    assert |p| == |q| by {
      assert forall i :: 0 <= i < |p| ==> d[i] == p[i];
      assert forall i :: 0 <= i < |q| ==> d[i] == q[i];
    }
    assert p == d[..|p|];
  }

  /** Cleaning an entry is exactly Python's `d.split('@')[0]`. */
  lemma CleanNameIsSplitHead(d: string)
    ensures CleanName(d) == Split(d, At)[0]
  {
    var parts := Split(d, At);
    SplitPartsAvoidSep(d, At);
    ContainsChar(parts[0], '@');
    if |parts| > 1 {
      assert d == parts[0] + At + Join(parts[1..], At);
      assert d[|parts[0]|] == '@';
    }
    PrefixBeforeUnique(d, CleanName(d), parts[0]);
  }
}
